/**
 * The keyboard handlers of the directory pane. The pane keeps one selected view node (or
 * none) and reads the flattened list of visible nodes from the root each time a key
 * arrives; Left and Right also expand or collapse a node.
 */
module DirectoryTrees {
  import opened Options
  import opened ViewNodes

  /**
   * Kotlin `List.indexOf`: the first position of the selected node, or -1 when nothing is
   * selected or the node is not listed.
   */
  function IndexOf(l: seq<nat>, x: Option<nat>): (r: int)
    ensures -1 <= r < |l|
    ensures 0 <= r ==> x == Some(l[r]) && forall k :: 0 <= k < r ==> l[k] != x.value
    ensures r == -1 <==> x.None? || x.value !in l
  {
    if x.None? || |l| == 0 then -1
    else if l[0] == x.value then 0
    else
      var r := IndexOf(l[1..], x);
      if r == -1 then -1 else r + 1
  }

  /** In a list without repetitions, `indexOf` finds each element at its own position. */
  lemma IndexOfDistinct(l: seq<nat>, i: int)
    requires Distinct(l) && 0 <= i < |l|
    ensures IndexOf(l, Some(l[i])) == i
  {
    var r := IndexOf(l, Some(l[i]));
    assert l[i] in l;
  }

  /** The tree's nodes together with the selection, as the key handlers see them. */
  datatype NavState = NavState(viewNodes: seq<ViewNode>, selection: Option<nat>)

  ghost predicate ValidNav(st: NavState)
  {
    WellFormed(st.viewNodes) && (st.selection.Some? ==> st.selection.value < |st.viewNodes|)
  }

  /** The list the pane shows: the root's visible nodes, depth first. */
  function Listing(st: NavState): (l: seq<nat>)
    requires ValidNav(st)
    ensures |l| > 0 && l[0] == 0
    ensures forall k :: 0 <= k < |l| ==> l[k] < |st.viewNodes|
    ensures Distinct(l)
  {
    VisibleDistinct(st.viewNodes, 0);
    VisibleDepthFirst(st.viewNodes, 0)
  }

  /** Escape: clear the selection. */
  function Escape(st: NavState): (st': NavState)
    ensures st'.viewNodes == st.viewNodes && st'.selection.None?
  {
    st.(selection := None)
  }

  /** Up: select the previous row when the selection's index is greater than 0. */
  function Up(st: NavState): (st': NavState)
    requires ValidNav(st)
    ensures ValidNav(st') && st'.viewNodes == st.viewNodes
  {
    var l := Listing(st);
    var i := IndexOf(l, st.selection);
    if i > 0 then st.(selection := Some(l[i - 1])) else st
  }

  /** Down: select the next row when the selection's index is below the last one. */
  function Down(st: NavState): (st': NavState)
    requires ValidNav(st)
    ensures ValidNav(st') && st'.viewNodes == st.viewNodes
  {
    var l := Listing(st);
    var i := IndexOf(l, st.selection);
    if i < |l| - 1 then st.(selection := Some(l[i + 1])) else st
  }

  /** Left: select the selected node's parent and collapse that parent. */
  function Left(st: NavState): (st': NavState)
    requires ValidNav(st)
    ensures ValidNav(st')
  {
    match st.selection
    case None => st
    case Some(s) =>
      match st.viewNodes[s].parent
      case None => st
      case Some(p) => NavState(WithExpanded(st.viewNodes, p, false), Some(p))
  }

  /** Right: expand the selected node and select its first child, if it has one. */
  function Right(st: NavState): (st': NavState)
    requires ValidNav(st)
    ensures ValidNav(st')
  {
    match st.selection
    case None => st
    case Some(s) =>
      FirstChildIsChild(st.viewNodes, s);
      match st.viewNodes[s].FirstChild()
      case None => st
      case Some(c) => NavState(WithExpanded(st.viewNodes, s, true), Some(c))
  }

  // ---------------------------------------------------------------------------------------
  // Up and Down

  /** Up from row `i > 0` selects row `i - 1`. */
  lemma UpMovesToPrevious(st: NavState, i: int)
    requires ValidNav(st) && 0 < i < |Listing(st)| && st.selection == Some(Listing(st)[i])
    ensures Up(st) == st.(selection := Some(Listing(st)[i - 1]))
  {
  }

  /** Up does nothing without a selection, with a hidden selection, or on the top row. */
  lemma UpStays(st: NavState)
    requires ValidNav(st)
    ensures st.selection.None? || st.selection.value !in Listing(st) || st.selection == Some(Listing(st)[0])
      ==> Up(st) == st
  {
  }

  /** Down from row `i` below the last selects row `i + 1`. */
  lemma DownMovesToNext(st: NavState, i: int)
    requires ValidNav(st) && 0 <= i < |Listing(st)| - 1 && st.selection == Some(Listing(st)[i])
    ensures Down(st) == st.(selection := Some(Listing(st)[i + 1]))
  {
  }

  /** Down on the last row does nothing. */
  lemma DownStaysAtBottom(st: NavState)
    requires ValidNav(st) && st.selection == Some(Listing(st)[|Listing(st)| - 1])
    ensures Down(st) == st
  {
  }

  /**
   * Because `indexOf` answers -1, Down without a selection, or with a selection that is not
   * listed, selects the first row (the root).
   */
  lemma DownFromNothingSelectsFirst(st: NavState)
    requires ValidNav(st)
    ensures st.selection.None? || st.selection.value !in Listing(st) ==> Down(st).selection == Some(0)
  {
  }

  /** Up undoes Down everywhere but on the last row. */
  lemma DownThenUp(st: NavState, i: int)
    requires ValidNav(st) && 0 <= i < |Listing(st)| - 1 && st.selection == Some(Listing(st)[i])
    ensures Up(Down(st)) == st
  {
  }

  /** Down undoes Up everywhere but on the top row. */
  lemma UpThenDown(st: NavState, i: int)
    requires ValidNav(st) && 0 < i < |Listing(st)| && st.selection == Some(Listing(st)[i])
    ensures Down(Up(st)) == st
  {
  }

  // ---------------------------------------------------------------------------------------
  // Left and Right

  /**
   * Left on a node with a parent selects the parent and collapses it, so that nothing below
   * the parent, the previously selected node included, is listed any more.
   */
  lemma LeftHidesSubtree(st: NavState, s: nat, p: nat)
    requires ValidNav(st) && st.selection == Some(s) && st.viewNodes[s].parent == Some(p)
    ensures var st' := Left(st);
      && st'.selection == Some(p) && st'.viewNodes == WithExpanded(st.viewNodes, p, false)
      && (forall d :: 0 <= d < |st'.viewNodes| && StrictDescendant(st'.viewNodes, d, p) ==> d !in Listing(st'))
      && s !in Listing(st')
  {
    var st' := Left(st);
    forall d | 0 <= d < |st'.viewNodes| && StrictDescendant(st'.viewNodes, d, p)
      ensures d !in Listing(st')
    {
      CollapsedHidesDescendants(st'.viewNodes, p, d);
    }
    assert StrictDescendant(st'.viewNodes, s, p);
  }

  /** Left does nothing without a selection or on the root. */
  lemma LeftOnRootStays(st: NavState)
    requires ValidNav(st)
    ensures st.selection.None? || st.viewNodes[st.selection.value].parent.None? ==> Left(st) == st
  {
  }

  /**
   * Right on the node at row `i` that has a first child expands it and selects the child,
   * which is listed at row `i + 1` while the node itself keeps row `i`.
   */
  lemma RightRevealsFirstChild(st: NavState, i: int)
    requires ValidNav(st) && 0 <= i < |Listing(st)| && st.selection == Some(Listing(st)[i])
    requires st.viewNodes[Listing(st)[i]].FirstChild().Some?
    ensures var st' := Right(st);
      var l' := Listing(st');
      && st'.viewNodes[Listing(st)[i]].isExpanded
      && st'.selection == st.viewNodes[Listing(st)[i]].FirstChild()
      && i + 1 < |l'| && l'[i] == Listing(st)[i] && l'[i + 1] == st'.selection.value
      && st'.viewNodes == WithExpanded(st.viewNodes, Listing(st)[i], true)
  {
    var vs := st.viewNodes;
    var l := Listing(st);
    var s := l[i];
    var vs' := WithExpanded(vs, s, true);
    VisibleDistinct(vs, 0);
    assert forall k :: 0 <= k < i ==> l[k] != s;
    WithExpandedSameShape(vs, s, true);
    ToggleKeepsPrefix(vs, vs', s, 0, i);
    var l' := VisibleDepthFirst(vs', 0);
    assert l'[i] == s;
    assert vs'[s].FirstChild() == vs[s].FirstChild();
    FirstChildFollows(vs', 0, i);
  }

  /** After Right, Up goes back to the node that was selected. */
  lemma RightThenUp(st: NavState, i: int)
    requires ValidNav(st) && 0 <= i < |Listing(st)| && st.selection == Some(Listing(st)[i])
    requires st.viewNodes[Listing(st)[i]].FirstChild().Some?
    ensures Up(Right(st)) == Right(st).(selection := st.selection)
  {
    RightRevealsFirstChild(st, i);
    UpMovesToPrevious(Right(st), i + 1);
  }

  /** Right does nothing without a selection or on a node without (loaded) children. */
  lemma RightWithoutChildrenStays(st: NavState)
    requires ValidNav(st)
    ensures st.selection.None? || !st.viewNodes[st.selection.value].HasChildren() ==> Right(st) == st
  {
  }

  /** Left undoes Right on a collapsed node: the node is selected and collapsed again. */
  lemma RightThenLeft(st: NavState)
    requires ValidNav(st) && st.selection.Some? && st.viewNodes[st.selection.value].HasChildren()
    requires !st.viewNodes[st.selection.value].isExpanded
    ensures Left(Right(st)) == st
  {
    var s := st.selection.value;
    FirstChildIsChild(st.viewNodes, s);
    var vs' := WithExpanded(st.viewNodes, s, true);
    assert WithExpanded(vs', s, false) == st.viewNodes;
  }

  // ---------------------------------------------------------------------------------------
  // The pane's state

  /** The selection state of one pane over one tree of view nodes. */
  class DirectoryTreeState {
    const tree: ViewTree
    var selection: Option<nat>

    ghost predicate Valid()
      reads this, tree
    {
      tree.Valid() && (selection.Some? ==> selection.value < |tree.viewNodes|)
    }

    ghost function State(): (st: NavState)
      reads this, tree
    {
      NavState(tree.viewNodes, selection)
    }

    /** `DirectoryTree(rootViewNode, selectionState)`: the selection starts as given. */
    constructor (tree: ViewTree, selection: Option<nat>)
      requires tree.Valid() && (selection.Some? ==> selection.value < |tree.viewNodes|)
      ensures Valid() && this.tree == tree && this.selection == selection
    {
      this.tree := tree;
      this.selection := selection;
    }

    /** A row's `onSelect`: the clicked node becomes the selection. */
    method OnSelect(id: nat)
      requires Valid() && id < |tree.viewNodes|
      modifies this
      ensures Valid() && selection == Some(id) && tree.viewNodes == old(tree.viewNodes)
    {
      selection := Some(id);
    }

    method OnEscape()
      requires Valid()
      modifies this
      ensures Valid() && State() == Escape(old(State()))
    {
      selection := None;
    }

    method OnUp()
      requires Valid()
      modifies this
      ensures Valid() && State() == Up(old(State()))
    {
      var listOfViewNodes := tree.ListExpandedNodesDepthFirst(0);
      var currentSelectionIndex := IndexOf(listOfViewNodes, selection);
      if currentSelectionIndex > 0 {
        selection := Some(listOfViewNodes[currentSelectionIndex - 1]);
      }
    }

    method OnDown()
      requires Valid()
      modifies this
      ensures Valid() && State() == Down(old(State()))
    {
      var listOfViewNodes := tree.ListExpandedNodesDepthFirst(0);
      var currentSelectionIndex := IndexOf(listOfViewNodes, selection);
      if currentSelectionIndex < |listOfViewNodes| - 1 {
        selection := Some(listOfViewNodes[currentSelectionIndex + 1]);
      }
    }

    method OnLeft()
      requires Valid()
      modifies this, tree
      ensures Valid() && State() == Left(old(State()))
    {
      match selection
      case None =>
      case Some(s) =>
        match tree.viewNodes[s].parent
        case None =>
        case Some(p) =>
          selection := Some(p);
          tree.SetExpanded(p, false);
    }

    method OnRight()
      requires Valid()
      modifies this, tree
      ensures Valid() && State() == Right(old(State()))
    {
      match selection
      case None =>
      case Some(s) =>
        var firstChild := tree.FirstChild(s);
        match firstChild
        case None =>
        case Some(c) =>
          tree.SetExpanded(s, true);
          selection := Some(c);
    }
  }
}
