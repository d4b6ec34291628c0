/**
 * The view-model tree behind the directory pane. Every Kotlin `ViewNode` object is a record
 * in an arena (`seq<ViewNode>`), addressed by its index; the root is index 0. `parent` and
 * the `children` ids index the same arena, and a child's id is always greater than its
 * parent's, which is what makes the recursive flattening terminate.
 */
module ViewNodes {
  import opened Options
  import opened Nodes

  /** The fields of one `ViewNode` object. `children == None` means "not loaded yet". */
  datatype ViewNode = ViewNode(node: Node, parent: Option<nat>, level: nat, isExpanded: bool, children: Option<seq<nat>>)
  {
    /** `hasChildren()`: loaded, and not empty. An unloaded node answers false, not "unknown". */
    predicate HasChildren() { children.Some? && |children.value| > 0 }

    /** `firstChild`. */
    function FirstChild(): (c: Option<nat>)
      ensures c.Some? <==> HasChildren()
      ensures c.Some? ==> children.Some? && c.value == children.value[0]
    { if HasChildren() then Some(children.value[0]) else None }
  }

  /** The Kotlin constructor `ViewNode(node, parent, level)`: it never lists children. */
  function NewViewNode(node: Node, parent: Option<nat>, level: nat): (v: ViewNode)
    ensures v.node == node && v.parent == parent && v.level == level
    ensures v.isExpanded <==> node.expandable && level == 0
    ensures v.children.None? <==> node.expandable
    ensures !v.HasChildren() && v.FirstChild().None?
  {
    ViewNode(node, parent, level, node.expandable && level == 0, if node.expandable then None else Some([]))
  }

  /** `children ?: emptyList()`: the loaded children, an unloaded list counting as none. */
  function Kids(vs: seq<ViewNode>, id: nat): (ks: seq<nat>)
    requires id < |vs|
  {
    match vs[id].children
    case Some(cs) => cs
    case None => []
  }

  ghost predicate RootOk(vs: seq<ViewNode>)
  {
    |vs| > 0 && vs[0].parent.None? && vs[0].level == 0
  }

  /** Every node but the root has a parent, created before it. */
  ghost predicate ParentsOk(vs: seq<ViewNode>)
  {
    forall id :: 0 < id < |vs| ==> vs[id].parent.Some? && vs[id].parent.value < id
  }

  /** A node that is not `Expandable` has an empty, loaded child list. */
  ghost predicate LeavesLoaded(vs: seq<ViewNode>)
  {
    forall id :: 0 <= id < |vs| && !vs[id].node.expandable ==> vs[id].children == Some([])
  }

  /** Each loaded child is younger than its parent, points back to it and sits one level deeper. */
  ghost predicate ChildrenOk(vs: seq<ViewNode>)
  {
    forall id :: 0 <= id < |vs| ==> IdsAbove(vs, Kids(vs, id), id) && KidsPointBack(vs, id)
  }

  ghost predicate KidsPointBack(vs: seq<ViewNode>, id: nat)
    requires id < |vs| && IdsAbove(vs, Kids(vs, id), id)
  {
    forall k :: 0 <= k < |Kids(vs, id)| ==>
      vs[Kids(vs, id)[k]].parent == Some(id) && vs[Kids(vs, id)[k]].level == vs[id].level + 1
  }

  ghost predicate ChildrenDistinct(vs: seq<ViewNode>)
  {
    forall id, j, k :: 0 <= id < |vs| && 0 <= j < k < |Kids(vs, id)| ==> Kids(vs, id)[j] != Kids(vs, id)[k]
  }

  /** The invariant of a tree built from a root by `ViewNode(node)` and `initChildren` calls. */
  ghost predicate WellFormed(vs: seq<ViewNode>)
  {
    RootOk(vs) && ParentsOk(vs) && LeavesLoaded(vs) && ChildrenOk(vs) && ChildrenDistinct(vs)
  }

  ghost predicate IdsAbove(vs: seq<ViewNode>, cs: seq<nat>, p: nat)
  {
    forall k :: 0 <= k < |cs| ==> p < cs[k] < |vs|
  }

  ghost predicate Distinct(s: seq<nat>)
  {
    forall i, j :: 0 <= i < j < |s| ==> s[i] != s[j]
  }

  /**
   * What `addVisibleViewNodesDepthFirst` appends for node `id`: the node itself, then, if it
   * is expanded, the visible nodes of each loaded child in order.
   */
  function VisibleDepthFirst(vs: seq<ViewNode>, id: nat): (l: seq<nat>)
    requires WellFormed(vs) && id < |vs|
    ensures |l| > 0 && l[0] == id
    ensures forall k :: 0 <= k < |l| ==> id <= l[k] < |vs|
    decreases |vs| - id, 1, 0
  {
    [id] + (if vs[id].isExpanded then VisibleForest(vs, Kids(vs, id), id) else [])
  }

  /** The visible nodes of the siblings `cs` (children of `p`), one subtree after another. */
  function VisibleForest(vs: seq<ViewNode>, cs: seq<nat>, p: nat): (f: seq<nat>)
    requires WellFormed(vs) && p < |vs| && IdsAbove(vs, cs, p)
    ensures forall k :: 0 <= k < |f| ==> p < f[k] < |vs|
    decreases |vs| - p, 0, |cs|
  {
    if cs == [] then [] else VisibleDepthFirst(vs, cs[0]) + VisibleForest(vs, cs[1..], p)
  }

  /** The new state after `isExpanded = expanded` on node `id`. */
  function WithExpanded(vs: seq<ViewNode>, id: nat, expanded: bool): (vs': seq<ViewNode>)
    requires id < |vs|
    ensures |vs'| == |vs| && vs'[id].isExpanded == expanded
    ensures forall j :: 0 <= j < |vs| ==> Kids(vs', j) == Kids(vs, j) && vs'[j].parent == vs[j].parent
    ensures forall j :: 0 <= j < |vs| && j != id ==> vs'[j] == vs[j]
    ensures WellFormed(vs) ==> WellFormed(vs')
  {
    ToggleWellFormed(vs, id, expanded);
    vs[id := vs[id].(isExpanded := expanded)]
  }

  /** Only `isExpanded` changes, and `WellFormed` does not mention it. */
  lemma ToggleWellFormed(vs: seq<ViewNode>, id: nat, expanded: bool)
    requires id < |vs|
    ensures var vs' := vs[id := vs[id].(isExpanded := expanded)];
      && (forall j :: 0 <= j < |vs| ==> Kids(vs', j) == Kids(vs, j))
      && (WellFormed(vs) ==> WellFormed(vs'))
  {
    var vs' := vs[id := vs[id].(isExpanded := expanded)];
    assert forall j :: 0 <= j < |vs| ==>
      vs'[j].node == vs[j].node && vs'[j].parent == vs[j].parent && vs'[j].level == vs[j].level
      && vs'[j].children == vs[j].children;
    assert forall j :: 0 <= j < |vs| ==> Kids(vs', j) == Kids(vs, j);
    if WellFormed(vs) {
      assert RootOk(vs');
      assert ParentsOk(vs');
      assert LeavesLoaded(vs');
      assert ChildrenOk(vs') by {
        forall j | 0 <= j < |vs'|
          ensures IdsAbove(vs', Kids(vs', j), j) && KidsPointBack(vs', j)
        {
          assert Kids(vs', j) == Kids(vs, j);
          assert IdsAbove(vs, Kids(vs, j), j) && KidsPointBack(vs, j);
        }
      }
      assert ChildrenDistinct(vs');
    }
  }

  function FreshIds(start: nat, n: nat): (ids: seq<nat>)
  {
    seq(n, k requires 0 <= k < n => start + k)
  }

  /** One new child view node per listed node, in the listing's order. */
  function NewChildren(listing: seq<Node>, parent: nat, level: nat): (kids: seq<ViewNode>)
  {
    seq(|listing|, k requires 0 <= k < |listing| => NewViewNode(listing[k], Some(parent), level))
  }

  /**
   * The new state after `initChildren()` on node `id`, given what `node.listChildren()`
   * returns: only an `Expandable` node whose children are not loaded yet changes; the new
   * children are appended to the arena.
   */
  function Loaded(vs: seq<ViewNode>, id: nat, listing: seq<Node>): (grown: seq<ViewNode>)
    requires id < |vs|
    ensures |vs| <= |grown| && grown[id].node == vs[id].node
    ensures vs[id].node.expandable ==> grown[id].children.Some?
    ensures vs[id].children.Some? ==> grown == vs
  {
    if vs[id].node.expandable && vs[id].children.None? then
      vs[id := vs[id].(children := Some(FreshIds(|vs|, |listing|)))] + NewChildren(listing, id, vs[id].level + 1)
    else
      vs
  }

  // ---------------------------------------------------------------------------------------
  // Loading children

  /** What `Loaded` holds at one index of the grown arena. */
  lemma LoadedAt(vs: seq<ViewNode>, id: nat, listing: seq<Node>, j: nat)
    requires id < |vs| && vs[id].node.expandable && vs[id].children.None?
    requires j < |vs| + |listing|
    ensures |Loaded(vs, id, listing)| == |vs| + |listing|
    ensures j < |vs| && j != id ==> Loaded(vs, id, listing)[j] == vs[j]
    ensures j == id ==> Loaded(vs, id, listing)[j] == vs[id].(children := Some(FreshIds(|vs|, |listing|)))
    ensures |vs| <= j ==> Loaded(vs, id, listing)[j] == NewViewNode(listing[j - |vs|], Some(id), vs[id].level + 1)
  {
  }

  lemma LoadedWellFormed(vs: seq<ViewNode>, id: nat, listing: seq<Node>)
    requires WellFormed(vs) && id < |vs|
    ensures WellFormed(Loaded(vs, id, listing))
  {
    if vs[id].node.expandable && vs[id].children.None? {
      var vs' := Loaded(vs, id, listing);
      var n := |vs|;
      LoadedAt(vs, id, listing, 0);
      assert RootOk(vs') by {
        LoadedAt(vs, id, listing, 0);
      }
      assert ParentsOk(vs') by {
        forall j | 0 < j < |vs'|
          ensures vs'[j].parent.Some? && vs'[j].parent.value < j
        {
          LoadedAt(vs, id, listing, j);
        }
      }
      assert LeavesLoaded(vs') by {
        forall j | 0 <= j < |vs'| && !vs'[j].node.expandable
          ensures vs'[j].children == Some([])
        {
          LoadedAt(vs, id, listing, j);
        }
      }
      assert ChildrenOk(vs') by {
        forall j, k | 0 <= j < |vs'| && 0 <= k < |Kids(vs', j)|
          ensures j < Kids(vs', j)[k] < |vs'| && vs'[Kids(vs', j)[k]].parent == Some(j)
          ensures vs'[Kids(vs', j)[k]].level == vs'[j].level + 1
        {
          LoadedAt(vs, id, listing, j);
          var c := Kids(vs', j)[k];
          if j == id {
            assert c == n + k;
          } else {
            assert c == Kids(vs, j)[k];
          }
          LoadedAt(vs, id, listing, c);
        }
      }
      assert ChildrenDistinct(vs') by {
        forall j, a, b | 0 <= j < |vs'| && 0 <= a < b < |Kids(vs', j)|
          ensures Kids(vs', j)[a] != Kids(vs', j)[b]
        {
          LoadedAt(vs, id, listing, j);
          if j != id {
            assert Kids(vs', j) == Kids(vs, j);
          }
        }
      }
    }
  }

  /** A second `initChildren()` changes nothing, whatever the listing would say by then. */
  lemma LoadedIdempotent(vs: seq<ViewNode>, id: nat, listing: seq<Node>, later: seq<Node>)
    requires id < |vs|
    ensures Loaded(Loaded(vs, id, listing), id, later) == Loaded(vs, id, listing)
  {
  }

  /**
   * After `initChildren()` on an unloaded `Expandable` node: the children are loaded, one
   * per listed node in the listing's order, each pointing back to `id`, one level deeper,
   * collapsed, and itself loaded only if it is not `Expandable`; `hasChildren()` and
   * `firstChild` now reflect whether the listing was empty. Every other node is unchanged.
   */
  lemma LoadedChildren(vs: seq<ViewNode>, id: nat, listing: seq<Node>)
    requires WellFormed(vs) && id < |vs|
    requires vs[id].node.expandable && vs[id].children.None?
    ensures var vs' := Loaded(vs, id, listing);
      && |vs'| == |vs| + |listing|
      && vs'[id].children.Some? && |Kids(vs', id)| == |listing|
      && (forall k :: 0 <= k < |listing| ==>
            var c := Kids(vs', id)[k];
            && vs'[c].node == listing[k] && vs'[c].parent == Some(id)
            && vs'[c].level == vs[id].level + 1 && !vs'[c].isExpanded
            && vs'[c].children == (if listing[k].expandable then None else Some([])))
      && (vs'[id].HasChildren() <==> |listing| > 0)
      && (|listing| > 0 ==> vs'[id].FirstChild().Some? && vs'[vs'[id].FirstChild().value].node == listing[0])
      && (forall j :: 0 <= j < |vs| && j != id ==> vs'[j] == vs[j])
      && vs'[id] == vs[id].(children := vs'[id].children)
  {
    var vs' := Loaded(vs, id, listing);
    forall k | 0 <= k < |listing|
      ensures Kids(vs', id)[k] == |vs| + k && vs'[|vs| + k] == NewViewNode(listing[k], Some(id), vs[id].level + 1)
    {
    }
  }

  /** Before `initChildren()`, an `Expandable` node has no children and no first child. */
  lemma UnloadedHasNoChildren(v: ViewNode)
    requires v.children.None?
    ensures !v.HasChildren() && v.FirstChild() == None
  {
  }

  /**
   * `firstChild` is a loaded child of the node, pointing back to it one level deeper; and
   * only an `Expandable` node can have children.
   */
  lemma FirstChildIsChild(vs: seq<ViewNode>, id: nat)
    requires WellFormed(vs) && id < |vs|
    ensures vs[id].HasChildren() ==> vs[id].node.expandable
    ensures vs[id].FirstChild().Some? ==>
      var c := vs[id].FirstChild().value;
      c == Kids(vs, id)[0] && id < c < |vs| && vs[c].parent == Some(id) && vs[c].level == vs[id].level + 1
  {
    if vs[id].HasChildren() {
      assert Kids(vs, id)[0] == vs[id].FirstChild().value;
    }
  }

  // ---------------------------------------------------------------------------------------
  // Ancestry

  /** `a` is `d` or one of its ancestors, following `parent` links. */
  ghost predicate AncestorOrSelf(vs: seq<ViewNode>, a: nat, d: nat)
    requires WellFormed(vs) && d < |vs|
    decreases d
  {
    d == a || (vs[d].parent.Some? && AncestorOrSelf(vs, a, vs[d].parent.value))
  }

  /** `d` lies strictly below `a`. */
  ghost predicate StrictDescendant(vs: seq<ViewNode>, d: nat, a: nat)
    requires WellFormed(vs) && d < |vs|
  {
    vs[d].parent.Some? && AncestorOrSelf(vs, a, vs[d].parent.value)
  }

  /** Every node on the path from `r` down to `d`, `d` excluded, is expanded. */
  ghost predicate ShownFrom(vs: seq<ViewNode>, r: nat, d: nat)
    requires WellFormed(vs) && d < |vs|
    decreases d
  {
    d == r || (vs[d].parent.Some? && vs[vs[d].parent.value].isExpanded && ShownFrom(vs, r, vs[d].parent.value))
  }

  lemma {:induction false} AncestorBelow(vs: seq<ViewNode>, a: nat, d: nat)
    requires WellFormed(vs) && d < |vs|
    ensures AncestorOrSelf(vs, a, d) ==> a <= d
    decreases d
  {
    if d != a && vs[d].parent.Some? {
      AncestorBelow(vs, a, vs[d].parent.value);
    }
  }

  lemma {:induction false} AncestorsComparable(vs: seq<ViewNode>, a: nat, b: nat, e: nat)
    requires WellFormed(vs) && a < |vs| && b < |vs| && e < |vs|
    ensures AncestorOrSelf(vs, a, e) && AncestorOrSelf(vs, b, e) ==> AncestorOrSelf(vs, a, b) || AncestorOrSelf(vs, b, a)
    decreases e
  {
    if e != a && e != b && vs[e].parent.Some? {
      AncestorsComparable(vs, a, b, vs[e].parent.value);
    }
  }

  lemma {:induction false} ShownIsDescendant(vs: seq<ViewNode>, r: nat, d: nat)
    requires WellFormed(vs) && d < |vs|
    ensures ShownFrom(vs, r, d) ==> AncestorOrSelf(vs, r, d)
    decreases d
  {
    if d != r && vs[d].parent.Some? {
      ShownIsDescendant(vs, r, vs[d].parent.value);
    }
  }

  lemma {:induction false} ShownLift(vs: seq<ViewNode>, c: nat, r: nat, d: nat)
    requires WellFormed(vs) && c < |vs| && r < |vs| && d < |vs|
    requires vs[c].parent == Some(r) && vs[r].isExpanded
    ensures ShownFrom(vs, c, d) ==> ShownFrom(vs, r, d)
    decreases d
  {
    if d == c {
      assert ShownFrom(vs, r, r);
    } else if vs[d].parent.Some? {
      ShownLift(vs, c, r, vs[d].parent.value);
    }
  }

  // ---------------------------------------------------------------------------------------
  // Flattening

  lemma {:induction false} ForestAppend(vs: seq<ViewNode>, cs: seq<nat>, c: nat, p: nat)
    requires WellFormed(vs) && p < c < |vs| && IdsAbove(vs, cs, p)
    ensures IdsAbove(vs, cs + [c], p)
    ensures VisibleForest(vs, cs + [c], p) == VisibleForest(vs, cs, p) + VisibleDepthFirst(vs, c)
    decreases |cs|
  {
    if cs == [] {
      assert [c][1..] == [];
    } else {
      var d := cs + [c];
      assert d[0] == cs[0] && d[1..] == cs[1..] + [c];
      ForestAppend(vs, cs[1..], c, p);
      assert VisibleForest(vs, d, p) == VisibleDepthFirst(vs, cs[0]) + VisibleForest(vs, cs[1..] + [c], p);
      AppendAssoc(VisibleDepthFirst(vs, cs[0]), VisibleForest(vs, cs[1..], p), VisibleDepthFirst(vs, c));
    }
  }

  lemma AppendAssoc(a: seq<nat>, b: seq<nat>, c: seq<nat>)
    ensures (a + b) + c == a + (b + c)
  {
  }

  /** One more child of `p` flattened: the loop step of both flattening methods. */
  lemma ForestPrefixStep(vs: seq<ViewNode>, p: nat, k: nat)
    requires WellFormed(vs) && p < |vs| && k < |Kids(vs, p)|
    ensures VisibleForest(vs, Kids(vs, p)[..k + 1], p)
      == VisibleForest(vs, Kids(vs, p)[..k], p) + VisibleDepthFirst(vs, Kids(vs, p)[k])
  {
    var cs := Kids(vs, p);
    assert cs[..k + 1] == cs[..k] + [cs[k]];
    ForestAppend(vs, cs[..k], cs[k], p);
  }

  lemma {:induction false} ForestMembership(vs: seq<ViewNode>, cs: seq<nat>, p: nat, x: nat)
    requires WellFormed(vs) && p < |vs| && IdsAbove(vs, cs, p)
    ensures x in VisibleForest(vs, cs, p) <==> exists k :: 0 <= k < |cs| && x in VisibleDepthFirst(vs, cs[k])
    decreases |cs|
  {
    if cs != [] {
      ForestMembership(vs, cs[1..], p, x);
      if x in VisibleForest(vs, cs[1..], p) {
        var k :| 0 <= k < |cs[1..]| && x in VisibleDepthFirst(vs, cs[1..][k]);
        assert x in VisibleDepthFirst(vs, cs[k + 1]);
      }
      if exists k :: 0 <= k < |cs| && x in VisibleDepthFirst(vs, cs[k]) {
        var k :| 0 <= k < |cs| && x in VisibleDepthFirst(vs, cs[k]);
        if k > 0 {
          assert cs[k] == cs[1..][k - 1];
        }
      }
    }
  }

  /** Every node in a flattened subtree is reached from its root through expanded nodes. */
  lemma {:induction false} VisibleShown(vs: seq<ViewNode>, r: nat, d: nat)
    requires WellFormed(vs) && r < |vs| && d in VisibleDepthFirst(vs, r)
    ensures d < |vs| && ShownFrom(vs, r, d) && AncestorOrSelf(vs, r, d) && r <= d
    decreases |vs| - r
  {
    if d != r {
      ForestMembership(vs, Kids(vs, r), r, d);
      var k :| 0 <= k < |Kids(vs, r)| && d in VisibleDepthFirst(vs, Kids(vs, r)[k]);
      var c := Kids(vs, r)[k];
      VisibleShown(vs, c, d);
      ShownLift(vs, c, r, d);
    }
    ShownIsDescendant(vs, r, d);
    AncestorBelow(vs, r, d);
  }

  lemma DistinctConcat(a: seq<nat>, b: seq<nat>)
    requires Distinct(a) && Distinct(b) && forall x :: x in a ==> x !in b
    ensures Distinct(a + b)
  {
    forall i, j | 0 <= i < j < |a + b|
      ensures (a + b)[i] != (a + b)[j]
    {
      if i < |a| && j >= |a| {
        assert (a + b)[i] in a && (a + b)[j] in b;
      }
    }
  }

  /** No node appears twice in a flattened subtree. */
  lemma {:induction false} VisibleDistinct(vs: seq<ViewNode>, r: nat)
    requires WellFormed(vs) && r < |vs|
    ensures Distinct(VisibleDepthFirst(vs, r))
    decreases |vs| - r, 1, 0
  {
    if vs[r].isExpanded {
      var cs := Kids(vs, r);
      var f := VisibleForest(vs, cs, r);
      ForestDistinct(vs, cs, r);
      forall x | x in f
        ensures x != r
      {
        ForestMembership(vs, cs, r, x);
        var k :| 0 <= k < |cs| && x in VisibleDepthFirst(vs, cs[k]);
        VisibleShown(vs, cs[k], x);
      }
      DistinctConcat([r], f);
      assert VisibleDepthFirst(vs, r) == [r] + f;
    }
  }

  lemma {:induction false} ForestDistinct(vs: seq<ViewNode>, cs: seq<nat>, p: nat)
    requires WellFormed(vs) && p < |vs| && IdsAbove(vs, cs, p) && Distinct(cs)
    requires forall k :: 0 <= k < |cs| ==> vs[cs[k]].parent == Some(p)
    ensures Distinct(VisibleForest(vs, cs, p))
    decreases |vs| - p, 0, |cs|
  {
    if cs != [] {
      var c := cs[0];
      var rest := cs[1..];
      var v := VisibleDepthFirst(vs, c);
      var f := VisibleForest(vs, rest, p);
      VisibleDistinct(vs, c);
      ForestDistinct(vs, rest, p);
      forall x | x in v
        ensures x !in f
      {
        VisibleShown(vs, c, x);
        forall k | 0 <= k < |rest|
          ensures x !in VisibleDepthFirst(vs, rest[k])
        {
          var c' := rest[k];
          assert c' != c && vs[c'].parent == Some(p);
          AncestorBelow(vs, c, p);
          AncestorBelow(vs, c', p);
          AncestorsComparable(vs, c, c', x);
          assert !AncestorOrSelf(vs, c, c') && !AncestorOrSelf(vs, c', c);
          if x in VisibleDepthFirst(vs, c') {
            VisibleShown(vs, c', x);
          }
        }
        ForestMembership(vs, rest, p, x);
      }
      DistinctConcat(v, f);
    }
  }

  /** A collapsed node hides everything below it from the flattened tree. */
  lemma {:induction false} CollapsedHidesDescendants(vs: seq<ViewNode>, a: nat, d: nat)
    requires WellFormed(vs) && a < |vs| && d < |vs|
    ensures StrictDescendant(vs, d, a) && !vs[a].isExpanded ==> d !in VisibleDepthFirst(vs, 0)
  {
    if d in VisibleDepthFirst(vs, 0) {
      VisibleShown(vs, 0, d);
      ShownThroughAncestors(vs, d, a);
    }
  }

  lemma {:induction false} ShownThroughAncestors(vs: seq<ViewNode>, d: nat, a: nat)
    requires WellFormed(vs) && a < |vs| && d < |vs|
    ensures ShownFrom(vs, 0, d) && StrictDescendant(vs, d, a) ==> vs[a].isExpanded
    decreases d
  {
    if d != 0 && vs[d].parent.Some? {
      var q := vs[d].parent.value;
      if q != a && vs[q].parent.Some? {
        ShownThroughAncestors(vs, q, a);
      }
    }
  }

  /**
   * Wherever an expanded node with loaded children stands in a flattened subtree, its first
   * child comes right after it.
   */
  lemma {:induction false} FirstChildFollows(vs: seq<ViewNode>, r: nat, i: int)
    requires WellFormed(vs) && r < |vs|
    ensures var l := VisibleDepthFirst(vs, r);
      0 <= i < |l| && vs[l[i]].isExpanded && vs[l[i]].HasChildren() ==>
        i + 1 < |l| && l[i + 1] == vs[l[i]].FirstChild().value
    decreases |vs| - r, 1, 0
  {
    var l := VisibleDepthFirst(vs, r);
    if 0 <= i < |l| && vs[r].isExpanded {
      var cs := Kids(vs, r);
      var f := VisibleForest(vs, cs, r);
      assert l == [r] + f;
      if i == 0 {
        if vs[r].HasChildren() {
          var v0 := VisibleDepthFirst(vs, cs[0]);
          assert f == v0 + VisibleForest(vs, cs[1..], r);
          assert l[1] == f[0] == v0[0] == cs[0];
        }
      } else {
        ForestFirstChildFollows(vs, cs, r, i - 1);
        assert l[i] == f[i - 1];
        if i < |f| {
          assert l[i + 1] == f[i];
        }
      }
    }
  }

  lemma {:induction false} ForestFirstChildFollows(vs: seq<ViewNode>, cs: seq<nat>, p: nat, i: int)
    requires WellFormed(vs) && p < |vs| && IdsAbove(vs, cs, p)
    ensures var f := VisibleForest(vs, cs, p);
      0 <= i < |f| && vs[f[i]].isExpanded && vs[f[i]].HasChildren() ==>
        i + 1 < |f| && f[i + 1] == vs[f[i]].FirstChild().value
    decreases |vs| - p, 0, |cs|
  {
    if cs != [] && 0 <= i {
      var v := VisibleDepthFirst(vs, cs[0]);
      var rest := VisibleForest(vs, cs[1..], p);
      if i < |v| {
        FirstChildFollows(vs, cs[0], i);
        VisibleShown(vs, cs[0], v[i]);
      } else {
        ForestFirstChildFollows(vs, cs[1..], p, i - |v|);
      }
    }
  }

  /**
   * `vs'` is `vs` with at most node `s` expanded or collapsed differently: the shape of the
   * tree is the same.
   */
  ghost predicate SameShapeExcept(vs: seq<ViewNode>, vs': seq<ViewNode>, s: nat)
  {
    && |vs'| == |vs| && WellFormed(vs')
    && (forall j :: 0 <= j < |vs| ==> Kids(vs', j) == Kids(vs, j))
    && (forall j :: 0 <= j < |vs| && j != s ==> vs'[j].isExpanded == vs[j].isExpanded)
  }

  /** Expanding or collapsing a node that a subtree does not show leaves that subtree's list alone. */
  lemma {:induction false} ToggleUnaffected(vs: seq<ViewNode>, vs': seq<ViewNode>, s: nat, x: nat)
    requires WellFormed(vs) && SameShapeExcept(vs, vs', s) && x < |vs|
    ensures s !in VisibleDepthFirst(vs, x) ==> VisibleDepthFirst(vs', x) == VisibleDepthFirst(vs, x)
    decreases |vs| - x, 1, 0
  {
    if s !in VisibleDepthFirst(vs, x) && vs[x].isExpanded {
      ForestUnaffected(vs, vs', s, Kids(vs, x), x);
    }
  }

  lemma {:induction false} ForestUnaffected(vs: seq<ViewNode>, vs': seq<ViewNode>, s: nat, cs: seq<nat>, p: nat)
    requires WellFormed(vs) && SameShapeExcept(vs, vs', s) && p < |vs| && IdsAbove(vs, cs, p)
    ensures s !in VisibleForest(vs, cs, p) ==> VisibleForest(vs', cs, p) == VisibleForest(vs, cs, p)
    decreases |vs| - p, 0, |cs|
  {
    if cs != [] && s !in VisibleForest(vs, cs, p) {
      ToggleUnaffected(vs, vs', s, cs[0]);
      ForestUnaffected(vs, vs', s, cs[1..], p);
    }
  }

  lemma ConsPrefix(x: nat, f: seq<nat>, s: nat, i: int)
    requires 0 < i < |[x] + f| && ([x] + f)[i] == s && forall k :: 0 <= k < i ==> ([x] + f)[k] != s
    ensures f[i - 1] == s && forall k :: 0 <= k < i - 1 ==> f[k] != s
  {
    assert forall k :: 0 <= k < i - 1 ==> f[k] == ([x] + f)[k + 1];
  }

  lemma AppendPrefixLeft(v: seq<nat>, rest: seq<nat>, s: nat, i: int)
    requires 0 <= i < |v| && (v + rest)[i] == s && forall k :: 0 <= k < i ==> (v + rest)[k] != s
    ensures v[i] == s && forall k :: 0 <= k < i ==> v[k] != s
  {
    assert forall k :: 0 <= k < i ==> v[k] == (v + rest)[k];
  }

  lemma AppendPrefixRight(v: seq<nat>, rest: seq<nat>, s: nat, i: int)
    requires |v| <= i < |v + rest| && (v + rest)[i] == s && forall k :: 0 <= k < i ==> (v + rest)[k] != s
    ensures s !in v && rest[i - |v|] == s && forall k :: 0 <= k < i - |v| ==> rest[k] != s
  {
    assert forall k :: 0 <= k < |v| ==> v[k] == (v + rest)[k];
    assert forall k :: 0 <= k < i - |v| ==> rest[k] == (v + rest)[k + |v|];
  }

  lemma SamePrefixLeft(v: seq<nat>, rest: seq<nat>, v': seq<nat>, rest': seq<nat>, i: int)
    requires 0 <= i < |v| && i < |v'| && forall k :: 0 <= k <= i ==> v'[k] == v[k]
    ensures i < |v' + rest'| && forall k :: 0 <= k <= i ==> (v' + rest')[k] == (v + rest)[k]
  {
  }

  lemma SamePrefixRight(v: seq<nat>, rest: seq<nat>, rest': seq<nat>, j: int)
    requires 0 <= j < |rest| && j < |rest'| && forall k :: 0 <= k <= j ==> rest'[k] == rest[k]
    ensures |v| + j < |v + rest'| && forall k :: 0 <= k <= |v| + j ==> (v + rest')[k] == (v + rest)[k]
  {
    forall k | 0 <= k <= |v| + j
      ensures (v + rest')[k] == (v + rest)[k]
    {
      if k >= |v| {
        assert (v + rest')[k] == rest'[k - |v|];
      }
    }
  }

  lemma SamePrefixCons(x: nat, f: seq<nat>, f': seq<nat>, j: int)
    requires 0 <= j < |f| && j < |f'| && forall k :: 0 <= k <= j ==> f'[k] == f[k]
    ensures j + 1 < |[x] + f'| && forall k :: 0 <= k <= j + 1 ==> ([x] + f')[k] == ([x] + f)[k]
  {
  }

  /**
   * Expanding or collapsing node `s` changes nothing in the flattened list up to and
   * including `s`'s own position.
   */
  lemma {:induction false} ToggleKeepsPrefix(vs: seq<ViewNode>, vs': seq<ViewNode>, s: nat, x: nat, i: int)
    requires WellFormed(vs) && SameShapeExcept(vs, vs', s) && x < |vs|
    requires var l := VisibleDepthFirst(vs, x);
      0 <= i < |l| && l[i] == s && forall k :: 0 <= k < i ==> l[k] != s
    ensures var l := VisibleDepthFirst(vs, x);
      var l' := VisibleDepthFirst(vs', x);
      i < |l'| && forall k :: 0 <= k <= i ==> l'[k] == l[k]
    decreases |vs| - x, 1, 0
  {
    var l := VisibleDepthFirst(vs, x);
    var l' := VisibleDepthFirst(vs', x);
    if i > 0 {
      assert x == l[0] != s;
      var f := VisibleForest(vs, Kids(vs, x), x);
      var f' := VisibleForest(vs', Kids(vs, x), x);
      assert l == [x] + f;
      assert l' == [x] + f';
      ConsPrefix(x, f, s, i);
      ForestKeepsPrefix(vs, vs', s, Kids(vs, x), x, i - 1);
      SamePrefixCons(x, f, f', i - 1);
    }
  }

  lemma {:induction false} ForestKeepsPrefix(vs: seq<ViewNode>, vs': seq<ViewNode>, s: nat, cs: seq<nat>, p: nat, i: int)
    requires WellFormed(vs) && SameShapeExcept(vs, vs', s) && p < |vs| && IdsAbove(vs, cs, p)
    requires var f := VisibleForest(vs, cs, p);
      0 <= i < |f| && f[i] == s && forall k :: 0 <= k < i ==> f[k] != s
    ensures var f := VisibleForest(vs, cs, p);
      var f' := VisibleForest(vs', cs, p);
      i < |f'| && forall k :: 0 <= k <= i ==> f'[k] == f[k]
    decreases |vs| - p, 0, |cs|
  {
    var v := VisibleDepthFirst(vs, cs[0]);
    var v' := VisibleDepthFirst(vs', cs[0]);
    var rest := VisibleForest(vs, cs[1..], p);
    var rest' := VisibleForest(vs', cs[1..], p);
    assert VisibleForest(vs, cs, p) == v + rest;
    assert VisibleForest(vs', cs, p) == v' + rest';
    if i < |v| {
      AppendPrefixLeft(v, rest, s, i);
      ToggleKeepsPrefix(vs, vs', s, cs[0], i);
      SamePrefixLeft(v, rest, v', rest', i);
    } else {
      AppendPrefixRight(v, rest, s, i);
      ToggleUnaffected(vs, vs', s, cs[0]);
      ForestKeepsPrefix(vs, vs', s, cs[1..], p, i - |v|);
      SamePrefixRight(v, rest, rest', i - |v|);
    }
  }

  /** Expanding or collapsing one node keeps the tree's shape. */
  lemma WithExpandedSameShape(vs: seq<ViewNode>, s: nat, b: bool)
    requires WellFormed(vs) && s < |vs|
    ensures SameShapeExcept(vs, WithExpanded(vs, s, b), s)
  {
  }

  // ---------------------------------------------------------------------------------------
  // The arena as a mutable object

  /** The caller-supplied `MutableList<ViewNode>` that the flattening appends to. */
  class ViewNodeList {
    var items: seq<nat>

    constructor ()
      ensures items == []
    {
      items := [];
    }
  }

  /** All `ViewNode` objects of one tree; `viewNodes[0]` is `ViewNode(root)`. */
  class ViewTree {
    var viewNodes: seq<ViewNode>

    ghost predicate Valid()
      reads this
    {
      WellFormed(viewNodes)
    }

    /** `ViewNode(root)`: level 0, no parent, expanded exactly when the root is `Expandable`. */
    constructor (root: Node)
      ensures Valid()
      ensures viewNodes == [NewViewNode(root, None, 0)]
      ensures viewNodes[0].isExpanded == root.expandable
      ensures viewNodes[0].children == (if root.expandable then None else Some([]))
    {
      viewNodes := [NewViewNode(root, None, 0)];
    }

    /** `hasChildren()` of node `id`. */
    function HasChildren(id: nat): (b: bool)
      requires Valid() && id < |viewNodes|
      reads this
      ensures b ==> viewNodes[id].children.Some? && viewNodes[id].node.expandable
      ensures b <==> viewNodes[id].FirstChild().Some?
    {
      FirstChildIsChild(viewNodes, id);
      viewNodes[id].HasChildren()
    }

    /** `firstChild` of node `id`: a child that points back to `id`, one level deeper. */
    function FirstChild(id: nat): (c: Option<nat>)
      requires Valid() && id < |viewNodes|
      reads this
      ensures c.Some? <==> viewNodes[id].HasChildren()
      ensures c.Some? ==>
        && c.value < |viewNodes| && viewNodes[c.value].parent == Some(id)
        && viewNodes[c.value].level == viewNodes[id].level + 1 && c.value == Kids(viewNodes, id)[0]
    {
      FirstChildIsChild(viewNodes, id);
      viewNodes[id].FirstChild()
    }

    /** `initChildren()` on node `id`; `listing` is what `node.listChildren()` returns. */
    method InitChildren(id: nat, listing: seq<Node>)
      requires Valid() && id < |viewNodes|
      modifies this
      ensures Valid()
      ensures viewNodes == Loaded(old(viewNodes), id, listing)
    {
      LoadedWellFormed(viewNodes, id, listing);
      if viewNodes[id].node.expandable && viewNodes[id].children == None {
        var childNodes := NewChildren(listing, id, viewNodes[id].level + 1);
        var ids := FreshIds(|viewNodes|, |listing|);
        viewNodes := viewNodes[id := viewNodes[id].(children := Some(ids))] + childNodes;
      }
      assert viewNodes == Loaded(old(viewNodes), id, listing);
    }

    /** `isExpanded = expanded` on node `id`. */
    method SetExpanded(id: nat, expanded: bool)
      requires Valid() && id < |viewNodes|
      modifies this
      ensures Valid()
      ensures viewNodes == WithExpanded(old(viewNodes), id, expanded)
    {
      viewNodes := viewNodes[id := viewNodes[id].(isExpanded := expanded)];
      assert viewNodes == WithExpanded(old(viewNodes), id, expanded);
    }

    /**
     * `addVisibleViewNodesDepthFirst(list)` on node `id`: appends the node, then, if it is
     * expanded, each loaded child's visible nodes. It only appends to `list` and changes no
     * node.
     */
    method AddVisibleViewNodesDepthFirst(id: nat, list: ViewNodeList)
      requires Valid() && id < |viewNodes|
      modifies list
      ensures list.items == old(list.items) + VisibleDepthFirst(viewNodes, id)
      decreases |viewNodes| - id
    {
      ghost var before := list.items;
      list.items := list.items + [id];
      if viewNodes[id].isExpanded {
        match viewNodes[id].children
        case None =>
        case Some(cs) =>
          assert cs == Kids(viewNodes, id);
          var k := 0;
          while k < |cs|
            invariant 0 <= k <= |cs|
            invariant list.items == (before + [id]) + VisibleForest(viewNodes, cs[..k], id)
          {
            assert id < cs[k] < |viewNodes|;
            ghost var sofar := VisibleForest(viewNodes, cs[..k], id);
            AddVisibleViewNodesDepthFirst(cs[k], list);
            ForestPrefixStep(viewNodes, id, k);
            AppendAssoc(before + [id], sofar, VisibleDepthFirst(viewNodes, cs[k]));
            k := k + 1;
          }
          assert cs[..k] == cs;
          AppendAssoc(before, [id], VisibleForest(viewNodes, cs, id));
      }
    }

    /**
     * `listExpandedNodesDepthFirst()` on node `id` (the older copy of the class): builds a
     * fresh list the same way and returns it.
     */
    method ListExpandedNodesDepthFirst(id: nat) returns (listOfViewNodes: seq<nat>)
      requires Valid() && id < |viewNodes|
      ensures listOfViewNodes == VisibleDepthFirst(viewNodes, id)
      decreases |viewNodes| - id
    {
      listOfViewNodes := [id];
      if viewNodes[id].isExpanded {
        match viewNodes[id].children
        case None =>
        case Some(cs) =>
          assert cs == Kids(viewNodes, id);
          var k := 0;
          while k < |cs|
            invariant 0 <= k <= |cs|
            invariant listOfViewNodes == [id] + VisibleForest(viewNodes, cs[..k], id)
          {
            assert id < cs[k] < |viewNodes|;
            ghost var sofar := VisibleForest(viewNodes, cs[..k], id);
            var sub := ListExpandedNodesDepthFirst(cs[k]);
            listOfViewNodes := listOfViewNodes + sub;
            ForestPrefixStep(viewNodes, id, k);
            AppendAssoc([id], sofar, sub);
            k := k + 1;
          }
          assert cs[..k] == cs;
      }
    }
  }

  /**
   * The two flattenings agree: what `addVisibleViewNodesDepthFirst` appends to an empty list
   * is what `listExpandedNodesDepthFirst` returns.
   */
  method FlatteningsAgree(tree: ViewTree, id: nat) returns (appended: seq<nat>, listed: seq<nat>)
    requires tree.Valid() && id < |tree.viewNodes|
    ensures appended == listed
    ensures Distinct(listed) && |listed| > 0 && listed[0] == id
  {
    var list := new ViewNodeList();
    tree.AddVisibleViewNodesDepthFirst(id, list);
    appended := list.items;
    listed := tree.ListExpandedNodesDepthFirst(id);
    VisibleDistinct(tree.viewNodes, id);
  }
}
