/**
 * The decisions one row of the directory pane makes: loading its node's children when it is
 * shown, which icon it shows, and what clicking that icon or double-clicking the row does.
 */
module DirectoryTreeItems {
  import opened Options
  import opened Nodes
  import opened ViewNodes
  import opened ContentTypes

  /** The material icon drawn for a content-readable file. */
  datatype FileImage = ImageFile | DescriptionFile | MovieFile | DriveFile

  /**
   * What `NodeIcon` draws: the clickable arrows for a node with children, a file icon with
   * its content description and optional ARGB tint, or an empty spacer.
   */
  datatype RowIcon =
    | CollapseIcon
    | ExpandIcon
    | FileIcon(image: FileImage, contentDescription: string, tint: Option<nat>)
    | NoIcon

  const ImageTint: nat := 0xFFb4d986
  const TextTint: nat := 0xFF7BC7E0
  const VideoTint: nat := 0xFFF5855D
  const ApplicationTint: nat := 0xFFddb6f0

  /** The icon of a childless content-readable node, chosen by the top-level content type. */
  function FileIconFor(contentType: string): (icon: RowIcon)
    ensures icon.FileIcon? && icon.contentDescription == contentType + " file icon"
    ensures icon.image == ImageFile <==> TopLevelType(contentType) == "image"
    ensures icon.image == DescriptionFile <==> TopLevelType(contentType) == "text"
    ensures icon.image == MovieFile <==> TopLevelType(contentType) == "video"
    ensures icon.image == DriveFile <==> TopLevelType(contentType) !in {"image", "text", "video"}
    ensures TopLevelType(contentType) == "image" ==> icon.tint == Some(ImageTint)
    ensures TopLevelType(contentType) == "text" ==> icon.tint == Some(TextTint)
    ensures TopLevelType(contentType) == "video" ==> icon.tint == Some(VideoTint)
    ensures TopLevelType(contentType) == "application" ==> icon.tint == Some(ApplicationTint)
    ensures icon.tint.None? <==> TopLevelType(contentType) !in {"image", "text", "video", "application"}
  {
    var contentDescription := contentType + " file icon";
    match TopLevelType(contentType)
    case "image" => FileIcon(ImageFile, contentDescription, Some(ImageTint))
    case "text" => FileIcon(DescriptionFile, contentDescription, Some(TextTint))
    case "video" => FileIcon(MovieFile, contentDescription, Some(VideoTint))
    case "application" => FileIcon(DriveFile, contentDescription, Some(ApplicationTint))
    case _ => FileIcon(DriveFile, contentDescription, None)
  }

  /** `NodeIcon(viewNode)`. */
  function NodeIcon(v: ViewNode): (icon: RowIcon)
    ensures icon == CollapseIcon <==> v.HasChildren() && v.isExpanded
    ensures icon == ExpandIcon <==> v.HasChildren() && !v.isExpanded
    ensures icon.FileIcon? <==> !v.HasChildren() && v.node.contentType.Some?
    ensures icon.FileIcon? ==> icon == FileIconFor(v.node.contentType.value)
    ensures icon == NoIcon <==> !v.HasChildren() && v.node.contentType.None?
  {
    if v.HasChildren() then
      if v.isExpanded then CollapseIcon else ExpandIcon
    else if v.node.contentType.Some? then
      FileIconFor(v.node.contentType.value)
    else
      NoIcon
  }

  /** The file icon depends on nothing but the part of the content type before the first '/'. */
  lemma FileIconByTopLevelType(a: string, b: string)
    requires TopLevelType(a) == TopLevelType(b)
    ensures FileIconFor(a).image == FileIconFor(b).image && FileIconFor(a).tint == FileIconFor(b).tint
  {
  }

  /** Every "image/..." type is drawn with the green image icon. */
  lemma ImageFileIcon(subtype: string)
    ensures FileIconFor("image/" + subtype) == FileIcon(ImageFile, "image/" + subtype + " file icon", Some(ImageTint))
  {
    assert "image/" + subtype == "image" + "/" + subtype;
    TopLevelTypeOfSubtype("image", subtype);
  }

  /** Every "text/..." type is drawn with the blue description icon. */
  lemma TextFileIcon(subtype: string)
    ensures FileIconFor("text/" + subtype) == FileIcon(DescriptionFile, "text/" + subtype + " file icon", Some(TextTint))
  {
    assert "text/" + subtype == "text" + "/" + subtype;
    TopLevelTypeOfSubtype("text", subtype);
  }

  /** Every "video/..." type is drawn with the orange movie icon. */
  lemma VideoFileIcon(subtype: string)
    ensures FileIconFor("video/" + subtype) == FileIcon(MovieFile, "video/" + subtype + " file icon", Some(VideoTint))
  {
    assert "video/" + subtype == "video" + "/" + subtype;
    TopLevelTypeOfSubtype("video", subtype);
  }

  /** Every "application/..." type is drawn with the violet drive-file icon. */
  lemma ApplicationFileIcon(subtype: string)
    ensures FileIconFor("application/" + subtype)
      == FileIcon(DriveFile, "application/" + subtype + " file icon", Some(ApplicationTint))
  {
    assert "application/" + subtype == "application" + "/" + subtype;
    TopLevelTypeOfSubtype("application", subtype);
  }

  /** An unrecognised top-level type such as "audio" gets the untinted drive-file icon. */
  lemma DefaultFileIcon(subtype: string)
    ensures FileIconFor("audio/" + subtype) == FileIcon(DriveFile, "audio/" + subtype + " file icon", None)
  {
    assert "audio/" + subtype == "audio" + "/" + subtype;
    TopLevelTypeOfSubtype("audio", subtype);
  }

  /** A node that is not `Expandable` never shows an expand or collapse icon. */
  lemma LeafShowsNoArrow(vs: seq<ViewNode>, id: nat)
    requires WellFormed(vs) && id < |vs| && !vs[id].node.expandable
    ensures NodeIcon(vs[id]) != CollapseIcon && NodeIcon(vs[id]) != ExpandIcon
  {
  }

  /**
   * Once a shown row has loaded its children, it shows an arrow exactly when the listing was
   * not empty: "Collapse" if the node is expanded, "Expand" if not.
   */
  lemma ArrowAfterLoading(vs: seq<ViewNode>, id: nat, listing: seq<Node>)
    requires WellFormed(vs) && id < |vs| && vs[id].node.expandable && vs[id].children.None?
    ensures var icon := NodeIcon(Loaded(vs, id, listing)[id]);
      && (icon == CollapseIcon || icon == ExpandIcon <==> |listing| > 0)
      && (icon == CollapseIcon <==> |listing| > 0 && vs[id].isExpanded)
  {
    LoadedChildren(vs, id, listing);
  }

  /** Clicking the arrow flips it: the other arrow is shown afterwards. */
  lemma ArrowClickFlipsArrow(v: ViewNode)
    ensures NodeIcon(v) == CollapseIcon ==> NodeIcon(v.(isExpanded := false)) == ExpandIcon
    ensures NodeIcon(v) == ExpandIcon ==> NodeIcon(v.(isExpanded := true)) == CollapseIcon
  {
  }

  /**
   * A click on the row's icon: the "Collapse" arrow sets `isExpanded = false`, the "Expand"
   * arrow sets `isExpanded = true`, and the other icons take no clicks.
   */
  method ClickIcon(tree: ViewTree, id: nat)
    requires tree.Valid() && id < |tree.viewNodes|
    modifies tree
    ensures tree.Valid()
    ensures old(NodeIcon(tree.viewNodes[id])) == CollapseIcon ==> tree.viewNodes == WithExpanded(old(tree.viewNodes), id, false)
    ensures old(NodeIcon(tree.viewNodes[id])) == ExpandIcon ==> tree.viewNodes == WithExpanded(old(tree.viewNodes), id, true)
    ensures old(NodeIcon(tree.viewNodes[id])) != CollapseIcon && old(NodeIcon(tree.viewNodes[id])) != ExpandIcon
      ==> tree.viewNodes == old(tree.viewNodes)
  {
    var icon := NodeIcon(tree.viewNodes[id]);
    if icon == CollapseIcon {
      tree.SetExpanded(id, false);
    } else if icon == ExpandIcon {
      tree.SetExpanded(id, true);
    }
  }

  /** What a double-click on a row does with its node. */
  datatype DoubleClickEffect = ToggleExpanded | OpenNode | NoEffect

  function DoubleClickAction(node: Node): (e: DoubleClickEffect)
    ensures e == ToggleExpanded <==> node.expandable
    ensures e == OpenNode <==> !node.expandable && node.openable
  {
    if node.expandable then ToggleExpanded else if node.openable then OpenNode else NoEffect
  }

  /**
   * The row's `onDoubleClick`: an `Expandable` node flips `isExpanded`; otherwise an
   * `Openable` node is opened (the result says whether `open()` is called) and nothing in
   * the tree changes.
   */
  method OnDoubleClick(tree: ViewTree, id: nat) returns (openCalled: bool)
    requires tree.Valid() && id < |tree.viewNodes|
    modifies tree
    ensures tree.Valid()
    ensures openCalled <==> DoubleClickAction(old(tree.viewNodes[id].node)) == OpenNode
    ensures DoubleClickAction(old(tree.viewNodes[id].node)) == ToggleExpanded
      ==> tree.viewNodes == WithExpanded(old(tree.viewNodes), id, !old(tree.viewNodes[id].isExpanded))
    ensures DoubleClickAction(old(tree.viewNodes[id].node)) != ToggleExpanded ==> tree.viewNodes == old(tree.viewNodes)
  {
    openCalled := false;
    var viewNode := tree.viewNodes[id];
    if viewNode.node.expandable {
      tree.SetExpanded(id, !viewNode.isExpanded);
    } else if viewNode.node.openable {
      openCalled := true;
    }
  }

  /** Two double-clicks on an `Expandable` row leave the tree as it was. */
  lemma DoubleClickTwiceRestores(vs: seq<ViewNode>, id: nat)
    requires id < |vs|
    ensures var once := WithExpanded(vs, id, !vs[id].isExpanded);
      WithExpanded(once, id, !once[id].isExpanded) == vs
  {
    var once := WithExpanded(vs, id, !vs[id].isExpanded);
    assert WithExpanded(once, id, !once[id].isExpanded)[id] == vs[id];
  }

  /**
   * Showing a row: its `LaunchedEffect` runs `initChildren()` (modelled as a synchronous
   * call, `listing` standing for what `listChildren()` returns), then the icon is drawn.
   */
  method ShowRow(tree: ViewTree, id: nat, listing: seq<Node>) returns (icon: RowIcon)
    requires tree.Valid() && id < |tree.viewNodes|
    modifies tree
    ensures tree.Valid()
    ensures tree.viewNodes == Loaded(old(tree.viewNodes), id, listing)
    ensures icon == NodeIcon(tree.viewNodes[id])
  {
    tree.InitChildren(id, listing);
    icon := NodeIcon(tree.viewNodes[id]);
  }
}
