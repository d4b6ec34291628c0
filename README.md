# navigator: the directory tree, its key and click handling, and the preview pane

This project models the non-UI core of the navigator desktop application: a two-pane file
browser with an expandable directory tree on the left and a content preview on the right.
The model proves properties of each part.

- **View nodes** (`ViewNodes`, `view_node.dfy`). Every Kotlin `ViewNode` object is one
  record in an arena, a `seq<ViewNode>` held by the class `ViewTree`, addressed by index.
  The root is index 0. A node's `parent` and `children` are indices into the same arena.
  - `children == None` is the "not loaded yet" state of the Kotlin nullable list.
  - `initChildren` appends the new child records to the arena.
  - The well-formedness invariant `WellFormed` is preserved by every state change. It says:
    the root has no parent; every other node has a parent created before it; a node that is
    not `Expandable` has an empty loaded list; a loaded child points back to its parent, one
    level deeper; and no child is listed twice.
  - `VisibleDepthFirst` specifies the flattening. Both Kotlin flattenings are proved
    against it: `addVisibleViewNodesDepthFirst`, which appends to a caller's list, and the
    older copy's `listExpandedNodesDepthFirst`, which returns a fresh list.
- **Keyboard handlers** (`DirectoryTrees`, `directory_tree.dfy`). Escape, Up, Down, Left
  and Right are pure specification functions on the arena plus the selection. The methods
  of `DirectoryTreeState` assign the selection and `isExpanded` in place, and are proved
  equal to those functions. As in the code, Down without a selection selects row 0,
  because `indexOf` answers -1 (`DownFromNothingSelectsFirst`). Left selects the parent
  and collapses it, not the selected node itself.
- **Click classification** (`DoubleClicks`, `double_click.dfy`). A click is classified as
  single or double from the recorded time of the previous click. `DoubleClickDetector`
  keeps that recorded time.
- **Listing a directory** (`Nodes`, `node.dfy`). This is `FileSystemNode.listChildren`:
  - an in-place sort of the listed array, directories first and then by name, names compared
    by their UTF-16 code units as `String.compareTo` compares them;
  - the map of the sorted entries to nodes;
  - the two empty-list fallbacks: a file that is not a directory, and a directory that
    cannot be listed.
- **Row decisions** (`DirectoryTreeItems`, `tree_item.dfy`):
  - loading children when a row is shown;
  - which icon the row draws;
  - what clicking the arrow, or double-clicking the row, does.
- **Preview dispatch** (`Previews`, `preview.dfy`). The pane's content for the selected
  node, with the SVG-versus-bitmap choice for images.
- **Top-level type** (`ContentTypes`, `content_type.dfy`). The `contentType.split("/")[0]`
  used by both the icon and the preview.

Node capabilities are flags on the `Node` record:
- `Expandable` is `expandable`;
- `ContentReadable` is a content type that is `Some`;
- `Openable` is `openable`.

The file system is an input. `listChildren()` is the `listing` parameter of
`initChildren`. `File.listFiles()` is the `listFiles` parameter of `ListChildren`, and
`None` there stands for a `null` answer. The clock is the `now` parameter of a click. The
preview's content stream is the `contents` parameter of `Preview`.

## Model

| member | source | states |
|---|---|---|
| `Nodes.FileSystemNode.Label` | src/main/kotlin/model/Node.kt:9 | a file node's label is the file's name |
| `Nodes.CodeUnits` | src/main/kotlin/model/Node.kt:14 | a character below U+10000 is one code unit, itself. Any other is two: a high surrogate then a low surrogate. |
| `Nodes.Utf16Injective` | src/main/kotlin/model/Node.kt:14 | two names with the same UTF-16 encoding are the same name, so comparing encodings orders the names themselves |
| `Nodes.NameLeTotal` | src/main/kotlin/model/Node.kt:14 | `String.compareTo` orders any two names one way or the other |
| `Nodes.NameLeAntisymmetric` | src/main/kotlin/model/Node.kt:14 | two names that compare as equal by `String.compareTo` are the same name |
| `Nodes.NameLeTransitive` | src/main/kotlin/model/Node.kt:14 | the name order is transitive |
| `Nodes.SupplementaryBeforeHighBmp` | src/main/kotlin/model/Node.kt:14 | a character above U+FFFF sorts before one in U+E000..U+FFFF, as UTF-16 code units order them, and not the other way round |
| `Nodes.Utf16` | src/main/kotlin/model/Node.kt:14 | a name's UTF-16 encoding, character by character: it has at least one and at most two code units per character |
| `Nodes.UnitsLe` | src/main/kotlin/model/Node.kt:14 | the order on code units that `String.compareTo` applies, computed one unit at a time |
| `Nodes.UnitsLeLexicographic` | src/main/kotlin/model/Node.kt:14 | `UnitsLe` holds iff one of two things is true. Either the first sequence is a prefix of the second. Or, at the first index where the two differ, the first sequence's unit is the smaller. This is the lexicographic order `compareTo` documents. |
| `Nodes.NameLe` | src/main/kotlin/model/Node.kt:14 | `String.compareTo(a, b) <= 0`: `UnitsLe` of the names' UTF-16 encodings |
| `Nodes.Precedes` | src/main/kotlin/model/Node.kt:14 | the comparator `compareBy({ !it.isDirectory }, { it.name })`: a directory comes before a file and a file never before a directory. Two entries of the same kind are ordered by `NameLe` of their names. |
| `Nodes.PrecedesTotal` | src/main/kotlin/model/Node.kt:14 | any two listed entries are ordered one way or the other by the directories-first, then by-name comparator |
| `Nodes.PrecedesTransitive` | src/main/kotlin/model/Node.kt:14 | the comparator is transitive |
| `Nodes.PrecedesAntisymmetric` | src/main/kotlin/model/Node.kt:14 | two entries that precede each other are the same entry |
| `Nodes.SortWith` | src/main/kotlin/model/Node.kt:14 | `sortWith` leaves the array sorted by the comparator, and the result is a permutation of the original entries (multiset equality) |
| `Nodes.InsertAt` | src/main/kotlin/model/Node.kt:14 | one step of the in-place sort: with `a[..i]` sorted, moving `a[i]` down leaves `a[..i+1]` sorted and the array a permutation of itself |
| `Nodes.ListChildren` | src/main/kotlin/model/Node.kt:10-21 | a file that is not a directory, or an unlistable directory, yields no children. Otherwise the children's files are the listing, sorted and permuted. Every directory child comes before every file child, and within each group labels ascend in `String.compareTo` order, that is, by UTF-16 code units. |
| `Nodes.SortedListingUnique` | src/main/kotlin/model/Node.kt:14 | any two sortings of the same entries by this comparator are equal, so the child order is fully determined by the listing |
| `Nodes.MixedListingOrder` | src/main/kotlin/model/Node.kt:14 | the listing dirB, fileA, dirA, fileB comes out as dirA, dirB, fileA, fileB |
| `ContentTypes.TopLevelType` | src/main/kotlin/DirectoryTreeItem.kt:115 | the result is a prefix of the content type with no '/' in it, and it is followed by '/' whenever it is shorter than the content type |
| `ContentTypes.TopLevelTypeUnique` | src/main/kotlin/DirectoryTreeItem.kt:115 | any string with those three properties is the result: it is exactly the part before the first '/' |
| `ContentTypes.TopLevelTypeOfSubtype` | src/main/kotlin/Preview.kt:32 | for a top-level type without '/', the top-level type of `top + "/" + subtype` is `top`, whatever the subtype |
| `ViewNodes.NewViewNode` | src/main/kotlin/ViewNode.kt:14-24 | a new view node keeps its node, parent and level. It is expanded iff its node is `Expandable` and its level is 0. Its children are unloaded iff its node is `Expandable`, and it has no children and no first child. |
| `ViewNodes.ViewNode.HasChildren` | src/main/kotlin/ViewNode.kt:26-28 | `hasChildren()`: the children are loaded and there is at least one |
| `ViewNodes.ViewNode.FirstChild` | src/main/kotlin/ViewNode.kt:30 | `firstChild` is present iff `hasChildren()`, and it is then the first loaded child |
| `ViewNodes.Kids` | src/main/kotlin/ViewNode.kt:53 | `children ?: emptyList()`: the loaded children, an unloaded list counting as none |
| `ViewNodes.Loaded` | src/main/kotlin/ViewNode.kt:32-43 | `initChildren()`: the arena only grows and the node keeps its `Node`. An `Expandable` node ends up with loaded children, and a node whose children are already loaded changes nothing. `LoadedAt` and `LoadedChildren` state the new records index by index. |
| `ViewNodes.VisibleDepthFirst` | src/main/kotlin/ViewNode.kt:49-57 | a node's flattening is non-empty, starts with the node, and lists only nodes with larger-or-equal ids in the tree |
| `ViewNodes.VisibleForest` | src/main/kotlin/ViewNode.kt:53-55 | flattening the children of `p` lists only ids greater than `p` that are in the tree |
| `ViewNodes.WithExpanded` | src/main/kotlin/ViewNode.kt:20 | after `isExpanded = b` on one node, that node's flag is `b`. No node's children or parent change, no other node changes, and the tree stays well formed. |
| `ViewNodes.LoadedWellFormed` | src/main/kotlin/ViewNode.kt:32-43 | `initChildren` keeps the tree well formed |
| `ViewNodes.LoadedIdempotent` | src/main/kotlin/ViewNode.kt:33 | a second `initChildren` changes nothing, whatever the listing says by then |
| `ViewNodes.LoadedChildren` | src/main/kotlin/ViewNode.kt:32-43 | after `initChildren` on an unloaded `Expandable` node, it has exactly one loaded child per listed node, in the listing's order. Each child points back to it, one level deeper, collapsed, and unloaded iff `Expandable`. `hasChildren()` holds iff the listing was not empty, and `firstChild` wraps the first listed node. No other node changes. |
| `ViewNodes.UnloadedHasNoChildren` | src/main/kotlin/ViewNode.kt:26-30 | before loading, `hasChildren()` is false and `firstChild` is null |
| `ViewNodes.FirstChildIsChild` | src/main/kotlin/ViewNode.kt:30 | `firstChild` is the first loaded child, a later node that points back one level deeper. Only an `Expandable` node has children. |
| `ViewNodes.ForestMembership` | src/main/kotlin/ViewNode.kt:53-55 | a node is in the children's flattening iff it is in one child's flattening |
| `ViewNodes.VisibleShown` | src/main/kotlin/ViewNode.kt:49-57 | every node in a flattening descends from its start through expanded nodes only |
| `ViewNodes.VisibleDistinct` | src/main/kotlin/ViewNode.kt:49-57 | no node appears twice in a flattening |
| `ViewNodes.CollapsedHidesDescendants` | src/main/kotlin/ViewNode.kt:52 | no strict descendant of a collapsed node is listed from the root |
| `ViewNodes.ShownThroughAncestors` | src/main/kotlin/ViewNode.kt:52 | a node reached from the root through expanded nodes has every strict ancestor expanded |
| `ViewNodes.FirstChildFollows` | src/main/kotlin/ViewNode.kt:49-57 | in a flattening, an expanded node with children is immediately followed by its first child |
| `ViewNodes.ToggleUnaffected` | src/main/kotlin/ViewNode.kt:49-57 | toggling a node that a subtree's flattening does not list leaves that flattening unchanged |
| `ViewNodes.ToggleKeepsPrefix` | src/main/kotlin/ViewNode.kt:49-57 | toggling a listed node changes nothing in the flattening up to and including that node's position |
| `ViewNodes.ViewTree.constructor` | src/main/kotlin/ViewNode.kt:14-24 | `ViewNode(root)` is a one-node well-formed tree, expanded iff the root is `Expandable`, and unloaded iff it is `Expandable` |
| `ViewNodes.ViewTree.HasChildren` | src/main/kotlin/ViewNode.kt:26-28 | `hasChildren()` holds iff there is a first child, and only for a loaded `Expandable` node |
| `ViewNodes.ViewTree.FirstChild` | src/main/kotlin/ViewNode.kt:30 | `firstChild` is present iff `hasChildren()`, and is the first loaded child, pointing back one level deeper |
| `ViewNodes.ViewTree.InitChildren` | src/main/kotlin/ViewNode.kt:32-43 | the new arena is `Loaded` of the old one, so the properties of `LoadedChildren` and `LoadedIdempotent` apply, and the tree stays well formed |
| `ViewNodes.ViewTree.SetExpanded` | src/main/kotlin/ViewNode.kt:20 | the new arena is `WithExpanded` of the old one, and the tree stays well formed |
| `ViewNodes.ViewTree.AddVisibleViewNodesDepthFirst` | src/main/kotlin/ViewNode.kt:49-57 | the call appends the node's visible depth-first list to the caller's list. It leaves the existing prefix unchanged and modifies only the list, so no node changes. |
| `ViewNodes.ViewTree.ListExpandedNodesDepthFirst` | src/main/kotlin/DirectoryTree.kt:153-161 | returns exactly the node's visible depth-first list |
| `ViewNodes.FlatteningsAgree` | src/main/kotlin/DirectoryTree.kt:153-161 | what `addVisibleViewNodesDepthFirst` appends to an empty list equals what `listExpandedNodesDepthFirst` returns. That list starts with the node and has no repetitions. |
| `DirectoryTrees.IndexOf` | src/main/kotlin/DirectoryTree.kt:70 | `indexOf` is -1 iff nothing is selected or the selection is not listed. Otherwise it is the first position holding the selection. |
| `DirectoryTrees.IndexOfDistinct` | src/main/kotlin/DirectoryTree.kt:70 | in a list without repetitions, `indexOf` of the element at position `i` is `i` |
| `DirectoryTrees.Listing` | src/main/kotlin/DirectoryTree.kt:50 | the rows the pane shows: the root is row 0, every row is a node of the tree, and no node is listed twice |
| `DirectoryTrees.Escape` | src/main/kotlin/DirectoryTree.kt:68 | Escape clears the selection and changes no node |
| `DirectoryTrees.Up` | src/main/kotlin/DirectoryTree.kt:69-74 | Up changes no node and keeps a valid selection |
| `DirectoryTrees.Down` | src/main/kotlin/DirectoryTree.kt:75-80 | Down changes no node and keeps a valid selection |
| `DirectoryTrees.Left` | src/main/kotlin/DirectoryTree.kt:81-86 | Left keeps the tree well formed and the selection valid |
| `DirectoryTrees.Right` | src/main/kotlin/DirectoryTree.kt:87-93 | Right keeps the tree well formed and the selection valid |
| `DirectoryTrees.UpMovesToPrevious` | src/main/kotlin/DirectoryTree.kt:69-74 | with the node at row `i > 0` selected, Up selects row `i - 1` and changes nothing else |
| `DirectoryTrees.UpStays` | src/main/kotlin/DirectoryTree.kt:69-74 | with no selection, an unlisted selection, or the top row selected, Up does nothing |
| `DirectoryTrees.DownMovesToNext` | src/main/kotlin/DirectoryTree.kt:75-80 | with row `i` below the last selected, Down selects row `i + 1` and changes nothing else |
| `DirectoryTrees.DownStaysAtBottom` | src/main/kotlin/DirectoryTree.kt:75-80 | with the last row selected, Down does nothing |
| `DirectoryTrees.DownFromNothingSelectsFirst` | src/main/kotlin/DirectoryTree.kt:75-80 | with no selection or an unlisted one, Down selects the first row, the root |
| `DirectoryTrees.DownThenUp` | src/main/kotlin/DirectoryTree.kt:69-80 | Up undoes Down on every row but the last |
| `DirectoryTrees.UpThenDown` | src/main/kotlin/DirectoryTree.kt:69-80 | Down undoes Up on every row but the first |
| `DirectoryTrees.LeftHidesSubtree` | src/main/kotlin/DirectoryTree.kt:81-86 | Left on a node with a parent selects the parent and collapses it. No strict descendant of the parent is listed afterwards, the previously selected node included. |
| `DirectoryTrees.LeftOnRootStays` | src/main/kotlin/DirectoryTree.kt:81-86 | with no selection or the root selected, Left does nothing |
| `DirectoryTrees.RightRevealsFirstChild` | src/main/kotlin/DirectoryTree.kt:87-93 | Right on the node at row `i` with a first child expands that node and selects the child. The node stays at row `i`, and the child is listed at row `i + 1`. Nothing else changes: the new arena is `WithExpanded` of the old one, with that node set to expanded. |
| `DirectoryTrees.RightThenUp` | src/main/kotlin/DirectoryTree.kt:87-93 | after Right, Up selects the node that Right started from |
| `DirectoryTrees.RightWithoutChildrenStays` | src/main/kotlin/DirectoryTree.kt:87-93 | with no selection, or a selected node without loaded children, Right does nothing |
| `DirectoryTrees.RightThenLeft` | src/main/kotlin/DirectoryTree.kt:81-93 | on a collapsed node with children, Left after Right restores the original tree and selection |
| `DirectoryTrees.DirectoryTreeState.constructor` | src/main/kotlin/DirectoryTree.kt:33-37 | the pane starts with the given tree and selection |
| `DirectoryTrees.DirectoryTreeState.OnSelect` | src/main/kotlin/DirectoryTree.kt:102-105 | clicking a row selects its node and changes no node |
| `DirectoryTrees.DirectoryTreeState.OnEscape` | src/main/kotlin/DirectoryTree.kt:68 | the new state is `Escape` of the old one |
| `DirectoryTrees.DirectoryTreeState.OnUp` | src/main/kotlin/DirectoryTree.kt:69-74 | the new state is `Up` of the old one, computed from the list `listExpandedNodesDepthFirst` returns |
| `DirectoryTrees.DirectoryTreeState.OnDown` | src/main/kotlin/DirectoryTree.kt:75-80 | the new state is `Down` of the old one |
| `DirectoryTrees.DirectoryTreeState.OnLeft` | src/main/kotlin/DirectoryTree.kt:81-86 | the new state is `Left` of the old one |
| `DirectoryTrees.DirectoryTreeState.OnRight` | src/main/kotlin/DirectoryTree.kt:87-93 | the new state is `Right` of the old one |
| `DoubleClicks.InDoubleTapWindow` | src/main/kotlin/SequentiallyDoubleClickable.kt:32 | `millisSinceLastClick in doubleTapMinTimeMillis until doubleTapTimeoutMillis`: the lower bound included, the upper bound excluded |
| `DoubleClicks.Classify` | src/main/kotlin/SequentiallyDoubleClickable.kt:29-41 | a click is a double click iff a click is recorded and the time since it lies in the half-open window `[min, timeout)`. A double click clears the recorded time; a single click records `now`. |
| `DoubleClicks.ClassifyRun` | src/main/kotlin/SequentiallyDoubleClickable.kt:28-42 | every click of a run fires exactly one callback |
| `DoubleClicks.FirstClickIsSingle` | src/main/kotlin/SequentiallyDoubleClickable.kt:29-40 | with nothing recorded, a click is single and records its time |
| `DoubleClicks.TwoClicks` | src/main/kotlin/SequentiallyDoubleClickable.kt:29-40 | from a fresh state the first click is single. The second is double iff it comes at least `min` and less than `timeout` after the first. |
| `DoubleClicks.TooEarlyRestartsWindow` | src/main/kotlin/SequentiallyDoubleClickable.kt:32-40 | a click earlier than `min` after the recorded one is single and re-records the time |
| `DoubleClicks.TooLateRestartsWindow` | src/main/kotlin/SequentiallyDoubleClickable.kt:32-40 | a click at or after `timeout` is single and re-records the time |
| `DoubleClicks.NoTwoDoubleClicksInARow` | src/main/kotlin/SequentiallyDoubleClickable.kt:35-37 | in any run of clicks, however fast, a double click is always followed by a single click |
| `DoubleClicks.DoubleClickDetector.constructor` | src/main/kotlin/SequentiallyDoubleClickable.kt:24-26 | nothing is recorded before the first click |
| `DoubleClicks.DoubleClickDetector.Click` | src/main/kotlin/SequentiallyDoubleClickable.kt:28-42 | the callback fired and the newly recorded time are what `Classify` gives for the old recorded time |
| `DirectoryTreeItems.FileIconFor` | src/main/kotlin/DirectoryTreeItem.kt:113-121 | the icon's description is the content type followed by " file icon". The image icon is chosen iff the top-level type is "image", the description icon iff "text", and the movie icon iff "video"; any other type gets the drive-file icon. The tint is the image, text, video or application tint for those four top-level types, and there is no tint iff the top-level type is none of them. |
| `DirectoryTreeItems.NodeIcon` | src/main/kotlin/DirectoryTreeItem.kt:91-124 | the row shows the collapse arrow iff the node has children and is expanded, and the expand arrow iff it has children and is collapsed. It shows a file icon iff it has no children and is `ContentReadable`, and that icon is the one `FileIconFor` chooses from the node's content type. It shows the empty spacer otherwise. |
| `DirectoryTreeItems.FileIconByTopLevelType` | src/main/kotlin/DirectoryTreeItem.kt:115 | two content types with the same top-level type get the same image and tint |
| `DirectoryTreeItems.ImageFileIcon` | src/main/kotlin/DirectoryTreeItem.kt:116 | every "image/..." type gets the image icon tinted 0xFFb4d986 |
| `DirectoryTreeItems.TextFileIcon` | src/main/kotlin/DirectoryTreeItem.kt:117 | every "text/..." type gets the description icon tinted 0xFF7BC7E0 |
| `DirectoryTreeItems.VideoFileIcon` | src/main/kotlin/DirectoryTreeItem.kt:118 | every "video/..." type gets the movie icon tinted 0xFFF5855D |
| `DirectoryTreeItems.ApplicationFileIcon` | src/main/kotlin/DirectoryTreeItem.kt:119 | every "application/..." type gets the drive-file icon tinted 0xFFddb6f0 |
| `DirectoryTreeItems.DefaultFileIcon` | src/main/kotlin/DirectoryTreeItem.kt:120 | an unrecognised top-level type such as "audio/..." gets the untinted drive-file icon |
| `DirectoryTreeItems.LeafShowsNoArrow` | src/main/kotlin/DirectoryTreeItem.kt:93 | a node that is not `Expandable` never shows an arrow |
| `DirectoryTreeItems.ArrowAfterLoading` | src/main/kotlin/DirectoryTreeItem.kt:30-34 | once a shown unloaded `Expandable` node has loaded, it shows an arrow iff its listing was not empty. The arrow is the collapse arrow iff the node is also expanded. |
| `DirectoryTreeItems.ArrowClickFlipsArrow` | src/main/kotlin/DirectoryTreeItem.kt:94-111 | after the collapse arrow's assignment the expand arrow is shown, and the other way round |
| `DirectoryTreeItems.ClickIcon` | src/main/kotlin/DirectoryTreeItem.kt:94-111 | a click on the collapse arrow sets `isExpanded = false`, and on the expand arrow sets it to true. Any other icon changes nothing. |
| `DirectoryTreeItems.DoubleClickAction` | src/main/kotlin/DirectoryTreeItem.kt:66-72 | a double click toggles iff the node is `Expandable`, and opens iff it is not `Expandable` but `Openable` |
| `DirectoryTreeItems.OnDoubleClick` | src/main/kotlin/DirectoryTreeItem.kt:66-72 | an `Expandable` node flips `isExpanded`; otherwise nothing in the tree changes. `open()` is called iff the node is not `Expandable` but `Openable`. |
| `DirectoryTreeItems.DoubleClickTwiceRestores` | src/main/kotlin/DirectoryTreeItem.kt:67-68 | two toggling double clicks leave the tree as it was |
| `DirectoryTreeItems.ShowRow` | src/main/kotlin/DirectoryTreeItem.kt:30-34 | showing a row runs `initChildren` on its node, so the new arena is `Loaded` of the old one. The icon then drawn is `NodeIcon` of the updated node. |
| `Previews.ImageDecodingFor` | src/main/kotlin/Preview.kt:74-78 | SVG decoding is chosen iff the content type is exactly "image/svg+xml" |
| `Previews.Preview` | src/main/kotlin/Preview.kt:29-43 | no node gives "Select a file to see a preview". A text preview is shown iff the node is readable with top-level type "text", and it shows the whole content. An image preview is shown iff the top-level type is "image", decoded per `ImageDecodingFor`. Every other node gives "No preview available for this file type". |
| `Previews.PreviewKindByTopLevelType` | src/main/kotlin/Preview.kt:32 | two readable nodes with the same top-level type get the same kind of preview, and the same message if either gets a message |
| `Previews.NothingSelected` | src/main/kotlin/Preview.kt:40-41 | no node gives the selection message and opens no content stream |
| `Previews.NotReadableNoPreview` | src/main/kotlin/Preview.kt:37-38 | a node that is not `ContentReadable` gives the "no preview" message and opens no content stream |
| `Previews.TextShowsContent` | src/main/kotlin/Preview.kt:33 | a "text/..." node shows its whole content |
| `Previews.SvgImagePreview` | src/main/kotlin/Preview.kt:74-75 | an "image/svg+xml" node is decoded as SVG |
| `Previews.BitmapImagePreview` | src/main/kotlin/Preview.kt:76-78 | any other "image/..." node is decoded as a bitmap |
| `Previews.VideoNoPreview` | src/main/kotlin/Preview.kt:35 | a "video/..." node gives the "no preview" message and opens no content stream |

## Left out

- Compose UI: `LazyColumn`, focus handling, borders, scrollbar, surface colours, tooltips, the label `Text`, the level-indenting `Spacer` width, `Crossfade` and `AnimatedVisibility`. They draw the decisions modelled above and decide nothing themselves.
- Background work: the `LaunchedEffect` and `Dispatchers.IO` around `initChildren`, and the `produceState` reads of the preview. `initChildren` is modelled as a synchronous call, so races between a load and a key press are not modelled. Nor is the duplicate first load. `initChildren` tests `children == null` and assigns `children` only after listing the directory, on `Dispatchers.IO` (src/main/kotlin/ViewNode.kt:33-35). So two `LaunchedEffect`s can both see `null`, and the later assignment then replaces the first set of child view nodes, together with their `isExpanded` flags. `LoadedIdempotent` covers only calls made one after the other.
- File-system and library calls are inputs: `File.listFiles`, `isDirectory`, `readText`, `Image.makeFromEncoded` and `loadSvgResource`. The model says which decoder is chosen, not what it produces.
- The `derivedStateOf` cache over the flattened list (src/main/kotlin/DirectoryTree.kt:50). The key handlers recompute the list from the root, which is the value the cache holds.
- `Nodes.SortWith` is an insertion sort where the JVM's `sortWith` is a TimSort. The comparator is a total order (`SortedListingUnique`), so both give the same array.
- `DoubleClicks.DoubleClickDetector.Click` reads the clock once, as `now`. The source reads it twice, at src/main/kotlin/SequentiallyDoubleClickable.kt:31 and 39. The window times are unbounded integers, so `Long` wrap-around is not modelled.
- `ViewNodes.WellFormed` does not state that a node's parent lists it among its children. That holds for trees built by `initChildren`, but stating it made every proof about the tree much more expensive. What the model uses is that children point back to their parent.
- `Openable.open()` is represented only by the `openCalled` result of `OnDoubleClick`; what opening does is not part of this model.
- The row composable `NodeEntry` (src/main/kotlin/DirectoryTree.kt:167-230) is not modelled. `DirectoryTree` draws its rows with it (src/main/kotlin/DirectoryTree.kt:98). It loads children and draws the arrows as `DirectoryTreeItem` does. Its double click, however, toggles `isExpanded` without testing `Expandable` and never opens a node. It draws a spacer instead of a file icon. The model follows `DirectoryTreeItem.kt`.
- The `Navigator` window, the about dialog, the text field, the theme and `main` are not part of this model.
- The "Could not read file for preview" message is not modelled, since `Preview.kt` has no branch that shows it.
- A selection left over from a previous root's tree is not modelled: `DirectoryTrees.ValidNav` and the `DirectoryTreeState` constructor require the selection to be a node of the current tree. In the program the selection state at src/main/kotlin/Navigator.kt:14-15 can outlive a change of `rootPath`. Down then selects the new root, because `indexOf` answers -1, and Left or Right act on the abandoned tree (src/main/kotlin/DirectoryTree.kt:81-93).
