# A verified model of the diagram editor's core

The editor draws hierarchy diagrams for slides: a forest of labelled boxes ("nodes")
laid out as a vertical or horizontal tree, or on a ring (circular, elliptical, cycle),
with connectors, label groups and optional zones. This project models and proves
three parts of it in Dafny:

- **The layout engine** (`src/engine.js`). It covers:
  - box sizes from the text's line count;
  - post-order subtree sizes;
  - per-depth level offsets;
  - centred span placement of children and roots;
  - the pre-order listing with ancestor paths;
  - connector routing in three styles;
  - the single-ring radial placement and the cycle's ring connectors;
  - label groups in `Object.keys` order, and zones.
- **The indented-text importer** (`src/utils/textParser.js`). It turns an outline,
  one node per line, into a forest, using a stack of open ancestors.
- **The editor's document state** (`src/App.jsx`). The class `App.Editor` holds the
  forest, the bounded undo history and its index. The edits are:
  - update, add child, add root and delete subtree, each on a copy of the forest;
  - undo and redo;
  - the parent-picker listing.

Trees are values of `Trees.Tree<T>`. Their pre-order views give one common reference
for the engine's traversals, the importer and the edits:
- `ValsF`: the node values in pre-order;
- `Parents`: the pre-order index of each node's parent;
- `SizeF`: the node count.

The source's loops and its recursive walks that write onto the nodes are methods, among
them calculateSubtreeSizes (`Sizing.MeasureTree`, with the children's `reduce` as the loop
of `Sizing.MeasureKids`). Each method is proved to compute a reference function, and the
properties the source promises are proved about those functions. The source's
expression-level array filters and reduces are modelled by functions:
- the id filter of the radial listing (engine.js:214) by `Radial.WithIds`;
- the zone members filter (engine.js:347) by `Overlays.Descendants`;
- the children's total in assignCoordinates (engine.js:77) by `Sizing.ChildrenTotal`;
- the roots' total (engine.js:286) by `Placement.RootsTotal`.

Files:
- `wrappers.dfy`: `Option`;
- `trees.dfy`: trees and their pre-order views;
- `text.dfy`: trim, split and replace;
- `diagram.dfy`: the node record `Info`;
- `engine_*.dfy`: the layout engine;
- `object_keys.dfy`: `Object.keys` order;
- `text_parser.dfy`: the importer;
- `history.dfy`: the undo timeline;
- `tree_edits.dfy`: the forest edits;
- `editor.dfy`: the editor class.

## Model

| member | source | states |
|---|---|---|
| EngineConfig.Gap | src/engine.js:41-42 | the sibling gap is the configured spacing when defined, else 60 when vertical and 100 otherwise |
| EngineConfig.LevelStep | src/engine.js:272 | the level step is the configured one unless absent or zero, in which case it is 300; never zero |
| Sizing.LineCount | src/engine.js:21 | the line count is one more than the number of break markers in the text |
| Sizing.NodeHeight | src/engine.js:23 | the height is at least 120, exactly 120 for one or two lines, and 72 + 32 per break marker beyond that |
| Sizing.NodeDimensions | src/engine.js:20-25 | width is always 280 and height is max(120, 40 + 32 * lineCount) |
| Sizing.MeasureSpec | src/engine.js:31-54 | the measured node keeps its record and its box; its subtree size is at least its own extent, equals it for a leaf, covers the children's total span for an inner node, and is one of the two |
| Sizing.MeasureTree | src/engine.js:31-54 | the recursive walk returns exactly the measured tree that MeasureSpec characterises |
| Sizing.MeasureKids | src/engine.js:45-49 | the children's reduce measures every child in order and totals their spans exactly as ChildrenTotal, which ChildrenTotalClosed gives as the sizes plus (k - 1) gaps |
| Sizing.MeasureForest | src/engine.js:206 | measuring the roots one by one yields exactly MeasureF of the forest |
| Sizing.ChildrenTotalClosed | src/engine.js:45-49 | the children's reduce adds up to the sum of their sizes plus one gap between each pair of neighbours |
| Sizing.SubtreeCoversChildren | src/engine.js:52 | an inner node's subtree size covers its children's sizes plus (k - 1) gaps |
| Sizing.MeasureFShape | src/engine.js:206 | measuring keeps the forest's shape |
| Sizing.MeasureInfos | src/engine.js:206 | measuring keeps every node's record, in the same pre-order |
| Sizing.MeasureFMeasured | src/engine.js:31-54 | every node of a measured forest has width 280, height at least 120, and a subtree size covering both its own extent and its children's span |
| Levels.Visit | src/engine.js:275-281 | one visit raises levels[d + 1] to at least the node's trailing edge plus 100, at least (d + 1) level steps and at least its old value, to one of these three, and changes no other entry |
| Levels.CollectOffsets | src/engine.js:274-283 | the recursive closure computes the pre-order reference `CollectTree` |
| Levels.CollectAll | src/engine.js:271-284 | the roots' loop from [0] computes `CollectForest` |
| Levels.CollectGrows | src/engine.js:281 | every write is a maximum: offsets never decrease and depth 0 keeps its offset |
| Levels.CollectFloored | src/engine.js:279-281 | the floor of k level steps at depth k holds before and after every visit |
| Levels.CollectVisitBounds | src/engine.js:274-283 | every node of the tree leaves its per-visit bounds in the final offsets |
| Levels.ForestLevelBounds | src/engine.js:271-284 | for the whole forest depth 0 stays at 0, and a depth-d node leaves levels[d + 1] at least (d + 1) steps and at least its depth's floor plus its extent plus 100 |
| Placement.Corner | src/engine.js:63-72 | the box is centred in its span (equal room on both sides) before the nudges; its depth coordinate is margin + levels[depth] + nudge |
| Placement.AssignCoordinates | src/engine.js:59-85 | the recursive loop, with its running child offset, computes the reference placement `Place` |
| Placement.PlaceChildren | src/engine.js:74-84 | the children loop, from the centred first start, computes the reference children placement `PlaceKids` |
| Placement.PlaceChild | src/engine.js:80-83 | one turn places child i at the running offset and moves it past the child's span and a gap, keeping the loop's agreement with `PlaceKids` |
| Placement.ChildStartStep | src/engine.js:82 | each child's span starts exactly one gap after the previous one ends |
| Placement.ChildrenEnd | src/engine.js:77-83 | the last child's span ends at the first start plus the children's total span |
| Placement.ChildEndMono | src/engine.js:80-83 | with non-negative sizes and gap, later spans never end before earlier ones |
| Placement.PlaceKidsAt | src/engine.js:80-83 | the i-th child is placed on the i-th span of the row |
| Placement.NodeInSpan | src/engine.js:63-72 | a measured node's box lies inside its span with equal room on both sides, at the depth offset, nudges added to its corner only |
| Placement.KidSpans | src/engine.js:74-84 | children get consecutive spans `gap` apart, the block is centred in the parent's span, and each child span lies inside it |
| Placement.NudgesNotInherited | src/engine.js:71-81 | a node's offsetX/offsetY do not move its children |
| Placement.RootsCentred | src/engine.js:286-294 | the roots are a row of spans `gap` apart whose first start and last end are equally far from the canvas middle |
| Placement.RootsTotalClosed | src/engine.js:286 | the roots' total is the sizes plus (n - 1) gaps, as for children |
| Placement.PlaceKidsVals | src/engine.js:59-85 | placement keeps the shape and every record and gives every node a corner |
| Flatten.FlattenTree | src/engine.js:183-192 | the listing of a tree has one entry per node |
| Flatten.FlattenNodes | src/engine.js:183-192 | the recursive push computes the reference listing `FlattenTree` |
| Flatten.FlattenPreorder | src/engine.js:183-192 | listed node k carries the k-th pre-order node's record, box and corner |
| Flatten.FlattenDepths | src/engine.js:185 | a listed node's path length is its depth plus one (plus the initial path) |
| Flatten.FlattenPathEnds | src/engine.js:185-186 | each path extends the initial path and ends with the node's own id |
| Flatten.FlattenPaths | src/engine.js:185-189 | a root's path is its id; any other node's path is its parent's path, listed earlier, with its own id appended |
| Connectors.GenTree | src/engine.js:115-178 | a tree yields one connector per non-root node |
| Connectors.GenerateConnectors | src/engine.js:118-177 | the recursive push computes `GenTree` |
| Connectors.ConnectorsArePreorderEdges | src/engine.js:118-177 | the connectors are exactly the parent-child edges in child pre-order, from the parent's id to the child's |
| Connectors.OrthogonalVertical | src/engine.js:132-166 | the vertical orthogonal route runs from bottom centre to top centre through the gap's middle, in axis-aligned segments |
| Connectors.OrthogonalHorizontal | src/engine.js:137-169 | the horizontal orthogonal route runs from right middle to left middle through the gap's middle, in axis-aligned segments |
| Connectors.RadialStraight | src/engine.js:126-144 | in radial layouts every non-curved style is one centre-to-centre segment |
| Connectors.CurvedVertical | src/engine.js:155-157 | the curved vertical route is one cubic whose control points sit halfway down, above each end |
| Radial.RadiusX | src/engine.js:218-230 | rX is at least the preset (450, or 650 elliptical) and, with nodes, at least n * 340 / (2 pi) |
| Radial.RadiusY | src/engine.js:219-231 | rY is at least the preset (450, or 350 elliptical) and, with nodes, at least the minimum radius (times 0.6 elliptical) |
| Radial.RingRoom | src/engine.js:224-230 | the ring's circumference leaves 340 per node |
| Radial.UniformAngles | src/engine.js:233-236 | neighbours on the ring are one step apart and n steps make a full turn |
| Radial.PlaceRing | src/engine.js:235-241 | node i gets the corner of ring position i |
| Radial.RingCentres | src/engine.js:235-241 | each box's centre, without its nudges, lies on the ellipse around the canvas centre at angle start + i * 2 pi / n |
| Radial.WithIdsSpec | src/engine.js:214 | the filter keeps exactly the listed nodes with a non-empty id |
| Radial.WithIdsFrom | src/engine.js:214 | kept nodes are listed nodes; when every node has an id nothing is dropped |
| Radial.RankFinds | src/engine.js:214 | a listed node with an id sits in the filtered list at its rank |
| Radial.AnnotateVals | src/engine.js:237-240 | the ring positions land on the forest's nodes by pre-order index, the shape and records unchanged |
| Radial.CycleConnectors | src/engine.js:248-261 | connector i goes from node i to node (i + 1) mod n |
| Radial.NextPrev | src/engine.js:250 | the successor map is a bijection on the ring |
| Radial.CycleCloses | src/engine.js:248-261 | every ring node starts one connector and ends one; the last returns to the first; one node gets a self-loop |
| Overlays.ExtentOf | src/engine.js:317-320 | the extent exists exactly when every member is placed |
| Overlays.ExtentBounds | src/engine.js:317-320 | the extent holds every member's box and each side touches one |
| Overlays.PaddedFrame | src/engine.js:317-327 | the padded rectangle leaves `pad` of room around every member and exactly `pad` on each side for some member |
| Overlays.EnterDomain | src/engine.js:300-302 | a labelling node adds its label's entry and key, in `Object.keys` order |
| Overlays.EnterEntries | src/engine.js:302-308 | a visit adds its holders to the label's members and keeps an existing colour |
| Overlays.HoldersOf | src/engine.js:305-309 | the inner scan collects exactly the listed nodes whose path holds the id |
| Overlays.MembersOf | src/engine.js:314 | a set's members in listing order |
| Overlays.VisitLabeller | src/engine.js:299-311 | one step of the first pass |
| Overlays.GatherAll | src/engine.js:298-311 | the first pass computes `Gather` |
| Overlays.EmitKey | src/engine.js:314-330 | a key with no members gives no group, otherwise its padded group |
| Overlays.EmitAll | src/engine.js:313-331 | the second pass emits the keys' groups in order |
| Overlays.GroupByLabel | src/engine.js:297-331 | the grouping computes `LabelGroups` |
| Overlays.GatherDomain | src/engine.js:300-302 | there is an entry exactly for each trimmed non-empty label some node gives |
| Overlays.GatherOrder | src/engine.js:313 | the keys are the labels given; non-index labels come in order of first labelling node |
| Overlays.GatherMembers | src/engine.js:304-309 | a group's members are exactly the listed nodes whose path holds the id of a node labelling it |
| Overlays.GatherColor | src/engine.js:302 | a group's colour is its first labelling node's groupColor, or #CBD5E1 |
| Overlays.EmitAt | src/engine.js:313-331 | with non-empty buckets, group k is the group of key k |
| Overlays.LabelGroupsPerKey | src/engine.js:313-331 | one group per key, in key order, named after the label with its bucket's colour |
| Overlays.MembersFramed | src/engine.js:317-320 | the padded rectangle frames every member |
| Overlays.MembersTouch | src/engine.js:317-320 | each side of the padded rectangle is exactly `pad` from some member |
| Overlays.LabelGroupFrame | src/engine.js:297-331 | label group i is the 25-padded box around exactly the nodes holding a labeller's id |
| Overlays.DescendantsSpec | src/engine.js:347 | the filter keeps exactly the listed nodes whose path holds the id |
| Overlays.CollectLevel1 | src/engine.js:336-341 | the level-1 nodes are the roots' children, root by root |
| Overlays.Zones | src/engine.js:345-376 | one zone per level-1 node, in order |
| Overlays.AppendZone | src/engine.js:345-375 | one turn of the zone loop appends the zone of level-1 node idx and keeps every earlier zone |
| Overlays.ZoneFor | src/engine.js:346-374 | a zone is the 40-padded box of the level-1 node and its descendants, captioned and coloured by its override or its defaults |
| Overlays.ZoneFrame | src/engine.js:347-355 | a zone's rectangle frames its level-1 node and every node whose path holds its id, with 40 of room, tight on each side |
| Overlays.ZoneColours | src/engine.js:343-362 | without an override, zone idx takes palette colour idx mod 6; neighbours differ |
| Overlays.ZoneCaptions | src/engine.js:359-363 | without an override the caption is exactly the text's first line plus " Zone", or "Zone" for no text; a non-empty override wins |
| Overlays.SubtreeCarriesId | src/engine.js:183-192 | every node listed from a subtree carries the subtree root's id on its path |
| ObjectKeys.InsertIndexMembers | src/engine.js:302-313 | inserting an index key adds exactly that key |
| ObjectKeys.InsertIndexNamed | src/engine.js:302-313 | inserting an index key leaves the other keys as they were |
| ObjectKeys.InsertKeyProps | src/engine.js:302-313 | adding a key keeps the keys distinct and in `Object.keys` order (indices ascending first, others in insertion order) |
| Layout.ListAll | src/engine.js:289-294 | the roots' listings one after the other |
| Layout.ConnectAll | src/engine.js:264-266 | the roots' connectors one after the other |
| Layout.LinearLayout | src/engine.js:268-295 | the linear branch places, lists and connects each root in turn, computing the reference functions |
| Layout.PlaceRoot | src/engine.js:289-294 | one turn of the roots' loop places root i at the running offset and keeps the listing and connectors equal to those of the roots placed so far |
| Layout.LayoutHierarchy | src/engine.js:194-380 | the entry point computes the reference drawing `Draw` |
| Layout.LinearListing | src/engine.js:289-294 | vertical and horizontal layouts list every node exactly once, in pre-order |
| Layout.RingListing | src/engine.js:214-244 | radial layouts keep exactly the nodes with an id, in pre-order, each at its rank; all of them when every node has an id |
| Layout.LayoutPlaced | src/engine.js:183-294 | every listed node has a corner and its own id at the end of its path |
| Layout.PositionedShape | src/engine.js:206-290 | the placed forest keeps the input forest's shape and parent links |
| Layout.LayoutConnectors | src/engine.js:262-292 | outside the cycle, the connectors are the input forest's parent-child edges in pre-order |
| Layout.LayoutCycle | src/engine.js:246-261 | the cycle draws one connector per ring node, to the next, the last back to the first |
| Layout.LayoutLabelGroups | src/engine.js:297-377 | the groups are the label groups then, with zones on, one zone per level-1 node; every label group frames exactly its nodes |
| Layout.LayoutZones | src/engine.js:333-377 | zone i belongs to level-1 node i; it is placed in linear layouts, or when it has an id in radial ones, and then frames its subtree |
| Text.LeadingSpaces | src/utils/textParser.js:22 | the length of the longest all-space prefix |
| Text.LeadingTabs | src/utils/textParser.js:18 | the length of the longest all-tab prefix |
| Text.TrimSpec | src/utils/textParser.js:9-26 | trimming yields "" exactly for all-space text, and otherwise the middle of the text with no space at either end |
| Text.SplitCount | src/engine.js:21 | splitting on the marker gives one more piece than there are markers |
| Text.SplitJoin | src/engine.js:21 | joining the pieces with the marker gives the text back |
| Text.FirstLine | src/engine.js:359 | the first line is the longest marker-free prefix: it ends at the first break marker, or is the whole text when there is none |
| Text.Split | src/utils/textParser.js:9 | no piece holds the separator |
| Text.SplitJoinChar | src/utils/textParser.js:9 | joining the pieces with the separator gives the text back |
| Text.ReplaceBreakRemovesBreaks | src/App.jsx:435 | replacing the marker by a space leaves no marker |
| TextParser.NonBlankSpec | src/utils/textParser.js:9 | exactly the lines that are not blank once trimmed are kept |
| TextParser.NonBlankAppend | src/utils/textParser.js:9 | the kept lines stay in order |
| TextParser.ParentOfSpec | src/utils/textParser.js:36-77 | the reference parent is the nearest earlier line with a smaller level; a line with none, and any level-0 line, is a root |
| TextParser.PoppedZero | src/utils/textParser.js:37-47 | a level-0 line empties the stack |
| TextParser.PoppedKeeps | src/utils/textParser.js:51-53 | popping keeps exactly the entries of a smaller level, still increasing |
| TextParser.VisibleStacked | src/utils/textParser.js:47-76 | the stack's lines and levels strictly increase |
| TextParser.VisibleHolds | src/utils/textParser.js:46-76 | a line is on the stack exactly when every later line so far has a greater level |
| TextParser.PoppedTop | src/utils/textParser.js:51-56 | after popping, the stack top is the line's reference parent; an empty stack means a root |
| TextParser.AddAtVals | src/utils/textParser.js:66 | adding a leaf under the rightmost path appends it to the pre-order |
| TextParser.AddAtParents | src/utils/textParser.js:56-66 | the added leaf's parent is the chosen rightmost-path node; no other parent changes |
| TextParser.AddAtSpine | src/utils/textParser.js:66-67 | adding cuts the rightmost path below the parent and extends it with the new leaf |
| TextParser.AppendRoot | src/utils/textParser.js:43-76 | a new root appends to the pre-order as a parentless node and becomes the whole rightmost path |
| TextParser.RootStep | src/utils/textParser.js:37-77 | a root line keeps the importer's invariant |
| TextParser.AttachStep | src/utils/textParser.js:55-67 | an attached line keeps the importer's invariant |
| TextParser.PopAbove | src/utils/textParser.js:51-53 | the pop loop computes `Popped` |
| TextParser.ImportLine | src/utils/textParser.js:17-77 | one line's turn of the loop keeps the importer's invariant: the forest and stack built from the first k lines become those of the first k + 1 |
| TextParser.ParseIndentedText | src/utils/textParser.js:8-82 | one node per non-blank line, in pre-order in line order, each with its reference parent; empty exactly for blank input |
| TextParser.LineNode | src/utils/textParser.js:17-77 | line i's node has its id and trimmed text; it is a root in root colours exactly when no earlier line has a smaller level, else it hangs under the nearest such line, in level-1 or deeper colours |
| History.PushSpec | src/App.jsx:148-158 | recording keeps 0 <= index < size <= 30, makes the snapshot current, does nothing for the current snapshot, and otherwise drops the redo tail and (when full) the oldest snapshot |
| History.PushIdempotent | src/App.jsx:150 | recording the same snapshot twice is recording it once |
| History.PushThenUndo | src/App.jsx:148-166 | undo right after recording brings back the previous current snapshot |
| History.UndoRedoSpec | src/App.jsx:160-174 | undo and redo keep the snapshots and the bounds and move only when they can |
| History.UndoRedoInverse | src/App.jsx:160-174 | a redo undoes an undo that moved, and vice versa |
| TreeEdits.FirstMatchSpec | src/App.jsx:269-279 | the first match in pre-order has the id and no earlier node has it |
| TreeEdits.ReplacedSpec | src/App.jsx:266-284 | an update succeeds exactly when some node has the id, and then merges the fields into the first such node in pre-order only, keeping the shape |
| TreeEdits.FindAndReplace | src/App.jsx:269-279 | the search loop computes `Replaced` and leaves the forest as it was when nothing matches |
| TreeEdits.AddedSpec | src/App.jsx:377-397 | adding succeeds exactly when some node has the parent id; the forest gains one node, inserted in pre-order as the last child of the first such node |
| TreeEdits.FindAndAdd | src/App.jsx:381-392 | the search loop computes `Added` |
| TreeEdits.IndexOfId | src/App.jsx:412 | `findIndex`: the first root with the id, or -1 when there is none |
| TreeEdits.DeletedSpec | src/App.jsx:407-426 | deleting succeeds exactly when some node has the id; it then cuts out the whole subtree of the node at the search's pre-order position, whose id it is: the listing loses exactly that subtree's block, and every other node keeps its parent, the positions after the block moved down by the block's size |
| TreeEdits.DeletePosOrder | src/App.jsx:410-420 | the node removed is the first root with the id when a root has it; otherwise it lies in the first tree whose descendants hold the id, at the position the same search finds among that tree's children |
| TreeEdits.FindAndDelete | src/App.jsx:410-421 | the search computes `Deleted`: roots at a level first, then each tree's children in order |
| TreeEdits.SafeTextSpec | src/App.jsx:435 | the picker's text holds no break marker |
| TreeEdits.PrunedSpec | src/App.jsx:428-443 | the pruned forest lists, in pre-order, exactly the nodes that neither have the excluded id nor have an ancestor with it (the hiding mask being built from the parent indices); it holds no node with that id, is the forest itself when none has it, and is an order-preserving sub-listing |
| TreeEdits.PrunedAppend | src/App.jsx:433 | pruning goes tree by tree |
| TreeEdits.Traverse | src/App.jsx:431-441 | the traversal lists the picker entries of the pruned forest in pre-order |
| TreeEdits.TraverseTree | src/App.jsx:433-439 | one tree's turn lists its pruned subtree's picker entries after those of the earlier trees, and nothing when its root has the excluded id |
| App.NewNode | src/App.jsx:380 | the new child has the given id, the default colour and size 20 |
| App.NewRoot | src/App.jsx:401 | the new root has the given id, the root colour, size 24 and bold weight |
| App.Editor.constructor | src/App.jsx:54-74 | the forest shown is the saved forest when there is one and the initial forest otherwise, while the history always starts as the one initial snapshot at index 0 |
| App.Editor.PushToHistory | src/App.jsx:148-158 | the history becomes `Push` of the old one; the snapshot is current; a new one follows the old current snapshot, with nothing to redo |
| App.Editor.Undo | src/App.jsx:160-166 | the index follows `History.Undo` and a moved index shows its snapshot |
| App.Editor.Redo | src/App.jsx:168-174 | the index follows `History.Redo` and a moved index shows its snapshot |
| App.Editor.UpdateNode | src/App.jsx:266-284 | without a match nothing changes; otherwise the forest becomes `Replaced` and is recorded |
| App.Editor.AddNode | src/App.jsx:377-397 | without a matching parent nothing changes; otherwise the forest becomes `Added` with the new node and is recorded |
| App.Editor.AddRoot | src/App.jsx:399-405 | a childless root is appended, so the pre-order gains it at the end, and the result is recorded |
| App.Editor.DeleteNode | src/App.jsx:407-426 | without a match nothing changes; otherwise the forest becomes `Deleted` and is recorded |
| App.Editor.PotentialParents | src/App.jsx:428-443 | the picker lists every node outside the excluded subtree in pre-order; none has the excluded id, and all nodes are listed when none does |

## Left out

- React rendering, the canvas UI, keyboard shortcuts, drag, pan and zoom are not modelled. These are presentation and screen-coordinate arithmetic.
- Storage and export are not modelled: localStorage, SVG/PNG export, the PowerPoint exporter and the backup manager. These are I/O. The forest read from localStorage at start-up is the `saved` parameter of `App.Editor.constructor`.
- Fresh node ids are parameters, because they come from the clock and a random number: `ids` in the importer, `newId` in `AddNode` and `AddRoot`.
- Trigonometry and pi are parameters with no properties beyond pi > 0. Angles, radii and centres are stated symbolically, and no trig is evaluated.
- Connector paths are lists of path commands, not formatted strings.
- The engine writes w, h, subtreeSize, x, y and path onto the caller's node objects. Here each stage returns fresh annotated values. Aliasing between the listing, the connectors and the caller's nodes is therefore not modelled.
- Edits are modelled on forest values, not as in-place mutation of a deep copy. The old forest value is never changed by construction.
- Absent JSON fields are modelled by their falsy value: "" for strings and 0 for offsets. One reader differs: a zone's id is `zone-` followed by the node's id (src/engine.js:366), which for a node without an id is "zone-undefined" in the source and "zone-" in the model. An input that is not an array cannot be expressed. The editor's `Array.isArray` guards reject one. `layoutHierarchy` wraps one as a one-tree forest (src/engine.js:198), and the model covers one-tree forests.
- A radial node without an id is not placed: the radial branch writes x and y only on the nodes that have an id (src/engine.js:214-241). The source then leaves that node's x and y as they were. On fresh data they are undefined, and the NaN shows up only in the path strings of its connectors and in the rectangle of a zone that holds it. After an earlier layout they are a stale position, because the editor lays out its own state objects and every edit's deep copy carries their x and y. The model gives such a node no position (`None`): its connectors get an empty path and a group holding it gets no rectangle. The stale-position case is not modelled.
- `assignCircularCoordinates` is not modelled, because nothing calls it.
- A group label that is also an `Object.prototype` member name is not modelled; the groups are a Dafny map. For example, "constructor" is already truthy in the source's groups object, so the source would fail when it adds members.
- Levels.ForestLevelBounds: states the bounds each visit leaves, not that the final levels never overlap. A later, taller root can still raise a shallower level after a deeper one was set.
- TreeEdits.AddedSpec: states where the new node lands in pre-order and that its parent is the matched node. It does not state that every other node keeps its parent.
- App.Editor.UpdateNode: a patch can set only the ten fields of `Info`. A `children` field in the patch, which `Object.assign` would copy too, is not modelled.
- History.PushSpec: snapshots are compared as values. The editor compares their JSON texts. Those texts can differ for forests that are equal here, in two ways. Fields may be written in a different order. And the layout writes x, y, w, h, subtreeSize and path onto the editor's own state objects (src/engine.js:33-34, 64-72, 186, called from src/App.jsx:135), so those fields end up in the snapshots too. In either case the editor records a snapshot that the model does not.
- App.Editor.PushToHistory: React applies the state setters after the handler returns. Each edit here updates the forest and the history in sequence, as one step.
