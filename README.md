# Tabularize: a verified model of the node-layout core

This project models `tabularize.py`, the layout engine of a ComfyUI plugin
that arranges a workflow's nodes into columns and finds links drawn behind
nodes. It is written in Dafny and its properties are proved.

A workflow graph is a list of nodes and a list of links. Each node has an
id, a type label, a position and a size. Each link runs from an output slot
of its origin node to an input slot of its target node. The model covers:

- **Geometry**: `line_segment_intersects_rect`. A segment meets a rectangle
  when one of its endpoints lies inside the closed rectangle, or when it
  crosses one of the four borders under a strict orientation test.
- **Graph**: `build_node_graph`, the node map and the children and parents
  lists. It also covers the "connected nodes only" filter that
  `organize_nodes` and `detect_link_overlaps` both start with.
- **Components**: `find_disconnected_components`, an undirected adjacency
  and a recursive depth-first search. The class `ComponentSearch` carries
  the `visited` set and the component being collected. Every component is
  connected: each node after the first neighbours an earlier one. So the
  result is the connected components, unique up to order.
- **Chains**: `find_all_chains`, every path from a node without parents to a
  node without children.
- **Columns, RemainingColumns, SortKeys, Sorting, Stacking, Layout**:
  `organize_single_component`, phase by phase:
  - Phase A: the longest chains fix the first columns and each such column's
    width.
  - Phase B: the columns sit side by side from x = 100, 100 units apart.
  - Then every chain node is placed at its first visit.
  - Step 4: every other node gets a column, in node order.
  - Step 5: each column is sorted by the heights of the ports its nodes
    connect to, then stacked from the start height with 60 units between
    nodes.
  - Step 5b: column 0 is re-sorted by its children's input ports.
  - Step 3b: every node takes its column's width.
- **Organize**: `organize_nodes`. It keeps only the nodes some link touches
  and splits them into components. A single component is laid out directly.
  Otherwise each component is laid out on its own, the results are sorted
  shortest first, and they are stacked 200 units apart.
- **Overlaps**: `detect_link_overlaps`. The first pass finds each link whose
  straight line goes through a node in its horizontal span. The second pass
  reroutes each such link above or below the nodes in that span, with a
  growing offset per direction.

Every loop of the source is a `method` with its loop invariants. Each method
is proved equal to a specification function, and the lemmas are proved
about those functions. Python dictionaries whose insertion order matters are
modelled as a key sequence plus a map. Sets are iterated in an arbitrary
order, and every property holds for every such order.

Two behaviours of the source are modelled as written, not corrected:

- A column created in Step 4 goes right of the highest-indexed column,
  whatever its index. So a node placed "left of its leftmost child in
  column 0" lands in column -1, right of every other column
  (`RemainingColumns.LeftOfFirstColumnLandsRight`).
- A segment that only grazes a rectangle's corner is reported or not
  depending on the segment's direction
  (`Geometry.CornerGrazeDependsOnDirection`).

## Model

| member | source | states |
|---|---|---|
| Geometry.CrossesAnyEdge | tabularize.py:61-66 | the loop over the edges returns true exactly when the segment crosses some edge of the list |
| Geometry.SegmentIntersectsRect | tabularize.py:11-68 | an endpoint inside the closed rectangle gives true; otherwise the result is true exactly when one of the four borders is crossed |
| Geometry.HorizontalSegmentThroughRect | tabularize.py:53-68 | a horizontal segment strictly inside the rectangle's height that reaches the left border from outside is reported |
| Geometry.CcwAgainstHorizontal | tabularize.py:43-44 | against a rightward horizontal border, `ccw` holds exactly for points below a non-degenerate border |
| Geometry.CcwAgainstVertical | tabularize.py:43-44 | against a downward vertical border, `ccw` holds exactly for points left of a non-degenerate border |
| Geometry.HorizontalEdgeNotCrossed | tabularize.py:41-51 | a horizontal border entirely left or right of the segment is never crossed |
| Geometry.VerticalEdgeNotCrossed | tabularize.py:41-51 | a vertical border entirely left or right of the segment is never crossed |
| Geometry.OutOfSpanNeverIntersects | tabularize.py:11-68 | a box entirely left or right of the segment never intersects it, so the span pre-filter of the overlap passes loses no hit |
| Geometry.CornerGrazeDependsOnDirection | tabularize.py:41-51 | the same corner-grazing segment is reported in one direction and not in the other |
| Graph.NodeMap | tabularize.py:80 | the node map is keyed by exactly the node ids, and each entry is a node of the list carrying that id |
| Graph.NodeMapAt | tabularize.py:80 | with distinct ids every node is the map's entry for its own id |
| Graph.TargetsMember | tabularize.py:84-90 | c is in p's children list exactly when some link with both ends known runs from p to c |
| Graph.OriginsMember | tabularize.py:84-90 | p is in c's parents list exactly when some link with both ends known runs from p to c |
| Graph.TargetsKnown | tabularize.py:88-89 | children lists name only known nodes |
| Graph.OriginsKnown | tabularize.py:88-90 | parents lists name only known nodes |
| Graph.ChildParentMirror | tabularize.py:88-90 | c occurs in p's children list as often as p occurs in c's parents list |
| Graph.ChildListsSnoc | tabularize.py:84-90 | one more link appends its target to its origin's children list when both ends are known, and otherwise changes nothing |
| Graph.ParentListsSnoc | tabularize.py:84-90 | one more link appends its origin to its target's parents list when both ends are known, and otherwise changes nothing |
| Graph.BuildNodeGraph | tabularize.py:70-92 | the loop builds the node map and exactly the children and parents lists of the specification |
| Graph.ConnectedNodeIds | tabularize.py:209-212 | the collected ids are exactly the endpoints of the links |
| Graph.KeepNodes | tabularize.py:215 | the filter keeps exactly the nodes whose id is in the set, never more nodes than given |
| Graph.KeepNodesInOrder | tabularize.py:215 | the filter keeps the input order: filtering a concatenation is the concatenation of the filtered parts |
| Graph.KeepNodesIds | tabularize.py:215 | the kept ids are the listed ids that name a node |
| Graph.KeepNodesDistinct | tabularize.py:215 | filtering introduces no duplicate ids |
| Components.AdjacencyClosed | tabularize.py:117-123 | the adjacency is keyed by exactly the node ids and never points outside them |
| Components.AdjacencySymmetric | tabularize.py:121-123 | y neighbours x exactly when x neighbours y |
| Components.LinkedAreNeighbours | tabularize.py:121-123 | a link with both ends known makes its target a neighbour of its origin |
| Components.BuildAdjacency | tabularize.py:117-123 | the loop builds exactly the adjacency of the specification |
| Components.LinkFoldIsAdjacency | tabularize.py:117-123 | adding the links one at a time gives the adjacency defined by membership |
| Components.AdjacencyIsSymmetric | tabularize.py:117-123 | the built adjacency is symmetric |
| Components.ComponentSearch.constructor | tabularize.py:126-127 | the search starts with nothing visited and an empty component |
| Components.GrownParent | tabularize.py:129-134 | in a grown sequence every node after the first neighbours an earlier node of it |
| Components.GrownFromParents | tabularize.py:129-134 | conversely, a sequence whose every node after the first neighbours a given earlier node is grown |
| Components.GrownConcat | tabularize.py:131-134 | a grown sequence followed by one grown from a neighbour of one of its nodes is grown |
| Components.ExtendSearch | tabularize.py:131-134 | a nested search from a neighbour of `n` extends what the search from `n` has appended: still `n` first, distinct, exactly the visited nodes, grown |
| Components.ComponentSearch.Dfs | tabularize.py:129-134 | `dfs` marks and appends `n` first, appends only newly visited nodes, each once and each after a neighbour of it, and leaves every newly visited node's neighbours visited |
| Components.ComponentSearch.Collect | tabularize.py:136-140 | one search from an unvisited node returns a duplicate-free component headed by that node, holding exactly the newly visited nodes, each after a neighbour of it, so connected |
| Components.NewComponentClosed | tabularize.py:129-140 | a component collected from outside a closed visited set is itself closed under the adjacency |
| Components.ExtendSeparate | tabularize.py:136-140 | appending a closed, non-empty component keeps the components separate |
| Components.ClosedComponentsKeepLinks | tabularize.py:107-142 | components closed under the adjacency keep both ends of every known link together |
| Components.SplitComponents | tabularize.py:136-142 | the loop returns components that hold every node once, are pairwise unconnected, and are each connected from their head |
| Components.FindDisconnectedComponents | tabularize.py:107-142 | the result is the connected components: non-empty, every node id exactly once, no link between two of them, each grown from its head along the links |
| Components.NeighbourInside | tabularize.py:117-123 | when no link leaves a component, two neighbours are both in it or both outside it |
| Components.HeadInside | tabularize.py:107-142 | walking back along a connected component from a node inside another closed component reaches its head there |
| Components.AllInside | tabularize.py:107-142 | walking forward from a head inside a closed component reaches every node of a connected component |
| Components.GrownInside | tabularize.py:107-142 | a connected component that meets a component no link leaves lies inside it |
| Components.MatchingComponent | tabularize.py:107-142 | every component of one result holds exactly the nodes of some component of any other result |
| Components.ComponentsUnique | tabularize.py:107-142 | the result is unique up to order: any two results have equally many components, with the same node sets |
| Components.TwoWorkflowsSplit | tabularize.py:107-142 | two unlinked workflows 1 -> 2 and 3 -> 4 split into the components [1, 2] and [3, 4] |
| Components.TwoWorkflowsTwoComponents | tabularize.py:107-142 | every result for those two workflows has exactly two components, so they are never merged |
| Chains.StartNodes | tabularize.py:154 | the start nodes are exactly the ids whose parents list is empty |
| Chains.ChainsFromSound | tabularize.py:164-178 | every chain found from `n` extends the prefix by a path from `n` to a leaf |
| Chains.ChainsThroughSound | tabularize.py:176-178 | every chain found through the children extends the chain by a leaf path from one of them |
| Chains.ChainsFromComplete | tabularize.py:164-178 | every leaf path from `n` is found: the search misses no chain |
| Chains.AllChainsMember | tabularize.py:181-182 | a chain is found exactly when it is found from some start node |
| Chains.AllChainsNonEmpty | tabularize.py:145-184 | some chain is found exactly when there is a start node |
| Chains.AllChainsAreChains | tabularize.py:145-184 | the chains found are exactly the paths from a start node to a node without children |
| Chains.AllChainsExact | tabularize.py:145-184 | for all sequences at once: found exactly when it is a start-to-leaf path |
| Chains.DfsBuildChains | tabularize.py:164-178 | `dfs_build_chains` appends to the accumulated chains exactly the chains through `current` |
| Chains.FindAllChains | tabularize.py:145-184 | the loop returns exactly the specified search result, whose members are exactly the start-to-leaf paths |
| Chains.NoRootNoChains | tabularize.py:154-184 | when every node has a parent, as in a pure cycle, there is no start node and no chain |
| Chains.LinkedRanksDrop | tabularize.py:164-178 | ranks strictly drop along a path of child links, which is why the recursion ends |
| Chains.ChainHasNoRepeats | tabularize.py:164-178 | no chain visits a node twice |
| Chains.TerminationRanks | tabularize.py:164-182 | the termination condition on the built graph gives every start node a rank and makes ranks drop along child links |
| Columns.MaxLength | tabularize.py:349 | the maximum is the length of some chain and no chain is longer |
| Columns.OfLength | tabularize.py:350 | the longest chains are exactly the chains of that length |
| Columns.OfLengthInOrder | tabularize.py:350 | the longest chains keep the order of the found chains: filtering a concatenation is the concatenation of the filtered parts |
| Columns.ChainWidthsKeys | tabularize.py:365-374 | a chain column exists exactly at the indexes some longest chain reaches |
| Columns.ChainWidthsBound | tabularize.py:365-374 | every chain column is non-negative and at least as wide as each node visited at that index |
| Columns.ChainWidthsAttained | tabularize.py:365-374 | a chain column's width is 0 or the width of some node at that index |
| Columns.ChainWidthsMeaning | tabularize.py:365-374 | each chain column's width is the maximum of its nodes' widths |
| Columns.ChainColumnWidths | tabularize.py:361-374 | the nested loops compute exactly the chain column widths |
| Columns.WidenChain | tabularize.py:366-374 | one chain widens each column it reaches to its node there, and every listed node still fits its column |
| Columns.WidenCell | tabularize.py:367-374 | one cell widens its column to `max(old width, node width)`, and every listed node still fits its column |
| Columns.ColumnXsSpacing | tabularize.py:377-384 | column 0 starts at x = 100 and each next column starts 100 units right of the previous column's right edge |
| Columns.ColumnXsSideBySide | tabularize.py:377-384 | the computed x positions lay the columns side by side |
| Columns.ColumnPositions | tabularize.py:377-384 | the loop over the sorted column indexes computes exactly these x positions |
| Columns.SideBySideSeparated | tabularize.py:377-384 | with non-negative widths an earlier column ends, spacing included, before any later one starts |
| Columns.SideBySideIncreasing | tabularize.py:377-384 | chain column x positions strictly increase with the index |
| Columns.PlaceRowCovers | tabularize.py:395-407 | a row adds exactly its nodes not yet placed, each once, at the end of the placement order |
| Columns.PlaceRowKeeps | tabularize.py:403-407 | a row moves no node already placed |
| Columns.PlaceRowSets | tabularize.py:393-399 | a row places the first visit of each new node at that cell's column x and at y = start + row × 150 |
| Columns.PlaceChainsFacts | tabularize.py:386-408 | exactly the chain nodes are placed, each at the column and row of its first visit |
| Columns.PlaceLongestChains | tabularize.py:386-408 | the loops compute exactly that placement and its order |
| Columns.PosToColumnInverts | tabularize.py:420-422 | with distinct x positions, `pos_to_column` maps each column's x back to that column and nothing else |
| Columns.NodeColumnsComplete | tabularize.py:425-429 | when every placed x is a column's x, every placed node gets that column, in placement order |
| Columns.PlacedColumns | tabularize.py:419-429 | the loops build exactly the specified `node_columns` and its insertion order |
| Columns.PlacedColumnsExact | tabularize.py:419-429 | from the chain layout, each placed node recovers a column whose x is its own |
| RemainingColumns.ColumnsOfComplete | tabularize.py:441-457 | every listed node that has a column contributes that column |
| RemainingColumns.ColumnsOfSound | tabularize.py:441-457 | every listed column is the column of a listed node |
| RemainingColumns.TargetColumnRule | tabularize.py:446-464 | the target is one past the rightmost placed parent; else one before the leftmost placed child; else one past the highest column index, or 0 with no column |
| RemainingColumns.AssignColumn | tabularize.py:437-488 | one iteration computes exactly the specified step |
| RemainingColumns.AssignRemaining | tabularize.py:436-488 | the loop computes exactly the specified state after all pending nodes |
| RemainingColumns.AssignOneFacts | tabularize.py:467-488 | one step keeps the tables consistent, gives the node a column that fits it, and moves or narrows no column |
| RemainingColumns.AssignAllFacts | tabularize.py:436-488 | the loop assigns every pending node, in order, keeps earlier assignments and column x positions, and every node fits its column |
| RemainingColumns.LeftOfFirstColumnLandsRight | tabularize.py:454-480 | a node whose only placed neighbours are children in column 0 gets column -1, created right of every column |
| SortKeys.LexIsStrictTotalOrder | tabularize.py:566-571 | Python's list comparison on the padded keys is a strict total order |
| SortKeys.ConnectedSortsFirst | tabularize.py:569-571 | a node with connected ports sorts before a node without any |
| SortKeys.LongerPortListSortsFirst | tabularize.py:569-571 | when one port list extends another, the node with more ports sorts first |
| SortKeys.PadInjective | tabularize.py:571 | equal keys come only from equal port lists |
| Sorting.SortByPermutes | tabularize.py:573 | `sorted` returns a permutation of its input |
| Sorting.SortBySorted | tabularize.py:573 | under a strict total order `sorted` returns its input in ascending key order |
| Sorting.SortByStable | tabularize.py:573 | `sorted` is stable: elements with equal keys keep their input order |
| Sorting.SortByKeepsSorted | tabularize.py:573 | sorting an already ascending sequence changes nothing |
| Sorting.IntLessIsTotal | tabularize.py:270 | `<` on heights is a strict total order, so sorting components by height is well defined |
| Seqs.SeqMax | tabularize.py:450 | `max` of a non-empty list is a member no smaller than any member |
| Seqs.SeqMin | tabularize.py:457 | `min` of a non-empty list is a member no larger than any member |
| Seqs.SetMax | tabularize.py:464 | `max` of the column indexes is a member no smaller than any member |
| Stacking.PortHeights | tabularize.py:522-547 | the loops collect exactly the specified port heights |
| Stacking.InputPortYsMeaning | tabularize.py:527-535 | a height is an input-side port height exactly when a link from a placed parent gives parent y + 30 + slot × 20 |
| Stacking.OutputPortYsMeaning | tabularize.py:537-545 | a height is an output-side port height exactly when a link to a placed child gives child y + 30 + slot × 20 |
| Stacking.NothingPlacedNoPorts | tabularize.py:513-514 | with nothing placed a node connects to no port |
| Stacking.ColumnOrderFacts | tabularize.py:565-573 | a column's order permutes its nodes, ascends by sort key, and keeps equal keys in input order |
| Stacking.ColumnOrderPermutes | tabularize.py:573 | the column order holds the column's nodes, each as often as before, and no duplicates when there were none |
| Stacking.FirstSortedColumnKeepsOrder | tabularize.py:557-573 | the first column sorted sees no placed node, so all keys are equal and its order is kept |
| Stacking.StackColumn | tabularize.py:575-588 | the positioning loop computes exactly the specified stacking |
| Stacking.StackKeeps | tabularize.py:578-588 | stacking places exactly the column's nodes and leaves every other position alone |
| Stacking.StackShape | tabularize.py:575-588 | a stacked column starts at the start y at the column's x, and each next node sits its predecessor's height plus 60 lower |
| Stacking.StackedApart | tabularize.py:575-588 | with non-negative heights, each node ends 60 units or more above every later node of its column |
| Stacking.InColumnMembers | tabularize.py:550-554 | a column's group holds exactly the nodes assigned to it, without duplicates when the order has none |
| Stacking.FirstUsesMeaning | tabularize.py:550-554 | the grouping's keys are duplicate-free and are exactly the columns some node uses |
| Stacking.GroupByColumn | tabularize.py:550-554 | the loop builds exactly `columns_to_nodes` and its key order |
| Stacking.GroupedAll | tabularize.py:550-554 | after every node the tables equal the specified grouping |
| Stacking.SortedColumns | tabularize.py:559 | sorting distinct column indexes gives them once each, strictly ascending |
| Stacking.StackStep | tabularize.py:559-588 | stacking one column adds exactly its nodes, moves no other node, and records its order only |
| Stacking.StackAllColumns | tabularize.py:557-588 | the Step 5 loop computes exactly the specified arrangement |
| Stacking.StackColumnsOrders | tabularize.py:559-588 | Step 5 records an order for its columns and no other |
| Stacking.StackColumnsKeepsOrders | tabularize.py:559-588 | Step 5 leaves the orders of other columns unchanged |
| Stacking.StackColumnsMoves | tabularize.py:557-588 | Step 5 positions exactly the grouped nodes |
| Stacking.StackColumnsKeeps | tabularize.py:557-588 | Step 5 moves no node outside the grouped ones |
| Stacking.StackColumnsShape | tabularize.py:557-588 | after Step 5 every column is stacked from the start y at its x, in a permutation of its nodes |
| Stacking.StackColumnsFirst | tabularize.py:557-588 | the first column stacked stays stacked while the later columns are stacked |
| Stacking.ResortColumnZero | tabularize.py:593-638 | the Step 5b block computes exactly the specified re-sort |
| Stacking.ResortFirstColumnOrders | tabularize.py:593-638 | Step 5b records a new order for column 0 only, and only when columns 0 and 1 are both used |
| Stacking.ResortFirstColumnMoves | tabularize.py:593-638 | Step 5b positions the nodes of column 0 and moves no other node |
| Stacking.ResortFirstColumnShape | tabularize.py:600-638 | after Step 5b column 0 is a permutation of its nodes, ascending by child input port heights, stacked from the start y |
| Stacking.ColumnSizes | tabularize.py:647-658 | the width-matching loops compute exactly the specified sizes |
| Stacking.SizeColumnFacts | tabularize.py:655-658 | one column sizes each of its nodes `[column width, own height]` and leaves other entries alone |
| Stacking.SizeColumnsKeeps | tabularize.py:647-658 | the loops size exactly the grouped nodes and leave other entries alone |
| Stacking.SizeColumnsValues | tabularize.py:647-658 | every grouped node gets `[width of its column, own height]` |
| Layout.Unplaced | tabularize.py:432 | the unpositioned nodes are exactly the ids not yet placed, without duplicates when the ids have none |
| Layout.UnplacedInOrder | tabularize.py:432 | the unpositioned nodes keep the node map's key order: filtering a concatenation is the concatenation of the filtered parts |
| Layout.ChainNodesKnown | tabularize.py:332-335 | every node a chain visits is a node of the component |
| Layout.LongestFacts | tabularize.py:349-350 | the longest chains all have the maximal length and are chains that were found |
| Layout.LongestOnMap | tabularize.py:349-373 | every node of a longest chain is in the node map |
| Layout.ChainColumnsFacts | tabularize.py:360-384 | chain columns exist for every index of the longest length, cover their nodes' widths, and run side by side with increasing x |
| Layout.ChainPhasePlaced | tabularize.py:360-408 | Phases A and B place exactly the chain nodes, each at the column and row of its first visit |
| Layout.ChainPhaseRecovered | tabularize.py:419-429 | reading columns back from x gives every placed node a column whose x is its own |
| Layout.ChainPhaseColumns | tabularize.py:386-429 | every chain node lands in the column of its first visit |
| Layout.ChainPhaseState | tabularize.py:360-429 | the tables Step 4 starts from are consistent and every chain node fits its column |
| Layout.GroupsByColumn | tabularize.py:550-554 | `columns_to_nodes` holds every assigned node once, under its own column |
| Layout.KeysMatchGroups | tabularize.py:559 | the sorted keys are exactly the used columns, each once |
| Layout.GroupsHaveColumns | tabularize.py:550-561 | every used column has an x position and a width, and every grouped node is in the node map |
| Layout.ReadyGrouped | tabularize.py:550-561 | the grouping, the sorted keys and the column tables agree |
| Layout.ReadyByColumn | tabularize.py:550-554 | grouped nodes sit under their own column and the groups hold exactly the assigned nodes |
| Layout.ReadyMembers | tabularize.py:550-554 | the columns' groups hold exactly the assigned nodes |
| Layout.PlanReady | tabularize.py:331-500 | after Phases A to C the column tables are ready for Step 5 |
| Layout.PlanColumns | tabularize.py:331-500 | the code of Phases A to C computes exactly the specified column tables |
| Layout.ArrangeColumns | tabularize.py:502-661 | Steps 5, 5b and 3b compute exactly the specified positions and sizes |
| Layout.OrganizeSingleComponent | tabularize.py:310-672 | `organize_single_component` returns exactly the specified layout result |
| Layout.ChainsIffRoot | tabularize.py:335-346 | some chain is found exactly when some node of the component has no parent |
| Layout.NoRootLayout | tabularize.py:340-346 | "No chains to organize" is reported exactly when no node is a root, and then nothing is placed and no sizes are returned |
| Layout.ChainedWithin | tabularize.py:386-408 | the chains place only nodes of the component, and their columns are recorded in placement order |
| Layout.PhaseCAssigns | tabularize.py:413-488 | when nodes remain, Step 4 appends each of them once, so every node has a column |
| Layout.PhaseCSkipped | tabularize.py:490-500 | when no node remains, the chains have already placed every node |
| Layout.PlanCovers | tabularize.py:410-500 | after Step 4 every node has exactly one column and is listed once in assignment order |
| Layout.StackedShape | tabularize.py:557-588 | after Step 5 every used column is stacked |
| Layout.ArrangedStacked | tabularize.py:557-638 | after Step 5b every used column is still stacked |
| Layout.ArrangedKeepsColumn | tabularize.py:593-638 | Step 5b leaves every column other than a re-sorted column 0 as Step 5 stacked it |
| Layout.StackedCovers | tabularize.py:557-588 | Step 5 positions exactly the assigned nodes |
| Layout.ArrangedCovers | tabularize.py:557-638 | Steps 5 and 5b position exactly the assigned nodes |
| Layout.SizedCovers | tabularize.py:647-661 | the sizes loop sizes exactly the assigned nodes |
| Layout.ArrangedColumns | tabularize.py:557-638 | every assigned node ends at its column's x |
| Layout.SizedColumns | tabularize.py:647-661 | every assigned node is sized `[column width, own height]` |
| Layout.ArrangedFirstColumn | tabularize.py:593-620 | column 0 ends ascending by the input port heights its nodes feed, as Step 5 placed them |
| Layout.LayoutArranged | tabularize.py:310-672 | with a root the result carries the final arrangement and the column sizes |
| Layout.LayoutPositions | tabularize.py:310-672 | with a root every node of the component is positioned, and nothing else |
| Layout.LayoutSizes | tabularize.py:647-672 | with a root every node of the component is sized, and nothing else |
| Layout.LayoutCovers | tabularize.py:310-672 | with a root every node is positioned and sized, and the message counts all the nodes |
| Layout.LayoutColumns | tabularize.py:310-672 | every node has one column, ends at its x, and is sized `[column width, own height]` |
| Layout.LayoutStacked | tabularize.py:502-672 | every used column is stacked from the start y; column 0, when column 1 is used, ascends by the input ports it feeds |
| Layout.PhaseCKeeps | tabularize.py:413-488 | Step 4 keeps every chain column's x and every chain node's column |
| Layout.LayoutChainColumns | tabularize.py:348-488 | the chain columns number the longest chain length, run side by side, keep their x through Step 4, and hold each chain node at its first visit |
| Organize.Connected | tabularize.py:209-215 | the workflow nodes are exactly the nodes some link starts or ends at, and keep distinct ids |
| Organize.ConnectedInOrder | tabularize.py:215 | the workflow nodes keep the input order: filtering a concatenation is the concatenation of the filtered parts |
| Organize.KeepLinks | tabularize.py:250 | a component's links are exactly the links with both ends in it |
| Organize.KeepLinksInOrder | tabularize.py:250 | a component's links keep the input link order: filtering a concatenation is the concatenation of the filtered parts |
| Organize.ComponentTerminates | tabularize.py:245-253 | a component's own nodes and links keep the chain search finite |
| Organize.LayoutWithin | tabularize.py:245-255 | a component layout positions only its nodes, sizes exactly what it positions, and positions something exactly when it has a root |
| Organize.FirstHeightKeep | tabularize.py:249-257 | filtering by the component keeps the first node of every id in it |
| Organize.Top | tabularize.py:259 | the top edge is the y of some node and no node lies higher |
| Organize.Bottom | tabularize.py:257-258 | the bottom edge is some node's y plus height and no node ends lower |
| Organize.MeasureFits | tabularize.py:255-267 | the measured height is the component's extent: every node ends within it and one ends exactly at it |
| Organize.FitsWider | tabularize.py:249-260 | a record measured on the component's nodes measures the same on the whole node list |
| Organize.SoloLaid | tabularize.py:245-255 | a component's layout positions all of its nodes when it has a root, and nothing otherwise |
| Organize.ComponentsTerminate | tabularize.py:245-253 | every component's own nodes and links keep the chain search finite |
| Organize.OutcomesLaid | tabularize.py:245-267 | every component's outcome is laid as its component demands |
| Organize.RecordKeys | tabularize.py:255-267 | a component that positioned something has exactly one record, holding exactly its nodes |
| Organize.RecordFits | tabularize.py:255-267 | each record's height is measured against the whole node list |
| Organize.ResultsFit | tabularize.py:243-267 | every record in `component_results` is measured against the whole node list |
| Organize.ResultsFrom | tabularize.py:243-267 | every record is, in full, a component whose layout positioned something |
| Organize.ResultsCover | tabularize.py:243-267 | every component that positioned something has its record |
| Organize.ResultsSeparate | tabularize.py:243-267 | the records are pairwise disjoint, since the components are |
| Organize.SortSeparate | tabularize.py:270 | sorting keeps the records disjoint |
| Organize.ByHeightFacts | tabularize.py:270 | sorting by height permutes the records, orders them shortest first, and keeps the order of equal heights |
| Organize.FirstHeightIsFirst | tabularize.py:257 | the height used for an id is that of the first node carrying it |
| Organize.FitsHeight | tabularize.py:257-260 | with no negative node height a component's height is non-negative |
| Organize.StackedHas | tabularize.py:275-289 | every node of the first k records is in `all_positions` after them |
| Organize.StackedOwner | tabularize.py:275-289 | every node of `all_positions` after k records comes from one of them |
| Organize.SizesKeys | tabularize.py:292-293 | the nodes of `all_sizes` after k records are exactly those sized by them |
| Organize.SizesMatch | tabularize.py:275-293 | when each record sizes exactly its positioned nodes, `all_sizes` and `all_positions` have the same nodes |
| Organize.StackedPlacement | tabularize.py:284-289 | a node that no later record has ends where its own record moved it |
| Organize.SizesPlacement | tabularize.py:292-293 | a node that no later record sizes keeps the size its own record gave it |
| Organize.OffsetGrows | tabularize.py:296 | a later record's offset is at least an earlier one's offset plus its height plus 200 |
| Organize.StackedBand | tabularize.py:275-296 | each stacked component lies in the band from its offset to its offset plus its height, with its top edge on the offset |
| Organize.StackedApart | tabularize.py:275-296 | an earlier stacked component ends, 200 units included, above every node of a later one |
| Organize.SortedReady | tabularize.py:243-270 | the sorted records are ready to stack and ascend by height |
| Organize.SortedFrom | tabularize.py:243-270 | each sorted record is exactly a component whose own layout positioned something |
| Organize.SortedCover | tabularize.py:243-270 | every such component has its sorted record |
| Organize.OrganizeNothing | tabularize.py:209-227 | "No workflow nodes to organize" is reported exactly when no node is a link endpoint, and then nothing is placed |
| Organize.OrganizeSingle | tabularize.py:234-236 | with one component, every connected node is placed and sized when one has no parent, and "No chains" with nothing placed otherwise |
| Organize.PlacedFrom | tabularize.py:275-296 | a node placed by the stacking belongs to a component whose own layout positioned something |
| Organize.PlacedAll | tabularize.py:275-296 | every node of such a component is placed by the stacking |
| Organize.SortedCovers | tabularize.py:243-296 | after stacking, a node is placed exactly when its component positioned something, and sizes cover exactly the placed nodes |
| Organize.OrganizeCovers | tabularize.py:238-307 | with several components, a node is placed exactly when its component has a root, every placed node is sized, and the message counts nodes and components |
| Organize.StackedMoves | tabularize.py:275-296 | every record is moved as a whole so that its top edge lies on its offset |
| Organize.StackedOrdered | tabularize.py:275-296 | with no negative heights each stacked record ends, 200 units included, above every node of each later record |
| Organize.SortedStackable | tabularize.py:243-296 | the sorted records are ready to stack |
| Organize.OrganizeMulti | tabularize.py:238-307 | with several components the result is the stacking of the height-sorted records |
| Organize.ConnectedHeights | tabularize.py:215-257 | a connected node's height is the same among connected nodes and among all nodes |
| Organize.OrganizeMoved | tabularize.py:275-307 | with several components each sorted record is moved as a whole onto its offset |
| Organize.OrganizeApart | tabularize.py:275-307 | with several components and no negative height, an earlier component ends, 200 units included, above every node of a later one |
| Organize.ShiftInto | tabularize.py:287-289 | the inner loop writes every node of one component into `all_positions`, moved by offset minus top |
| Organize.StackStep | tabularize.py:280-296 | one more record adds its moved nodes and its sizes and advances the offset by its height plus 200 |
| Organize.Stack | tabularize.py:275-296 | the stacking loops compute exactly the specified positions and sizes |
| Organize.LayOutComponent | tabularize.py:249-253 | a component is laid out from y = 0 on its own nodes and inner links |
| Organize.MeasureOne | tabularize.py:255-267 | a component's record is computed exactly as specified |
| Organize.MeasureComponents | tabularize.py:243-267 | the component loop computes exactly the specified records |
| Organize.OrganizeNodes | tabularize.py:187-307 | `organize_nodes` returns the specified result for the connected components of the workflow nodes, which ComponentsUnique fixes up to order |
| Overlaps.BlockersMember | tabularize.py:748-781 | a node is listed in `overlapping_nodes` exactly when it is passed by the link and the link goes through it |
| Overlaps.FindBlockers | tabularize.py:748-781 | the inner loop computes exactly `overlapping_nodes` |
| Overlaps.FoundFrom | tabularize.py:723-792 | every first-pass record comes from some link |
| Overlaps.FoundHas | tabularize.py:723-792 | every link the first pass keeps has its record |
| Overlaps.OverlapOfFacts | tabularize.py:723-792 | a link is kept exactly when both ends are known and a passed node blocks it, and its record names the link and its ends |
| Overlaps.FirstWith | tabularize.py:810-813 | `next(...)` finds the first link at or after the start carrying the id |
| Overlaps.NonePassed | tabularize.py:819-857 | with no passed node there is neither a highest nor a lowest one |
| Overlaps.SomePassed | tabularize.py:819-857 | a highest or a lowest node exists only when some node is passed |
| Overlaps.HighestAt | tabularize.py:849-852 | the highest node is the first passed node of least top |
| Overlaps.LowestAt | tabularize.py:854-857 | the lowest node is the first passed node of greatest bottom |
| Overlaps.ExtremesExist | tabularize.py:819-857 | a record with a passed node has both a highest and a lowest node |
| Overlaps.FindExtremes | tabularize.py:819-857 | the loop finds exactly the specified highest and lowest nodes |
| Overlaps.ScheduleOffsets | tabularize.py:796-882 | each direction's offset is 50 plus 20 per reroute already taken in that direction |
| Overlaps.ScheduleAt | tabularize.py:801-882 | record i is routed with the offsets the records before it leave |
| Overlaps.ScheduleAtOffsets | tabularize.py:796-882 | record i is routed with each offset grown by one step per earlier reroute in its direction |
| Overlaps.RouteFacts | tabularize.py:859-911 | a reroute holds the extremes, both distances, the shorter direction (down on a tie), the reroute line and the two waypoints 50 units inside the link |
| Overlaps.LocateFacts | tabularize.py:801-857 | a record is surveyed at the first highest and first lowest node its link passes |
| Overlaps.FoundDecidable | tabularize.py:801-866 | every first-pass record can be surveyed by the second pass |
| Overlaps.DetectNothing | tabularize.py:697-715 | the analysis stops early exactly when there is no link or no linked node, and otherwise counts its records |
| Overlaps.DetectEntry | tabularize.py:675-937 | report entry i routes first-pass record i with the offsets left by the entries before it |
| Overlaps.DetectSound | tabularize.py:723-792 | every reported link exists, joins two known nodes, and goes through a linked node other than its ends |
| Overlaps.DetectComplete | tabularize.py:723-792 | every link the first pass keeps is reported |
| Overlaps.DetectRoute | tabularize.py:796-911 | entry i is the route of its record past the first highest and first lowest node its link passes |
| Overlaps.DetectClears | tabularize.py:859-882 | the reroute line of each entry clears every node its link passes by at least 50 units, above or below as chosen |
| Overlaps.FirstPass | tabularize.py:720-792 | the first pass computes exactly the specified records |
| Overlaps.SecondPass | tabularize.py:796-911 | the second pass computes exactly the specified reroutes, in order |
| Overlaps.DetectLinkOverlaps | tabularize.py:675-937 | `detect_link_overlaps` returns exactly the specified report |

## Left out

- api.py, utils.py and `__init__.py` are not part of this model: the web route, the debug switch and plugin registration.
- Debug output and the `print` calls are not modelled, and neither are the counters they report, such as the excluded node count.
- The `status` field is always `'success'` and is dropped. The per-component `node_count` is never read and is dropped too.
- Positions, sizes and slots are integers. The source also accepts floating-point values from the editor. `float('inf')` in the sort keys is a separate infinite value above every height.
- Organize.OrganizeNodes, Layout.OrganizeSingleComponent: node ids must be distinct. The source's data model promises this, and the dictionaries keyed by id rely on it.
- Organize.OrganizeNodes, Layout.OrganizeSingleComponent: callers must supply a ghost rank under which ranks drop along child links from every root. It stands for "no cycle is reachable from a root". Without it, `dfs_build_chains` recurses forever and Python stops with a recursion error, which the model does not represent. A pure cycle without a root stays allowed and gives "No chains to organize".
- Organize.OrganizeNodes: the components are the connected components of the workflow nodes, in any order and each in any visiting order that `find_disconnected_components` can produce. Set iteration order is not fixed, so which order the source sees is not modelled; the node sets and their number are fixed (Components.ComponentsUnique).
- Organize.OrganizeApart, Stacking.StackedApart: non-overlap is proved only for non-negative node heights. Nothing is claimed for a negative height.
- RemainingColumns.AssignAllFacts: widening a column in Step 4 does not move the columns to its right, as in the source. Nothing is claimed about columns staying apart after Step 4.
- Overlaps.DetectLinkOverlaps: the second pass uses the first link carrying the record's id for the port slots, as `next(...)` does. With duplicate link ids this may be a different link from the one the first pass examined.
- Overlaps.DetectLinkOverlaps does not require distinct node ids. Like the source's node map, the model keeps the later node of a repeated id.
- The Python `TypeError` when `highest_node_top` is `None` cannot occur: every record has a passed node (Overlaps.FoundDecidable).
