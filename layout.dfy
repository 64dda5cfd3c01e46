// The single-component layout of tabularize.py (organize_single_component),
// assembled from its phases: the longest chains fix the first columns (A, B),
// every other node gets a column (C), each column is sorted by port heights
// and stacked (Step 5), column 0 is re-sorted by its children's inputs (5b),
// and every node takes its column's width.
module Layout {
  import opened Seqs
  import opened Graph
  import opened Sorting
  import opened SortKeys
  import opened Chains
  import opened Columns
  import opened RemainingColumns
  import opened Stacking

  /**
   * The messages of a successful layout; the source reports every outcome as a
   * success. The last two come from the whole-workflow layout (organize_nodes).
   */
  datatype Message =
    | NoNodesToOrganize
    | NoChainsToOrganize
    | Positioned(count: nat)
    | NoWorkflowNodes
    | PositionedIn(count: nat, components: nat)

  /** The result dictionary: message, new positions, and new sizes when the result carries them. */
  datatype LayoutResult = LayoutResult(message: Message, positions: map<NodeId, Pos>, sizes: Option<map<NodeId, Size>>)

  lemma IdsAreIdSet(nodes: seq<Node>)
    ensures Elems(Ids(nodes)) == IdSet(nodes)
  {
    forall x | x in IdSet(nodes) ensures x in Elems(Ids(nodes)) {
      var n :| n in nodes && n.id == x;
      var i :| 0 <= i < |nodes| && nodes[i] == n;
      assert Ids(nodes)[i] == x;
    }
  }

  /** With unique ids there are as many ids as nodes. */
  lemma DistinctIdsCount(nodes: seq<Node>)
    requires DistinctIds(nodes)
    ensures NoDup(Ids(nodes)) && |IdSet(nodes)| == |nodes|
  {
    IdsAreIdSet(nodes);
    NoDupCard(Ids(nodes));
  }

  /** `[n for n in node_map.keys() if n not in positioned_nodes]` */
  function Unplaced(ids: seq<NodeId>, placed: set<NodeId>): (r: seq<NodeId>)
    ensures forall n :: n in r <==> n in ids && n !in placed
    ensures NoDup(ids) ==> NoDup(r)
  {
    if ids == [] then []
    else
      var rest := Unplaced(ids[1..], placed);
      assert forall n :: n in ids <==> n == ids[0] || n in ids[1..];
      assert NoDup(ids) ==> NoDup(ids[1..]) && ids[0] !in ids[1..];
      if ids[0] !in placed then [ids[0]] + rest else rest
  }

  /**
   * The unplaced ids keep the node map's key order: the filter distributes
   * over concatenation, and a single id is kept exactly when it is unplaced.
   */
  lemma {:induction false} UnplacedInOrder(a: seq<NodeId>, b: seq<NodeId>, placed: set<NodeId>)
    ensures Unplaced(a + b, placed) == Unplaced(a, placed) + Unplaced(b, placed)
  {
    if a == [] {
      assert a + b == b;
    } else {
      var head := if a[0] !in placed then [a[0]] else [];
      assert Unplaced(a + b, placed) == head + Unplaced(a[1..] + b, placed) by {
        assert (a + b)[0] == a[0] && (a + b)[1..] == a[1..] + b;
      }
      assert Unplaced(a, placed) == head + Unplaced(a[1..], placed);
      UnplacedInOrder(a[1..], b, placed);
      ConcatAssoc(head, Unplaced(a[1..], placed), Unplaced(b, placed));
    }
  }

  /** `find_all_chains` on the component's graph. */
  function FoundChains(nodes: seq<Node>, links: seq<Link>, ghost rank: map<NodeId, nat>): seq<seq<NodeId>>
    requires ChainsTerminate(nodes, links, rank)
  {
    TerminationRanks(nodes, links, rank);
    AllChains(ChildMap(nodes, links), rank, StartNodes(Ids(nodes), ParentMap(nodes, links)))
  }

  /** Every node a chain visits is a node of the component. */
  lemma ChainNodesKnown(nodes: seq<Node>, links: seq<Link>, rank: map<NodeId, nat>, c: seq<NodeId>)
    requires ChainsTerminate(nodes, links, rank)
    requires c in FoundChains(nodes, links, rank)
    ensures forall k :: 0 <= k < |c| ==> c[k] in IdSet(nodes)
  {
    TerminationRanks(nodes, links, rank);
    var children := ChildMap(nodes, links);
    var starts := StartNodes(Ids(nodes), ParentMap(nodes, links));
    AllChainsExact(children, rank, starts);
    IdsAreIdSet(nodes);
    forall k | 0 <= k < |c| ensures c[k] in IdSet(nodes) {
      if k == 0 {
        var s := c[0];
        assert s in starts;
      } else {
        var p := c[k - 1];
        assert c[k] in Lookup(children, p);
        TargetsKnown(links, IdSet(nodes), p);
      }
    }
  }

  /** `[chain for chain in chains if len(chain) == max_length]` */
  function Longest(chains: seq<seq<NodeId>>): seq<seq<NodeId>>
    requires chains != []
  {
    OfLength(chains, MaxLength(chains))
  }

  /** The longest chains: at least one, all of the same length. */
  predicate SameLength(chains: seq<seq<NodeId>>) {
    chains != [] && forall j :: 0 <= j < |chains| ==> |chains[j]| == |chains[0]|
  }

  lemma LongestFacts(chains: seq<seq<NodeId>>)
    requires chains != []
    ensures SameLength(Longest(chains)) && |Longest(chains)[0]| == MaxLength(chains)
    ensures forall j :: 0 <= j < |Longest(chains)| ==> Longest(chains)[j] in chains
  {
    var m := MaxLength(chains);
    var r := Longest(chains);
    var i :| 0 <= i < |chains| && |chains[i]| == m;
    assert chains[i] in r;
    forall j | 0 <= j < |r| ensures |r[j]| == m && r[j] in chains {
      assert r[j] in r;
    }
  }

  lemma LongestOnMap(nodes: seq<Node>, links: seq<Link>, rank: map<NodeId, nat>)
    requires ChainsTerminate(nodes, links, rank) && FoundChains(nodes, links, rank) != []
    ensures OnMap(Longest(FoundChains(nodes, links, rank)), NodeMap(nodes))
  {
    var chains := FoundChains(nodes, links, rank);
    var longest := Longest(chains);
    LongestFacts(chains);
    forall j, c | 0 <= j < |longest| && 0 <= c < |longest[j]| ensures longest[j][c] in NodeMap(nodes) {
      ChainNodesKnown(nodes, links, rank, longest[j]);
    }
  }

  /** The chain placement together with the column tables it leaves. */
  datatype ChainLayout = ChainLayout(count: nat, placed: Placement, st: ColumnState)

  /**
   * Phases A and B: the chain columns and their widths, their x positions,
   * the chain placement, and each placed node's column read back from its x.
   */
  function ChainPhase(longest: seq<seq<NodeId>>, nodeMap: map<NodeId, Node>, startY: int): ChainLayout
    requires SameLength(longest) && OnMap(longest, nodeMap)
  {
    var count := |longest[0]|;
    ChainWidthsKeys(longest, nodeMap);
    var widths := ChainWidths(longest, nodeMap);
    assert forall c :: 0 <= c < count ==> c in widths by {
      forall c | 0 <= c < count ensures c in widths {
        assert 0 <= c < |longest[0]|;
      }
    }
    var columnX := ColumnXs(widths, count);
    assert Covers(longest, columnX) by {
      forall ch, c | ch in longest && 0 <= c < |ch| ensures c in columnX {
        var j :| 0 <= j < |longest| && longest[j] == ch;
      }
    }
    var placed := PlaceChains(longest, columnX, startY);
    PlaceChainsFacts(longest, columnX, startY);
    var posToColumn := PosToColumn(columnX, count);
    var column := NodeColumns(placed.order, placed.positions, posToColumn);
    ChainLayout(count, placed, ColumnState(columnX, widths, column, Mapped(placed.order, placed.positions, posToColumn)))
  }

  /** The chain columns: widths cover their nodes, and x runs side by side from the left margin. */
  lemma ChainColumnsFacts(longest: seq<seq<NodeId>>, nodeMap: map<NodeId, Node>)
    requires SameLength(longest) && OnMap(longest, nodeMap)
    ensures var count := |longest[0]|;
      var widths := ChainWidths(longest, nodeMap);
      && (forall c :: c in widths <==> 0 <= c < count)
      && (forall j, c :: 0 <= j < |longest| && 0 <= c < |longest[j]| ==> widths[c] >= Width(nodeMap, longest[j][c]))
      && (var columnX := ColumnXs(widths, count);
          && SideBySide(columnX, widths, count)
          && (forall a, b :: 0 <= a < b < count ==> columnX[a] < columnX[b])
          && Covers(longest, columnX))
  {
    var count := |longest[0]|;
    ChainWidthsMeaning(longest, nodeMap);
    var widths := ChainWidths(longest, nodeMap);
    assert forall c :: c in widths <==> 0 <= c < count by {
      forall c ensures c in widths <==> 0 <= c < count {
        if c in widths {
          var j :| 0 <= j < |longest| && 0 <= c < |longest[j]|;
        }
      }
    }
    ColumnXsSideBySide(widths, count);
    var columnX := ColumnXs(widths, count);
    SideBySideIncreasing(columnX, widths, count);
    forall ch, c | ch in longest && 0 <= c < |ch| ensures c in columnX {
      var j :| 0 <= j < |longest| && longest[j] == ch;
    }
  }

  /** The chain placement: each chain node once, at the x of the column of its first visit. */
  lemma ChainPhasePlaced(longest: seq<seq<NodeId>>, nodeMap: map<NodeId, Node>, startY: int)
    requires SameLength(longest) && OnMap(longest, nodeMap)
    ensures var cl := ChainPhase(longest, nodeMap, startY);
      && cl.count == |longest[0]|
      && SideBySide(cl.st.x, cl.st.w, cl.count)
      && WellPlaced(cl.placed) && cl.placed.positions.Keys == Elems(Flatten(longest))
      && (forall n, j, c :: FirstVisit(longest, n, j, c) ==>
            n in cl.placed.positions && cl.placed.positions[n] == Pos(cl.st.x[c], RowY(startY, j)))
  {
    ChainColumnsFacts(longest, nodeMap);
    var columnX := ColumnXs(ChainWidths(longest, nodeMap), |longest[0]|);
    PlaceChainsFacts(longest, columnX, startY);
  }

  /** Reading the columns back from x gives every placed node a column whose x is its own. */
  lemma ChainPhaseRecovered(longest: seq<seq<NodeId>>, nodeMap: map<NodeId, Node>, startY: int)
    requires SameLength(longest) && OnMap(longest, nodeMap)
    ensures var cl := ChainPhase(longest, nodeMap, startY);
      && cl.st.column.Keys == cl.placed.positions.Keys && cl.st.order == cl.placed.order
      && (forall n :: n in cl.placed.positions ==>
            0 <= cl.st.column[n] < cl.count && cl.st.x[cl.st.column[n]] == cl.placed.positions[n].x)
  {
    ChainColumnsFacts(longest, nodeMap);
    ChainPhasePlaced(longest, nodeMap, startY);
    var cl := ChainPhase(longest, nodeMap, startY);
    var placed, columnX, count := cl.placed, cl.st.x, cl.count;
    forall n | n in placed.positions ensures exists c :: 0 <= c < count && columnX[c] == placed.positions[n].x {
      FlattenMember(longest, n);
      FirstVisitExists(longest, n);
      var j, c :| FirstVisit(longest, n, j, c);
    }
    PlacedColumnsExact(columnX, count, placed.positions, placed.order);
  }

  /** Every chain node lands in the column of its first visit. */
  lemma ChainPhaseColumns(longest: seq<seq<NodeId>>, nodeMap: map<NodeId, Node>, startY: int)
    requires SameLength(longest) && OnMap(longest, nodeMap)
    ensures var cl := ChainPhase(longest, nodeMap, startY);
      forall n, j, c :: FirstVisit(longest, n, j, c) ==> n in cl.st.column && cl.st.column[n] == c
  {
    ChainColumnsFacts(longest, nodeMap);
    ChainPhasePlaced(longest, nodeMap, startY);
    ChainPhaseRecovered(longest, nodeMap, startY);
    var cl := ChainPhase(longest, nodeMap, startY);
    forall n, j, c | FirstVisit(longest, n, j, c) ensures n in cl.st.column && cl.st.column[n] == c {
      var col := cl.st.column[n];
      assert cl.st.x[col] == cl.st.x[c];
      assert !(col < c) && !(c < col);
    }
  }

  /** The tables Phase C starts from are consistent, and every chain node fits its column. */
  lemma ChainPhaseState(longest: seq<seq<NodeId>>, nodeMap: map<NodeId, Node>, startY: int)
    requires SameLength(longest) && OnMap(longest, nodeMap)
    ensures var cl := ChainPhase(longest, nodeMap, startY);
      Consistent(cl.st) && WidthsCover(cl.st, nodeMap)
  {
    ChainColumnsFacts(longest, nodeMap);
    ChainPhasePlaced(longest, nodeMap, startY);
    ChainPhaseRecovered(longest, nodeMap, startY);
    ChainPhaseColumns(longest, nodeMap, startY);
    var cl := ChainPhase(longest, nodeMap, startY);
    forall n | n in cl.st.column
      ensures cl.st.column[n] in cl.st.x && n in nodeMap && cl.st.column[n] in cl.st.w && cl.st.w[cl.st.column[n]] >= Width(nodeMap, n)
    {
      assert n in Elems(Flatten(longest));
      FirstVisitExists(longest, n);
      var j, c :| FirstVisit(longest, n, j, c);
    }
  }

  /** Phases A and B on the longest of the component's chains. */
  function Chained(nodes: seq<Node>, links: seq<Link>, startY: int, ghost rank: map<NodeId, nat>): ChainLayout
    requires ChainsTerminate(nodes, links, rank) && FoundChains(nodes, links, rank) != []
  {
    LongestFacts(FoundChains(nodes, links, rank));
    LongestOnMap(nodes, links, rank);
    ChainPhase(Longest(FoundChains(nodes, links, rank)), NodeMap(nodes), startY)
  }

  /**
   * Phase C runs only when there are more nodes than placed nodes; it gives a
   * column to every node of the node map not placed by the chains, in node order.
   */
  function PhaseC(nodes: seq<Node>, links: seq<Link>, cl: ChainLayout): ColumnState
    requires cl.st.x.Keys == cl.st.w.Keys
  {
    if |nodes| - |cl.placed.positions| > 0 then
      IdsAreIdSet(nodes);
      AssignAll(cl.st, Unplaced(Ids(nodes), cl.placed.positions.Keys), NodeMap(nodes), ChildMap(nodes, links), ParentMap(nodes, links))
    else cl.st
  }

  /** The column tables Step 5 starts from: x, widths, and every node's column in assignment order. */
  function Plan(nodes: seq<Node>, links: seq<Link>, startY: int, ghost rank: map<NodeId, nat>): ColumnState
    requires ChainsTerminate(nodes, links, rank) && FoundChains(nodes, links, rank) != []
  {
    var chains := FoundChains(nodes, links, rank);
    LongestFacts(chains);
    LongestOnMap(nodes, links, rank);
    ChainPhaseState(Longest(chains), NodeMap(nodes), startY);
    PhaseC(nodes, links, Chained(nodes, links, startY, rank))
  }

  /** Column tables Step 5 can work from. */
  predicate Ready(st: ColumnState, nodeMap: map<NodeId, Node>) {
    Consistent(st) && WidthsCover(st, nodeMap) && forall n :: n in st.order ==> n in st.column
  }

  /** `sorted(columns_to_nodes.keys())` */
  function ColumnKeys(st: ColumnState): seq<int>
    requires forall n :: n in st.order ==> n in st.column
  {
    SortInts(FirstUses(st.order, st.column))
  }

  /** `columns_to_nodes` holds every assigned node once, under its own column. */
  lemma GroupsByColumn(order: seq<NodeId>, column: map<NodeId, int>)
    requires forall n :: n in order ==> n in column
    ensures forall c :: c in ColumnGroups(order, column) <==> c in FirstUses(order, column)
    ensures forall c, n :: c in ColumnGroups(order, column) && n in ColumnGroups(order, column)[c] ==> n in order && column[n] == c
    ensures forall n :: n in order ==> column[n] in ColumnGroups(order, column) && n in ColumnGroups(order, column)[column[n]]
    ensures NoDup(order) ==> forall c :: c in ColumnGroups(order, column) ==> NoDup(ColumnGroups(order, column)[c])
  {
    var groups := ColumnGroups(order, column);
    FirstUsesMeaning(order, column);
    forall c | c in groups ensures forall n :: n in groups[c] ==> n in order && column[n] == c {
      InColumnMembers(order, column, c);
    }
    forall n | n in order ensures column[n] in groups && n in groups[column[n]] {
      InColumnMembers(order, column, column[n]);
    }
    if NoDup(order) {
      forall c | c in groups ensures NoDup(groups[c]) {
        InColumnMembers(order, column, c);
      }
    }
  }

  /** The sorted keys are exactly the used columns, each once. */
  lemma KeysMatchGroups(order: seq<NodeId>, column: map<NodeId, int>)
    requires forall n :: n in order ==> n in column
    ensures NoDup(SortInts(FirstUses(order, column)))
    ensures forall c :: c in ColumnGroups(order, column) <==> c in SortInts(FirstUses(order, column))
  {
    var uses := FirstUses(order, column);
    FirstUsesMeaning(order, column);
    SortedColumns(uses);
    forall c ensures c in ColumnGroups(order, column) <==> c in SortInts(uses) {
      assert c in SortInts(uses) <==> c in Elems(SortInts(uses));
      assert c in uses <==> c in Elems(uses);
    }
  }

  /** Every used column has an x position and a width, and every grouped node is a node of the map. */
  lemma GroupsHaveColumns(st: ColumnState, nodeMap: map<NodeId, Node>)
    requires Ready(st, nodeMap)
    ensures forall c :: c in ColumnGroups(st.order, st.column) ==> c in st.x && c in st.w
    ensures forall c, n :: c in ColumnGroups(st.order, st.column) && n in ColumnGroups(st.order, st.column)[c] ==> n in nodeMap
  {
    var groups := ColumnGroups(st.order, st.column);
    FirstUsesMeaning(st.order, st.column);
    forall c | c in groups ensures c in st.x && c in st.w && forall n :: n in groups[c] ==> n in nodeMap {
      assert groups[c] == InColumn(st.order, st.column, c) != [];
      InColumnMembers(st.order, st.column, c);
      var n := groups[c][0];
      assert n in groups[c];
      assert n in st.column && st.column[n] == c;
    }
  }

  /** The grouping, the sorted keys and the tables agree. */
  lemma ReadyGrouped(st: ColumnState, nodeMap: map<NodeId, Node>)
    requires Ready(st, nodeMap)
    ensures var groups := ColumnGroups(st.order, st.column);
      && Grouped(ColumnKeys(st), groups, st.x, nodeMap)
      && Grouped(ColumnKeys(st), groups, st.w, nodeMap)
      && (0 in groups ==> 0 in st.x && forall n :: n in groups[0] ==> n in nodeMap)
      && NoDup(ColumnKeys(st))
      && (forall c :: c in groups <==> c in ColumnKeys(st))
  {
    KeysMatchGroups(st.order, st.column);
    GroupsHaveColumns(st, nodeMap);
  }

  /** Grouped nodes are grouped under their own column; every assigned node is in some group. */
  lemma ReadyByColumn(st: ColumnState, nodeMap: map<NodeId, Node>)
    requires Ready(st, nodeMap) && NoDup(st.order)
    ensures ByColumn(ColumnGroups(st.order, st.column), st.column)
    ensures forall c :: c in ColumnKeys(st) ==> c in ColumnGroups(st.order, st.column)
    ensures Members(ColumnKeys(st), ColumnGroups(st.order, st.column)) == Elems(st.order)
  {
    GroupsByColumn(st.order, st.column);
    ReadyMembers(st, nodeMap);
  }

  /** The columns' groups hold exactly the assigned nodes. */
  lemma ReadyMembers(st: ColumnState, nodeMap: map<NodeId, Node>)
    requires Ready(st, nodeMap)
    ensures forall c :: c in ColumnKeys(st) ==> c in ColumnGroups(st.order, st.column)
    ensures Members(ColumnKeys(st), ColumnGroups(st.order, st.column)) == Elems(st.order)
  {
    var groups := ColumnGroups(st.order, st.column);
    var keys := ColumnKeys(st);
    ReadyGrouped(st, nodeMap);
    GroupsByColumn(st.order, st.column);
    forall n ensures n in Members(keys, groups) <==> n in Elems(st.order) {
      MembersMeaning(keys, groups, n);
      if n in st.order {
        var c := st.column[n];
        assert c in keys;
      }
    }
  }

  /** Step 5 on the column tables: every used column sorted and stacked, in ascending column order. */
  function Stacked(st: ColumnState, links: seq<Link>, startY: int, nodeMap: map<NodeId, Node>): Arrangement
    requires Ready(st, nodeMap)
  {
    ReadyGrouped(st, nodeMap);
    StackColumns(Arrangement(map[], map[]), ColumnKeys(st), ColumnGroups(st.order, st.column), st.x, links, startY, nodeMap)
  }

  /** Steps 5 and 5b on the column tables. */
  function Arranged(st: ColumnState, links: seq<Link>, startY: int, nodeMap: map<NodeId, Node>): Arrangement
    requires Ready(st, nodeMap)
  {
    ReadyGrouped(st, nodeMap);
    ResortFirstColumn(Stacked(st, links, startY, nodeMap), ColumnGroups(st.order, st.column), st.x, links, startY, nodeMap)
  }

  /** The sizes loop: every node takes its column's width and keeps its height. */
  function Sized(st: ColumnState, nodeMap: map<NodeId, Node>): map<NodeId, Size>
    requires Ready(st, nodeMap)
  {
    ReadyGrouped(st, nodeMap);
    SizeColumns(map[], ColumnKeys(st), ColumnGroups(st.order, st.column), st.w, nodeMap)
  }

  /** The column tables are ready for Step 5 whatever the ids. */
  lemma PlanReady(nodes: seq<Node>, links: seq<Link>, startY: int, rank: map<NodeId, nat>)
    requires ChainsTerminate(nodes, links, rank) && FoundChains(nodes, links, rank) != []
    ensures Ready(Plan(nodes, links, startY, rank), NodeMap(nodes))
  {
    var chains := FoundChains(nodes, links, rank);
    var nodeMap := NodeMap(nodes);
    LongestFacts(chains);
    LongestOnMap(nodes, links, rank);
    var longest := Longest(chains);
    ChainPhaseState(longest, nodeMap, startY);
    ChainPhasePlaced(longest, nodeMap, startY);
    ChainPhaseRecovered(longest, nodeMap, startY);
    var cl := Chained(nodes, links, startY, rank);
    assert cl == ChainPhase(longest, nodeMap, startY);
    assert forall n :: n in cl.st.order ==> n in cl.st.column by {
      assert Elems(cl.placed.order) == cl.placed.positions.Keys;
    }
    if |nodes| - |cl.placed.positions| > 0 {
      IdsAreIdSet(nodes);
      var pending := Unplaced(Ids(nodes), cl.placed.positions.Keys);
      AssignAllFacts(cl.st, pending, nodeMap, ChildMap(nodes, links), ParentMap(nodes, links));
    }
  }

  /**
   * organize_single_component: the message, the new positions and the new
   * sizes, for a component whose ids are unique and whose chain search ends.
   */
  function Layout(nodes: seq<Node>, links: seq<Link>, startY: int, ghost rank: map<NodeId, nat>): LayoutResult
    requires DistinctIds(nodes) && ChainsTerminate(nodes, links, rank)
  {
    if nodes == [] then LayoutResult(NoNodesToOrganize, map[], Some(map[]))
    else if FoundChains(nodes, links, rank) == [] then LayoutResult(NoChainsToOrganize, map[], None)
    else
      var nodeMap := NodeMap(nodes);
      var st := Plan(nodes, links, startY, rank);
      PlanReady(nodes, links, startY, rank);
      var a := Arranged(st, links, startY, nodeMap);
      LayoutResult(Positioned(|a.positions|), a.positions, Some(Sized(st, nodeMap)))
  }

  /** Phases A, B and C: the column tables for a component with at least one chain. */
  method PlanColumns(nodes: seq<Node>, links: seq<Link>, startY: int, ghost rank: map<NodeId, nat>,
                     nodeMap: map<NodeId, Node>, children: map<NodeId, seq<NodeId>>, parents: map<NodeId, seq<NodeId>>,
                     chains: seq<seq<NodeId>>)
    returns (st: ColumnState)
    requires ChainsTerminate(nodes, links, rank)
    requires nodeMap == NodeMap(nodes) && children == ChildMap(nodes, links) && parents == ParentMap(nodes, links)
    requires chains == FoundChains(nodes, links, rank) && chains != []
    ensures st == Plan(nodes, links, startY, rank)
  {
    // Phases A and B: the longest chains fix the first columns.
    var maxLength := MaxLength(chains);
    var longest := OfLength(chains, maxLength);
    LongestFacts(chains);
    LongestOnMap(nodes, links, rank);
    var count := |longest[0]|;
    var columnWidths := ChainColumnWidths(longest, nodeMap);
    ChainColumnsFacts(longest, nodeMap);
    var columnX := ColumnPositions(columnWidths, count);
    var positions, order := PlaceLongestChains(longest, columnX, startY);
    PlaceChainsFacts(longest, columnX, startY);

    // Phase C: both branches of the source read each placed node's column back from its x.
    var column, columnOrder := PlacedColumns(columnX, count, positions, order);
    st := ColumnState(columnX, columnWidths, column, columnOrder);
    ghost var cl := ChainPhase(longest, nodeMap, startY);
    assert st == cl.st && Placement(positions, order) == cl.placed;
    ChainPhaseState(longest, nodeMap, startY);
    if |nodes| - |positions| > 0 {
      var unpositioned := Unplaced(Ids(nodes), positions.Keys);
      IdsAreIdSet(nodes);
      st := AssignRemaining(st, unpositioned, nodeMap, children, parents);
    }
  }

  /** Steps 5 and 5b and the widths, on ready column tables. */
  method ArrangeColumns(st: ColumnState, links: seq<Link>, startY: int, nodeMap: map<NodeId, Node>)
    returns (newPositions: map<NodeId, Pos>, sizes: map<NodeId, Size>)
    requires Ready(st, nodeMap)
    ensures newPositions == Arranged(st, links, startY, nodeMap).positions
    ensures sizes == Sized(st, nodeMap)
  {
    ReadyGrouped(st, nodeMap);
    // Step 5: group by column, then sort and stack each column in ascending column order.
    var groups, firstUses := GroupByColumn(st.order, st.column);
    var keys := SortInts(firstUses);
    ghost var orders;
    newPositions, orders := StackAllColumns(keys, groups, st.x, links, startY, nodeMap);
    // Step 5b.
    newPositions, orders := ResortColumnZero(newPositions, orders, groups, st.x, links, startY, nodeMap);
    sizes := ColumnSizes(keys, groups, st.w, nodeMap);
  }

  /** organize_single_component: the graph, the chains, the column tables, the arrangement and the widths. */
  method OrganizeSingleComponent(nodes: seq<Node>, links: seq<Link>, startY: int, ghost rank: map<NodeId, nat>)
    returns (r: LayoutResult)
    requires DistinctIds(nodes) && ChainsTerminate(nodes, links, rank)
    ensures r == Layout(nodes, links, startY, rank)
  {
    if |nodes| == 0 {
      return LayoutResult(NoNodesToOrganize, map[], Some(map[]));
    }
    var nodeMap, children, parents := BuildNodeGraph(nodes, links);
    TerminationRanks(nodes, links, rank);
    var chains := FindAllChains(Ids(nodes), children, parents, rank);
    if |chains| == 0 {
      return LayoutResult(NoChainsToOrganize, map[], None);
    }
    var st := PlanColumns(nodes, links, startY, rank, nodeMap, children, parents, chains);
    PlanReady(nodes, links, startY, rank);
    var newPositions, sizes := ArrangeColumns(st, links, startY, nodeMap);
    r := LayoutResult(Positioned(|newPositions|), newPositions, Some(sizes));
  }

  /** A node is a root when no known link enters it. */
  predicate HasRoot(nodes: seq<Node>, links: seq<Link>) {
    exists n :: n in IdSet(nodes) && Origins(links, IdSet(nodes), n) == []
  }

  /** The search finds a chain exactly when some node is a root. */
  lemma ChainsIffRoot(nodes: seq<Node>, links: seq<Link>, rank: map<NodeId, nat>)
    requires ChainsTerminate(nodes, links, rank)
    ensures FoundChains(nodes, links, rank) != [] <==> HasRoot(nodes, links)
  {
    TerminationRanks(nodes, links, rank);
    var starts := StartNodes(Ids(nodes), ParentMap(nodes, links));
    AllChainsNonEmpty(ChildMap(nodes, links), rank, starts);
    IdsAreIdSet(nodes);
    if HasRoot(nodes, links) {
      var n :| n in IdSet(nodes) && Origins(links, IdSet(nodes), n) == [];
      assert n in Elems(Ids(nodes));
      assert n in starts;
    }
    if starts != [] {
      assert starts[0] in starts;
    }
  }

  /** Without a root (every node has a parent, as in a pure cycle) the layout is empty and carries no sizes. */
  lemma NoRootLayout(nodes: seq<Node>, links: seq<Link>, startY: int, rank: map<NodeId, nat>)
    requires DistinctIds(nodes) && ChainsTerminate(nodes, links, rank)
    requires nodes != []
    ensures Layout(nodes, links, startY, rank).message == NoChainsToOrganize <==> !HasRoot(nodes, links)
    ensures !HasRoot(nodes, links) ==> Layout(nodes, links, startY, rank) == LayoutResult(NoChainsToOrganize, map[], None)
  {
    ChainsIffRoot(nodes, links, rank);
  }

  /** A subset at least as large as its superset is the whole superset. */
  lemma SubsetAsLarge<T>(a: set<T>, b: set<T>)
    requires a <= b && |a| >= |b|
    ensures a == b
  {
    if a != b {
      assert !(b <= a);
      var x :| x in b && x !in a;
      assert a <= b - {x};
      assert |b - {x}| == |b| - 1;
      SubsetCard(a, b - {x});
    }
  }

  lemma {:induction false} SubsetCard<T>(a: set<T>, b: set<T>)
    requires a <= b
    ensures |a| <= |b|
    decreases |b|
  {
    if b != {} {
      var x :| x in b;
      SubsetCard(a - {x}, b - {x});
    }
  }

  /** The chains place only nodes of the component. */
  lemma ChainedWithin(nodes: seq<Node>, links: seq<Link>, startY: int, rank: map<NodeId, nat>)
    requires ChainsTerminate(nodes, links, rank) && FoundChains(nodes, links, rank) != []
    ensures var cl := Chained(nodes, links, startY, rank);
      && WellPlaced(cl.placed) && cl.placed.positions.Keys <= IdSet(nodes)
      && cl.st.column.Keys == cl.placed.positions.Keys && cl.st.order == cl.placed.order
  {
    var chains := FoundChains(nodes, links, rank);
    LongestFacts(chains);
    LongestOnMap(nodes, links, rank);
    var longest := Longest(chains);
    ChainPhasePlaced(longest, NodeMap(nodes), startY);
    ChainPhaseRecovered(longest, NodeMap(nodes), startY);
    forall n | n in Elems(Flatten(longest)) ensures n in IdSet(nodes) {
      FlattenMember(longest, n);
      var k :| 0 <= k < |longest| && n in longest[k];
      var i :| 0 <= i < |longest[k]| && longest[k][i] == n;
    }
  }

  /** What Phase C starts from: the chain nodes, each once, with their columns. */
  predicate ChainStart(nodes: seq<Node>, cl: ChainLayout) {
    && Consistent(cl.st) && WidthsCover(cl.st, NodeMap(nodes))
    && WellPlaced(cl.placed) && cl.placed.positions.Keys <= IdSet(nodes)
    && cl.st.column.Keys == cl.placed.positions.Keys && cl.st.order == cl.placed.order
  }

  /** Appending exactly the missing elements, once each, lists every element once. */
  lemma AppendMissing(order: seq<NodeId>, pending: seq<NodeId>, all: set<NodeId>)
    requires NoDup(order) && Elems(order) <= all && NoDup(pending)
    requires forall n :: n in pending <==> n in all && n !in Elems(order)
    ensures NoDup(order + pending)
    ensures Elems(order) + Elems(pending) == all && Elems(order + pending) == all
  {
    forall x | x in order ensures x !in pending {
      assert x in Elems(order);
    }
    NoDupConcat(order, pending);
    forall n ensures n in Elems(order + pending) <==> n in all {
      assert n in order + pending <==> n in order || n in pending;
    }
  }

  /** When nodes remain, Phase C appends each of them, once, to the assignment order. */
  lemma PhaseCAssigns(nodes: seq<Node>, links: seq<Link>, cl: ChainLayout)
    requires DistinctIds(nodes) && ChainStart(nodes, cl)
    requires |nodes| - |cl.placed.positions| > 0
    ensures var st := PhaseC(nodes, links, cl);
      NoDup(st.order) && Elems(st.order) == IdSet(nodes) && st.column.Keys == IdSet(nodes)
  {
    DistinctIdsCount(nodes);
    IdsAreIdSet(nodes);
    var pending := Unplaced(Ids(nodes), cl.placed.positions.Keys);
    var st := AssignAll(cl.st, pending, NodeMap(nodes), ChildMap(nodes, links), ParentMap(nodes, links));
    assert st == PhaseC(nodes, links, cl);
    AssignAllFacts(cl.st, pending, NodeMap(nodes), ChildMap(nodes, links), ParentMap(nodes, links));
    assert forall n :: n in Ids(nodes) <==> n in IdSet(nodes);
    AppendMissing(cl.placed.order, pending, IdSet(nodes));
  }

  /** When no node remains by count, the chains have already placed every node. */
  lemma PhaseCSkipped(nodes: seq<Node>, links: seq<Link>, cl: ChainLayout)
    requires DistinctIds(nodes) && ChainStart(nodes, cl)
    requires |nodes| - |cl.placed.positions| <= 0
    ensures var st := PhaseC(nodes, links, cl);
      NoDup(st.order) && Elems(st.order) == IdSet(nodes) && st.column.Keys == IdSet(nodes)
  {
    DistinctIdsCount(nodes);
    var placed := cl.placed.positions.Keys;
    assert |cl.placed.positions| == |placed|;
    SubsetAsLarge(placed, IdSet(nodes));
  }

  /** After Phase C every node of the component has exactly one column, listed once in assignment order. */
  lemma PlanCovers(nodes: seq<Node>, links: seq<Link>, startY: int, rank: map<NodeId, nat>)
    requires DistinctIds(nodes) && ChainsTerminate(nodes, links, rank) && FoundChains(nodes, links, rank) != []
    ensures var st := Plan(nodes, links, startY, rank);
      NoDup(st.order) && Elems(st.order) == IdSet(nodes) && st.column.Keys == IdSet(nodes)
  {
    var chains := FoundChains(nodes, links, rank);
    LongestFacts(chains);
    LongestOnMap(nodes, links, rank);
    ChainPhaseState(Longest(chains), NodeMap(nodes), startY);
    ChainedWithin(nodes, links, startY, rank);
    var cl := Chained(nodes, links, startY, rank);
    if |nodes| - |cl.placed.positions| > 0 {
      PhaseCAssigns(nodes, links, cl);
    } else {
      PhaseCSkipped(nodes, links, cl);
    }
  }

  /** Each used column is stacked from `startY` at its x, in an order that is a permutation of its nodes. */
  ghost predicate ColumnsStacked(st: ColumnState, a: Arrangement, startY: int, nodeMap: map<NodeId, Node>)
    requires forall n :: n in st.order ==> n in st.column
  {
    forall c :: c in ColumnGroups(st.order, st.column) ==>
      && c in a.orders && c in st.x
      && multiset(a.orders[c]) == multiset(ColumnGroups(st.order, st.column)[c])
      && StackedFrom(a.positions, a.orders[c], st.x[c], startY, nodeMap)
  }

  /** After Step 5 every used column is stacked. */
  lemma StackedShape(st: ColumnState, links: seq<Link>, startY: int, nodeMap: map<NodeId, Node>)
    requires Ready(st, nodeMap) && NoDup(st.order)
    ensures ColumnsStacked(st, Stacked(st, links, startY, nodeMap), startY, nodeMap)
  {
    ReadyGrouped(st, nodeMap);
    ReadyByColumn(st, nodeMap);
    StackColumnsShape(Arrangement(map[], map[]), ColumnKeys(st), ColumnGroups(st.order, st.column), st.x, links, startY, nodeMap, st.column);
  }

  /** Step 5b keeps every used column stacked: column 0 is re-stacked, the others are not moved. */
  lemma ArrangedStacked(st: ColumnState, links: seq<Link>, startY: int, nodeMap: map<NodeId, Node>)
    requires Ready(st, nodeMap) && NoDup(st.order)
    ensures ColumnsStacked(st, Arranged(st, links, startY, nodeMap), startY, nodeMap)
  {
    var groups := ColumnGroups(st.order, st.column);
    var a := Arranged(st, links, startY, nodeMap);
    forall c | c in groups
      ensures c in a.orders && c in st.x && multiset(a.orders[c]) == multiset(groups[c])
      ensures StackedFrom(a.positions, a.orders[c], st.x[c], startY, nodeMap)
    {
      if c == 0 && 1 in groups {
        var stacked := Stacked(st, links, startY, nodeMap);
        assert 0 in st.x && forall n :: n in groups[0] ==> n in nodeMap by {
          ReadyGrouped(st, nodeMap);
        }
        assert NoDup(groups[0]) by {
          assert groups[0] == InColumn(st.order, st.column, 0);
          InColumnMembers(st.order, st.column, 0);
        }
        assert a == ResortFirstColumn(stacked, groups, st.x, links, startY, nodeMap);
        ResortFirstColumnShape(stacked, groups, st.x, links, startY, nodeMap);
      } else {
        ArrangedKeepsColumn(st, links, startY, nodeMap, c);
      }
    }
  }

  /** Step 5b leaves every used column other than a re-sorted column 0 as Step 5 stacked it. */
  lemma ArrangedKeepsColumn(st: ColumnState, links: seq<Link>, startY: int, nodeMap: map<NodeId, Node>, c: int)
    requires Ready(st, nodeMap) && NoDup(st.order)
    requires c in ColumnGroups(st.order, st.column) && !(c == 0 && 1 in ColumnGroups(st.order, st.column))
    ensures var a := Arranged(st, links, startY, nodeMap);
      && c in a.orders && c in st.x
      && multiset(a.orders[c]) == multiset(ColumnGroups(st.order, st.column)[c])
      && StackedFrom(a.positions, a.orders[c], st.x[c], startY, nodeMap)
  {
    var groups := ColumnGroups(st.order, st.column);
    var stacked := Stacked(st, links, startY, nodeMap);
    var a := Arranged(st, links, startY, nodeMap);
    assert 0 in groups ==> 0 in st.x && forall n :: n in groups[0] ==> n in nodeMap by {
      ReadyGrouped(st, nodeMap);
    }
    StackedShape(st, links, startY, nodeMap);
    assert c in stacked.orders && c in st.x;
    ResortFirstColumnOrders(stacked, groups, st.x, links, startY, nodeMap);
    ResortFirstColumnMoves(stacked, groups, st.x, links, startY, nodeMap);
    assert a == ResortFirstColumn(stacked, groups, st.x, links, startY, nodeMap);
    assert a.orders[c] == stacked.orders[c];
    var ns := stacked.orders[c];
    assert groups[c] == InColumn(st.order, st.column, c);
    InColumnMembers(st.order, st.column, c);
    if 0 in groups {
      assert groups[0] == InColumn(st.order, st.column, 0);
      InColumnMembers(st.order, st.column, 0);
    }
    forall i | 0 <= i < |ns| ensures ns[i] in a.positions && a.positions[ns[i]] == stacked.positions[ns[i]] {
      var n := ns[i];
      assert n in multiset(ns);
      assert n in groups[c];
      StackedMember(stacked.positions, ns, st.x[c], startY, nodeMap, n);
    }
    StackedFromFrame(stacked.positions, a.positions, ns, st.x[c], startY, nodeMap);
  }

  /** Step 5 positions exactly the assigned nodes. */
  lemma StackedCovers(st: ColumnState, links: seq<Link>, startY: int, nodeMap: map<NodeId, Node>)
    requires Ready(st, nodeMap) && NoDup(st.order)
    ensures forall n :: n in Stacked(st, links, startY, nodeMap).positions <==> n in st.order
  {
    ReadyGrouped(st, nodeMap);
    ReadyByColumn(st, nodeMap);
    StackColumnsMoves(Arrangement(map[], map[]), ColumnKeys(st), ColumnGroups(st.order, st.column), st.x, links, startY, nodeMap);
  }

  /** Steps 5 and 5b position exactly the assigned nodes. */
  lemma ArrangedCovers(st: ColumnState, links: seq<Link>, startY: int, nodeMap: map<NodeId, Node>)
    requires Ready(st, nodeMap) && NoDup(st.order)
    ensures forall n :: n in Arranged(st, links, startY, nodeMap).positions <==> n in st.order
  {
    var groups := ColumnGroups(st.order, st.column);
    assert 0 in groups ==> 0 in st.x && forall n :: n in groups[0] ==> n in nodeMap by {
      ReadyGrouped(st, nodeMap);
    }
    StackedCovers(st, links, startY, nodeMap);
    var stacked := Stacked(st, links, startY, nodeMap);
    ResortFirstColumnMoves(stacked, groups, st.x, links, startY, nodeMap);
    assert Arranged(st, links, startY, nodeMap) == ResortFirstColumn(stacked, groups, st.x, links, startY, nodeMap);
    if 0 in groups {
      assert groups[0] == InColumn(st.order, st.column, 0);
      InColumnMembers(st.order, st.column, 0);
    }
  }

  /** The sizes loop sizes exactly the assigned nodes. */
  lemma SizedCovers(st: ColumnState, nodeMap: map<NodeId, Node>)
    requires Ready(st, nodeMap) && NoDup(st.order)
    ensures Sized(st, nodeMap).Keys == Elems(st.order)
  {
    ReadyGrouped(st, nodeMap);
    ReadyByColumn(st, nodeMap);
    SizeColumnsKeeps(map[], ColumnKeys(st), ColumnGroups(st.order, st.column), st.w, nodeMap);
  }

  /** Every assigned node ends at its column's x. */
  lemma ArrangedColumns(st: ColumnState, links: seq<Link>, startY: int, nodeMap: map<NodeId, Node>)
    requires Ready(st, nodeMap) && NoDup(st.order)
    ensures forall n :: n in st.order ==>
      && n in Arranged(st, links, startY, nodeMap).positions
      && Arranged(st, links, startY, nodeMap).positions[n].x == st.x[st.column[n]]
  {
    GroupsByColumn(st.order, st.column);
    ArrangedStacked(st, links, startY, nodeMap);
    var groups := ColumnGroups(st.order, st.column);
    var a := Arranged(st, links, startY, nodeMap);
    forall n | n in st.order
      ensures n in a.positions && a.positions[n].x == st.x[st.column[n]]
    {
      var c := st.column[n];
      assert n in multiset(groups[c]);
      assert n in a.orders[c];
      StackedMember(a.positions, a.orders[c], st.x[c], startY, nodeMap, n);
    }
  }

  /** Every assigned node is sized `[column width, own height]`. */
  lemma SizedColumns(st: ColumnState, nodeMap: map<NodeId, Node>)
    requires Ready(st, nodeMap) && NoDup(st.order)
    ensures forall n :: n in st.order ==>
      && n in Sized(st, nodeMap) && n in nodeMap && st.column[n] in st.w
      && Sized(st, nodeMap)[n] == Size(st.w[st.column[n]], Height(nodeMap, n))
  {
    ReadyGrouped(st, nodeMap);
    ReadyByColumn(st, nodeMap);
    SizeColumnsValues(map[], ColumnKeys(st), ColumnGroups(st.order, st.column), st.w, nodeMap, st.column);
    assert forall n :: n in st.order ==> n in Elems(st.order);
  }

  /** Step 5b orders column 0 by the input ports its nodes feed, as Step 5 placed them. */
  lemma ArrangedFirstColumn(st: ColumnState, links: seq<Link>, startY: int, nodeMap: map<NodeId, Node>)
    requires Ready(st, nodeMap) && NoDup(st.order)
    requires 0 in ColumnGroups(st.order, st.column) && 1 in ColumnGroups(st.order, st.column)
    ensures SortedBy(Arranged(st, links, startY, nodeMap).orders[0],
                     (n: NodeId) => SortKey(links, Stacked(st, links, startY, nodeMap).positions, n, false), LexLess)
  {
    ReadyGrouped(st, nodeMap);
    GroupsByColumn(st.order, st.column);
    ResortFirstColumnShape(Stacked(st, links, startY, nodeMap), ColumnGroups(st.order, st.column), st.x, links, startY, nodeMap);
  }

  /** The arrangement of a component with a chain: Steps 5 and 5b on its column tables. */
  function Final(nodes: seq<Node>, links: seq<Link>, startY: int, ghost rank: map<NodeId, nat>): Arrangement
    requires ChainsTerminate(nodes, links, rank) && FoundChains(nodes, links, rank) != []
  {
    PlanReady(nodes, links, startY, rank);
    Arranged(Plan(nodes, links, startY, rank), links, startY, NodeMap(nodes))
  }

  /** With a root, the search finds a chain and the layout reports the final arrangement. */
  lemma LayoutArranged(nodes: seq<Node>, links: seq<Link>, startY: int, rank: map<NodeId, nat>)
    requires DistinctIds(nodes) && ChainsTerminate(nodes, links, rank)
    requires nodes != [] && HasRoot(nodes, links)
    ensures FoundChains(nodes, links, rank) != []
    ensures Layout(nodes, links, startY, rank).positions == Final(nodes, links, startY, rank).positions
    ensures Ready(Plan(nodes, links, startY, rank), NodeMap(nodes))
    ensures Layout(nodes, links, startY, rank).sizes == Some(Sized(Plan(nodes, links, startY, rank), NodeMap(nodes)))
  {
    ChainsIffRoot(nodes, links, rank);
    PlanReady(nodes, links, startY, rank);
  }

  /** A map keyed by exactly the members of `order` is keyed by the set of them. */
  lemma KeysOfOrder<V>(m: map<NodeId, V>, order: seq<NodeId>, ids: set<NodeId>)
    requires forall n :: n in m <==> n in order
    requires Elems(order) == ids
    ensures m.Keys == ids
  {
    forall n ensures n in m <==> n in ids {
      assert n in order <==> n in Elems(order);
    }
  }

  /** With a root, every node of the component is positioned. */
  lemma LayoutPositions(nodes: seq<Node>, links: seq<Link>, startY: int, rank: map<NodeId, nat>)
    requires DistinctIds(nodes) && ChainsTerminate(nodes, links, rank)
    requires nodes != [] && HasRoot(nodes, links)
    ensures Layout(nodes, links, startY, rank).positions.Keys == IdSet(nodes)
  {
    ChainsIffRoot(nodes, links, rank);
    var st := Plan(nodes, links, startY, rank);
    var nodeMap := NodeMap(nodes);
    PlanReady(nodes, links, startY, rank);
    assert Layout(nodes, links, startY, rank).positions == Arranged(st, links, startY, nodeMap).positions;
    assert NoDup(st.order) && Elems(st.order) == IdSet(nodes) by {
      PlanCovers(nodes, links, startY, rank);
    }
    ArrangedCovers(st, links, startY, nodeMap);
    KeysOfOrder(Arranged(st, links, startY, nodeMap).positions, st.order, IdSet(nodes));
  }

  /** With a root, every node of the component is sized. */
  lemma LayoutSizes(nodes: seq<Node>, links: seq<Link>, startY: int, rank: map<NodeId, nat>)
    requires DistinctIds(nodes) && ChainsTerminate(nodes, links, rank)
    requires nodes != [] && HasRoot(nodes, links)
    ensures var r := Layout(nodes, links, startY, rank);
      r.sizes.Some? && r.sizes.value.Keys == IdSet(nodes)
  {
    LayoutArranged(nodes, links, startY, rank);
    PlanCovers(nodes, links, startY, rank);
    SizedCovers(Plan(nodes, links, startY, rank), NodeMap(nodes));
  }

  /** With a root, every node of the component is positioned and sized, and the message counts them all. */
  lemma LayoutCovers(nodes: seq<Node>, links: seq<Link>, startY: int, rank: map<NodeId, nat>)
    requires DistinctIds(nodes) && ChainsTerminate(nodes, links, rank)
    requires nodes != [] && HasRoot(nodes, links)
    ensures var r := Layout(nodes, links, startY, rank);
      && r.positions.Keys == IdSet(nodes)
      && r.sizes.Some? && r.sizes.value.Keys == IdSet(nodes)
      && r.message == Positioned(|nodes|)
  {
    LayoutPositions(nodes, links, startY, rank);
    LayoutSizes(nodes, links, startY, rank);
    ChainsIffRoot(nodes, links, rank);
    DistinctIdsCount(nodes);
  }

  /**
   * Every node gets exactly one column; it ends at that column's x, no wider
   * than the column, with size `[column width, own height]`: nodes of one
   * column share one width.
   */
  lemma LayoutColumns(nodes: seq<Node>, links: seq<Link>, startY: int, rank: map<NodeId, nat>)
    requires DistinctIds(nodes) && ChainsTerminate(nodes, links, rank)
    requires nodes != [] && HasRoot(nodes, links)
    ensures FoundChains(nodes, links, rank) != []
    ensures var r := Layout(nodes, links, startY, rank);
      var st := Plan(nodes, links, startY, rank);
      forall n :: n in IdSet(nodes) ==>
        && n in st.column && st.column[n] in st.x && st.column[n] in st.w
        && n in r.positions && r.positions[n].x == st.x[st.column[n]]
        && r.sizes.Some? && n in r.sizes.value
        && r.sizes.value[n] == Size(st.w[st.column[n]], Height(NodeMap(nodes), n))
        && st.w[st.column[n]] >= Width(NodeMap(nodes), n)
  {
    LayoutArranged(nodes, links, startY, rank);
    PlanCovers(nodes, links, startY, rank);
    var st := Plan(nodes, links, startY, rank);
    ArrangedColumns(st, links, startY, NodeMap(nodes));
    SizedColumns(st, NodeMap(nodes));
    assert forall n :: n in IdSet(nodes) ==> n in Elems(st.order);
  }

  /**
   * Each used column is stacked from `startY` at its x, each node its height
   * plus 60 below the previous one, in an order that is a permutation of the
   * column's nodes; column 0, when column 1 is used too, in the order of the
   * input ports its nodes feed.
   */
  lemma LayoutStacked(nodes: seq<Node>, links: seq<Link>, startY: int, rank: map<NodeId, nat>)
    requires DistinctIds(nodes) && ChainsTerminate(nodes, links, rank)
    requires nodes != [] && HasRoot(nodes, links)
    ensures FoundChains(nodes, links, rank) != [] && Ready(Plan(nodes, links, startY, rank), NodeMap(nodes))
    ensures ColumnsStacked(Plan(nodes, links, startY, rank), Final(nodes, links, startY, rank), startY, NodeMap(nodes))
    ensures var st := Plan(nodes, links, startY, rank);
      0 in ColumnGroups(st.order, st.column) && 1 in ColumnGroups(st.order, st.column) ==>
        SortedBy(Final(nodes, links, startY, rank).orders[0],
                 (n: NodeId) => SortKey(links, Stacked(st, links, startY, NodeMap(nodes)).positions, n, false), LexLess)
  {
    LayoutArranged(nodes, links, startY, rank);
    PlanCovers(nodes, links, startY, rank);
    var st := Plan(nodes, links, startY, rank);
    ArrangedStacked(st, links, startY, NodeMap(nodes));
    if 0 in ColumnGroups(st.order, st.column) && 1 in ColumnGroups(st.order, st.column) {
      ArrangedFirstColumn(st, links, startY, NodeMap(nodes));
    }
  }

  /** Phase C keeps every chain column's x and every chain node's column. */
  lemma PhaseCKeeps(nodes: seq<Node>, links: seq<Link>, cl: ChainLayout)
    requires ChainStart(nodes, cl)
    ensures forall c :: c in cl.st.x ==> c in PhaseC(nodes, links, cl).x && PhaseC(nodes, links, cl).x[c] == cl.st.x[c]
    ensures forall n :: n in cl.st.column ==> n in PhaseC(nodes, links, cl).column && PhaseC(nodes, links, cl).column[n] == cl.st.column[n]
  {
    if |nodes| - |cl.placed.positions| > 0 {
      IdsAreIdSet(nodes);
      var pending := Unplaced(Ids(nodes), cl.placed.positions.Keys);
      AssignAllFacts(cl.st, pending, NodeMap(nodes), ChildMap(nodes, links), ParentMap(nodes, links));
    }
  }

  /**
   * The chain columns: each longest-chain node sits in the column of its
   * first visit, and the chain columns keep the x of Phase B, which runs
   * from 100 and grows by the chain width plus 100 per column.
   */
  lemma LayoutChainColumns(nodes: seq<Node>, links: seq<Link>, startY: int, rank: map<NodeId, nat>)
    requires DistinctIds(nodes) && ChainsTerminate(nodes, links, rank)
    requires nodes != [] && HasRoot(nodes, links)
    ensures FoundChains(nodes, links, rank) != []
    ensures var longest := Longest(FoundChains(nodes, links, rank));
      var cl := Chained(nodes, links, startY, rank);
      var st := Plan(nodes, links, startY, rank);
      && cl.count == MaxLength(FoundChains(nodes, links, rank))
      && SideBySide(cl.st.x, cl.st.w, cl.count)
      && (forall c :: 0 <= c < cl.count ==> c in st.x && st.x[c] == cl.st.x[c])
      && (forall n, j, c :: FirstVisit(longest, n, j, c) ==> n in st.column && st.column[n] == c)
  {
    ChainsIffRoot(nodes, links, rank);
    var chains := FoundChains(nodes, links, rank);
    LongestFacts(chains);
    LongestOnMap(nodes, links, rank);
    var longest := Longest(chains);
    var nodeMap := NodeMap(nodes);
    ChainPhaseState(longest, nodeMap, startY);
    ChainPhasePlaced(longest, nodeMap, startY);
    ChainPhaseColumns(longest, nodeMap, startY);
    ChainedWithin(nodes, links, startY, rank);
    PhaseCKeeps(nodes, links, Chained(nodes, links, startY, rank));
  }
}
