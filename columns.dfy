// Phases A and B of the single-component layout (tabularize.py,
// organize_single_component): the longest chains fix the first columns, each
// such column is as wide as its widest chain node, the columns sit side by
// side from x = 100 with 100 units between them, and every chain node is
// placed at the first cell where a longest chain visits it.
module Columns {
  import opened Seqs
  import opened Graph

  const StartX := 100
  const ColumnSpacing := 100
  const RowHeight := 150

  function Max(a: int, b: int): int {
    if a >= b then a else b
  }

  function Width(nodeMap: map<NodeId, Node>, n: NodeId): int
    requires n in nodeMap
  {
    nodeMap[n].size.w
  }

  /** `max(len(chain) for chain in chains)` */
  function MaxLength(chains: seq<seq<NodeId>>): (m: nat)
    requires chains != []
    ensures exists i :: 0 <= i < |chains| && |chains[i]| == m
    ensures forall i :: 0 <= i < |chains| ==> |chains[i]| <= m
  {
    if |chains| == 1 then |chains[0]|
    else
      var rest := MaxLength(chains[1..]);
      assert forall i :: 1 <= i < |chains| ==> chains[i] == chains[1..][i - 1];
      if |chains[0]| >= rest then |chains[0]| else rest
  }

  /** `[chain for chain in chains if len(chain) == m]`, in the same order. */
  function OfLength(chains: seq<seq<NodeId>>, m: nat): (r: seq<seq<NodeId>>)
    ensures forall c :: c in r <==> c in chains && |c| == m
  {
    if chains == [] then []
    else (if |chains[0]| == m then [chains[0]] else []) + OfLength(chains[1..], m)
  }

  /**
   * The chains of one length keep the input order: the filter distributes over
   * concatenation, and a single chain is kept exactly when it has that length.
   */
  lemma {:induction false} OfLengthInOrder(a: seq<seq<NodeId>>, b: seq<seq<NodeId>>, m: nat)
    ensures OfLength(a + b, m) == OfLength(a, m) + OfLength(b, m)
  {
    if a == [] {
      assert a + b == b;
    } else {
      var head := if |a[0]| == m then [a[0]] else [];
      assert OfLength(a + b, m) == head + OfLength(a[1..] + b, m) by {
        assert (a + b)[0] == a[0] && (a + b)[1..] == a[1..] + b;
      }
      assert OfLength(a, m) == head + OfLength(a[1..], m);
      OfLengthInOrder(a[1..], b, m);
      ConcatAssoc(head, OfLength(a[1..], m), OfLength(b, m));
    }
  }

  /** Every node a chain visits is in the node map. */
  predicate OnMap(chains: seq<seq<NodeId>>, nodeMap: map<NodeId, Node>) {
    forall j, c :: 0 <= j < |chains| && 0 <= c < |chains[j]| ==> chains[j][c] in nodeMap
  }

  /** `column_widths.get(c, 0)` */
  function Get0(m: map<int, int>, c: int): int {
    if c in m then m[c] else 0
  }

  /** The widths after the first `i` cells of one chain have widened their columns. */
  function WidenRow(widths: map<int, int>, chain: seq<NodeId>, nodeMap: map<NodeId, Node>, i: nat): map<int, int>
    requires i <= |chain| && forall c :: 0 <= c < |chain| ==> chain[c] in nodeMap
  {
    if i == 0 then widths
    else
      var before := WidenRow(widths, chain, nodeMap, i - 1);
      before[i - 1 := Max(Get0(before, i - 1), Width(nodeMap, chain[i - 1]))]
  }

  /** The widths after every cell of every chain, chain by chain. */
  function ChainWidths(chains: seq<seq<NodeId>>, nodeMap: map<NodeId, Node>): map<int, int>
    requires OnMap(chains, nodeMap)
  {
    if chains == [] then map[]
    else
      var last := chains[|chains| - 1];
      WidenRow(ChainWidths(chains[..|chains| - 1], nodeMap), last, nodeMap, |last|)
  }

  lemma {:induction false} WidenRowAt(widths: map<int, int>, chain: seq<NodeId>, nodeMap: map<NodeId, Node>, i: nat)
    requires i <= |chain| && forall c :: 0 <= c < |chain| ==> chain[c] in nodeMap
    ensures forall c :: c in WidenRow(widths, chain, nodeMap, i) <==> c in widths || 0 <= c < i
    ensures forall c :: c in WidenRow(widths, chain, nodeMap, i) ==>
      WidenRow(widths, chain, nodeMap, i)[c]
        == if 0 <= c < i then Max(Get0(widths, c), Width(nodeMap, chain[c])) else widths[c]
  {
    if i > 0 {
      WidenRowAt(widths, chain, nodeMap, i - 1);
    }
  }

  /**
   * Column c of the longest chains exists exactly when some chain is longer
   * than c, and its width is the largest width of a node at index c, or 0.
   */
  ghost predicate ColumnMaxima(chains: seq<seq<NodeId>>, nodeMap: map<NodeId, Node>, r: map<int, int>)
    requires OnMap(chains, nodeMap)
  {
    && (forall c :: c in r <==> exists j :: 0 <= j < |chains| && 0 <= c < |chains[j]|)
    && (forall j, c :: 0 <= j < |chains| && 0 <= c < |chains[j]| ==> r[c] >= Width(nodeMap, chains[j][c]))
    && (forall c :: c in r ==> r[c] >= 0)
    && (forall c :: c in r ==>
          r[c] == 0 || exists j :: 0 <= j < |chains| && 0 <= c < |chains[j]| && r[c] == Width(nodeMap, chains[j][c]))
  }

  /** The columns of the chain widths are exactly the indexes some chain reaches. */
  lemma {:induction false} ChainWidthsKeys(chains: seq<seq<NodeId>>, nodeMap: map<NodeId, Node>)
    requires OnMap(chains, nodeMap)
    ensures forall c :: c in ChainWidths(chains, nodeMap) <==> exists j :: 0 <= j < |chains| && 0 <= c < |chains[j]|
  {
    if chains != [] {
      var k := |chains| - 1;
      var init, last := chains[..k], chains[k];
      ChainWidthsKeys(init, nodeMap);
      var prev := ChainWidths(init, nodeMap);
      WidenRowAt(prev, last, nodeMap, |last|);
      forall c ensures c in ChainWidths(chains, nodeMap) <==> exists j :: 0 <= j < |chains| && 0 <= c < |chains[j]| {
        if c in prev {
          var j :| 0 <= j < |init| && 0 <= c < |init[j]|;
          assert init[j] == chains[j];
        }
        if exists j :: 0 <= j < |chains| && 0 <= c < |chains[j]| {
          var j :| 0 <= j < |chains| && 0 <= c < |chains[j]|;
          if j < k {
            assert init[j] == chains[j];
          }
        }
      }
    }
  }

  /** Every chain column is at least as wide as each node at that index, and never negative. */
  lemma {:induction false} ChainWidthsBound(chains: seq<seq<NodeId>>, nodeMap: map<NodeId, Node>)
    requires OnMap(chains, nodeMap)
    ensures forall c :: c in ChainWidths(chains, nodeMap) ==> ChainWidths(chains, nodeMap)[c] >= 0
    ensures forall j, c :: 0 <= j < |chains| && 0 <= c < |chains[j]| ==>
      c in ChainWidths(chains, nodeMap) && ChainWidths(chains, nodeMap)[c] >= Width(nodeMap, chains[j][c])
  {
    if chains != [] {
      var k := |chains| - 1;
      var init, last := chains[..k], chains[k];
      ChainWidthsBound(init, nodeMap);
      var prev := ChainWidths(init, nodeMap);
      WidenRowAt(prev, last, nodeMap, |last|);
      forall j, c | 0 <= j < |chains| && 0 <= c < |chains[j]|
        ensures c in ChainWidths(chains, nodeMap) && ChainWidths(chains, nodeMap)[c] >= Width(nodeMap, chains[j][c])
      {
        if j < k {
          assert init[j] == chains[j];
        }
      }
    }
  }

  /** A chain column's width is 0 or the width of some node at that index. */
  lemma {:induction false} ChainWidthsAttained(chains: seq<seq<NodeId>>, nodeMap: map<NodeId, Node>)
    requires OnMap(chains, nodeMap)
    ensures forall c :: c in ChainWidths(chains, nodeMap) ==>
      || ChainWidths(chains, nodeMap)[c] == 0
      || exists j :: 0 <= j < |chains| && 0 <= c < |chains[j]| && ChainWidths(chains, nodeMap)[c] == Width(nodeMap, chains[j][c])
  {
    if chains != [] {
      var k := |chains| - 1;
      var init, last := chains[..k], chains[k];
      ChainWidthsAttained(init, nodeMap);
      var prev := ChainWidths(init, nodeMap);
      WidenRowAt(prev, last, nodeMap, |last|);
      var r := ChainWidths(chains, nodeMap);
      forall c | c in r
        ensures r[c] == 0 || exists j :: 0 <= j < |chains| && 0 <= c < |chains[j]| && r[c] == Width(nodeMap, chains[j][c])
      {
        if 0 <= c < |last| && r[c] == Width(nodeMap, last[c]) {
          assert chains[k] == last;
        } else if r[c] != 0 {
          assert c in prev && r[c] == prev[c];
          var j :| 0 <= j < |init| && 0 <= c < |init[j]| && prev[c] == Width(nodeMap, init[j][c]);
          assert init[j] == chains[j];
        }
      }
    }
  }

  /**
   * Column c of the longest chains exists exactly when some chain is longer
   * than c, and its width is the largest width of a node at index c, or 0.
   */
  lemma ChainWidthsMeaning(chains: seq<seq<NodeId>>, nodeMap: map<NodeId, Node>)
    requires OnMap(chains, nodeMap)
    ensures ColumnMaxima(chains, nodeMap, ChainWidths(chains, nodeMap))
  {
    ChainWidthsKeys(chains, nodeMap);
    ChainWidthsBound(chains, nodeMap);
    ChainWidthsAttained(chains, nodeMap);
  }

  /** The first loop of Phase A: per-column node lists and maximal widths. */
  method ChainColumnWidths(longest: seq<seq<NodeId>>, nodeMap: map<NodeId, Node>)
    returns (columnWidths: map<int, int>)
    requires OnMap(longest, nodeMap)
    ensures columnWidths == ChainWidths(longest, nodeMap)
  {
    var columnNodes: map<int, seq<NodeId>> := map[];
    columnWidths := map[];
    for r := 0 to |longest|
      invariant columnWidths == ChainWidths(longest[..r], nodeMap)
      invariant NodesWidened(columnNodes, columnWidths, nodeMap)
    {
      var chain := longest[r];
      assert longest[..r + 1][..r] == longest[..r] && longest[..r + 1][r] == chain;
      columnNodes, columnWidths := WidenChain(columnNodes, columnWidths, chain, nodeMap);
    }
    assert longest[..|longest|] == longest;
  }

  /** The inner loop over one chain's cells: each cell widens its column to its node. */
  method WidenChain(columnNodes: map<int, seq<NodeId>>, columnWidths: map<int, int>, chain: seq<NodeId>, nodeMap: map<NodeId, Node>)
    returns (columnNodes': map<int, seq<NodeId>>, columnWidths': map<int, int>)
    requires NodesWidened(columnNodes, columnWidths, nodeMap)
    requires forall c :: 0 <= c < |chain| ==> chain[c] in nodeMap
    ensures columnWidths' == WidenRow(columnWidths, chain, nodeMap, |chain|)
    ensures NodesWidened(columnNodes', columnWidths', nodeMap)
  {
    columnNodes', columnWidths' := columnNodes, columnWidths;
    for i := 0 to |chain|
      invariant columnWidths' == WidenRow(columnWidths, chain, nodeMap, i)
      invariant NodesWidened(columnNodes', columnWidths', nodeMap)
    {
      columnNodes', columnWidths' := WidenCell(columnNodes', columnWidths', i, chain[i], nodeMap);
    }
  }

  /** One cell of a chain: node `n` joins column `i`'s list unless already listed, widening the column to it. */
  method WidenCell(columnNodes: map<int, seq<NodeId>>, columnWidths: map<int, int>, i: int, n: NodeId, nodeMap: map<NodeId, Node>)
    returns (columnNodes': map<int, seq<NodeId>>, columnWidths': map<int, int>)
    requires NodesWidened(columnNodes, columnWidths, nodeMap) && n in nodeMap
    ensures columnWidths' == columnWidths[i := Max(Get0(columnWidths, i), Width(nodeMap, n))]
    ensures NodesWidened(columnNodes', columnWidths', nodeMap)
  {
    WidenStep(columnNodes, columnWidths, nodeMap, i, n);
    columnNodes', columnWidths' := columnNodes, columnWidths;
    if i !in columnNodes' {
      columnNodes' := columnNodes'[i := []];
      columnWidths' := columnWidths'[i := 0];
    }
    assert Get0(columnWidths', i) == Get0(columnWidths, i);
    if n !in columnNodes'[i] {
      columnNodes' := columnNodes'[i := columnNodes'[i] + [n]];
      columnWidths' := columnWidths'[i := Max(columnWidths'[i], Width(nodeMap, n))];
    }
  }

  /** The loop's `column_nodes` table: the same columns as the widths, each at least as wide as the nodes listed in it. */
  ghost predicate NodesWidened(columnNodes: map<int, seq<NodeId>>, columnWidths: map<int, int>, nodeMap: map<NodeId, Node>) {
    && columnNodes.Keys == columnWidths.Keys
    && forall c, n :: c in columnNodes && n in columnNodes[c] ==> n in nodeMap && columnWidths[c] >= Width(nodeMap, n)
  }

  /**
   * One cell: the node joins its column's list unless already listed, and the column widens to it;
   * a node already listed leaves the width as it was.
   */
  lemma WidenStep(columnNodes: map<int, seq<NodeId>>, columnWidths: map<int, int>, nodeMap: map<NodeId, Node>, i: int, n: NodeId)
    requires NodesWidened(columnNodes, columnWidths, nodeMap) && n in nodeMap
    ensures var ns := if i in columnNodes then columnNodes[i] else [];
      var widths := columnWidths[i := Max(Get0(columnWidths, i), Width(nodeMap, n))];
      && NodesWidened(columnNodes[i := if n in ns then ns else ns + [n]], widths, nodeMap)
      && (n in ns ==> widths == columnWidths)
  {
    var ns := if i in columnNodes then columnNodes[i] else [];
    if n in ns {
      assert i in columnWidths && columnWidths[i] >= Width(nodeMap, n);
      assert columnNodes[i := ns] == columnNodes;
    }
  }

  /** Column c + 1 starts 100 units right of column c's right edge; column 0 starts at x = 100. */
  ghost predicate SideBySide(columnX: map<int, int>, widths: map<int, int>, count: nat) {
    && (forall c :: c in columnX <==> 0 <= c < count)
    && (forall c :: c in widths <==> 0 <= c < count)
    && (count > 0 ==> columnX[0] == StartX)
    && (forall c :: 0 <= c < count - 1 ==> columnX[c + 1] == columnX[c] + widths[c] + ColumnSpacing)
  }

  /** The x positions of columns 0 .. count - 1, each right of the previous one. */
  function ColumnXs(widths: map<int, int>, count: nat): (columnX: map<int, int>)
    requires forall c :: 0 <= c < count ==> c in widths
    ensures forall c :: c in columnX <==> 0 <= c < count
  {
    if count == 0 then map[]
    else
      var before := ColumnXs(widths, count - 1);
      var c := count - 1;
      before[c := if c == 0 then StartX else before[c - 1] + widths[c - 1] + ColumnSpacing]
  }

  /** Column 0 starts at x = 100 and each next column 100 units right of the previous column's right edge. */
  lemma {:induction false} ColumnXsSpacing(widths: map<int, int>, count: nat)
    requires forall c :: 0 <= c < count ==> c in widths
    ensures count > 0 ==> ColumnXs(widths, count)[0] == StartX
    ensures forall c :: 0 <= c < count - 1 ==> ColumnXs(widths, count)[c + 1] == ColumnXs(widths, count)[c] + widths[c] + ColumnSpacing
  {
    if count > 0 {
      ColumnXsSpacing(widths, count - 1);
    }
  }

  lemma ColumnXsSideBySide(widths: map<int, int>, count: nat)
    requires forall c :: c in widths <==> 0 <= c < count
    ensures SideBySide(ColumnXs(widths, count), widths, count)
  {
    ColumnXsSpacing(widths, count);
  }

  /**
   * Phase B. The source walks `sorted(column_widths.keys())`, which is
   * 0, 1, ..., count - 1 here.
   */
  method ColumnPositions(widths: map<int, int>, count: nat) returns (columnX: map<int, int>)
    requires forall c :: c in widths <==> 0 <= c < count
    ensures columnX == ColumnXs(widths, count)
    ensures SideBySide(columnX, widths, count)
  {
    columnX := map[];
    var currentX := StartX;
    for c := 0 to count
      invariant columnX == ColumnXs(widths, c)
      invariant currentX == if c == 0 then StartX else columnX[c - 1] + widths[c - 1] + ColumnSpacing
    {
      columnX := columnX[c := currentX];
      currentX := currentX + widths[c] + ColumnSpacing;
    }
    ColumnXsSideBySide(widths, count);
  }

  /** Columns laid side by side never overlap: a later column starts past an earlier one's right edge plus the spacing. */
  lemma {:induction false} SideBySideSeparated(columnX: map<int, int>, widths: map<int, int>, count: nat, a: int, b: int)
    requires SideBySide(columnX, widths, count)
    requires forall c :: c in widths ==> widths[c] >= 0
    requires 0 <= a < b < count
    ensures columnX[a] + widths[a] + ColumnSpacing <= columnX[b]
  {
    if b > a + 1 {
      SideBySideSeparated(columnX, widths, count, a, b - 1);
    }
  }

  /** So the chain columns' x positions strictly increase with the column index. */
  lemma SideBySideIncreasing(columnX: map<int, int>, widths: map<int, int>, count: nat)
    requires SideBySide(columnX, widths, count)
    requires forall c :: c in widths ==> widths[c] >= 0
    ensures forall a, b :: 0 <= a < b < count ==> columnX[a] < columnX[b]
  {
    forall a, b | 0 <= a < b < count ensures columnX[a] < columnX[b] {
      SideBySideSeparated(columnX, widths, count, a, b);
    }
  }

  /** The positions placed so far, and the order in which they were first placed. */
  datatype Placement = Placement(positions: map<NodeId, Pos>, order: seq<NodeId>)

  predicate WellPlaced(p: Placement) {
    Elems(p.order) == p.positions.Keys && NoDup(p.order)
  }

  /** Every column index a chain reaches has an x position. */
  predicate Covers(chains: seq<seq<NodeId>>, columnX: map<int, int>) {
    forall ch, c :: ch in chains && 0 <= c < |ch| ==> c in columnX
  }

  /** The y of chain number `row`: rows are 150 apart from `startY` down. */
  function RowY(startY: int, row: int): int {
    startY + row * RowHeight
  }

  /** The placement after the first `i` cells of chain number `row`: a node already placed stays put. */
  function PlaceRow(p: Placement, chain: seq<NodeId>, row: nat, columnX: map<int, int>, startY: int, i: nat): Placement
    requires i <= |chain| && forall c :: 0 <= c < |chain| ==> c in columnX
  {
    if i == 0 then p
    else
      var q := PlaceRow(p, chain, row, columnX, startY, i - 1);
      var n := chain[i - 1];
      if n in q.positions then q
      else Placement(q.positions[n := Pos(columnX[i - 1], RowY(startY, row))], q.order + [n])
  }

  /** The placement after every cell of every chain, chain by chain. */
  function PlaceChains(chains: seq<seq<NodeId>>, columnX: map<int, int>, startY: int): Placement
    requires Covers(chains, columnX)
  {
    if chains == [] then Placement(map[], [])
    else
      var k := |chains| - 1;
      PlaceRow(PlaceChains(chains[..k], columnX, startY), chains[k], k, columnX, startY, |chains[k]|)
  }

  /** `chains[j][c]` is the first cell, in row-major order, where the chains visit `n`. */
  ghost predicate FirstVisit(chains: seq<seq<NodeId>>, n: NodeId, j: int, c: int) {
    && 0 <= j < |chains| && 0 <= c < |chains[j]| && chains[j][c] == n
    && (forall k :: 0 <= k < c ==> chains[j][k] != n)
    && (forall i :: 0 <= i < j ==> n !in chains[i])
  }

  /** The index of the first occurrence of `n`. */
  function FirstIndex(s: seq<NodeId>, n: NodeId): (i: nat)
    requires n in s
    ensures i < |s| && s[i] == n && forall k :: 0 <= k < i ==> s[k] != n
  {
    if s[0] == n then 0 else 1 + FirstIndex(s[1..], n)
  }

  lemma {:induction false} FirstVisitExists(chains: seq<seq<NodeId>>, n: NodeId)
    requires n in Flatten(chains)
    ensures exists j, c :: FirstVisit(chains, n, j, c)
  {
    var k := |chains| - 1;
    var init := chains[..k];
    assert chains == init + [chains[k]];
    FlattenSnoc(init, chains[k]);
    assert forall i :: 0 <= i < k ==> init[i] == chains[i];
    if n in Flatten(init) {
      FirstVisitExists(init, n);
      var j, c :| FirstVisit(init, n, j, c);
      assert FirstVisit(chains, n, j, c);
    } else {
      FlattenMember(init, n);
      assert FirstVisit(chains, n, k, FirstIndex(chains[k], n));
    }
  }

  lemma PlaceRowFacts(p: Placement, chain: seq<NodeId>, row: nat, columnX: map<int, int>, startY: int, i: nat)
    requires i <= |chain| && forall c :: 0 <= c < |chain| ==> c in columnX
    requires WellPlaced(p)
    ensures var q := PlaceRow(p, chain, row, columnX, startY, i);
      && WellPlaced(q)
      && q.positions.Keys == p.positions.Keys + Elems(chain[..i])
      && (forall n :: n in p.positions ==> q.positions[n] == p.positions[n])
      && (forall c :: 0 <= c < i && chain[c] !in p.positions && (forall k :: 0 <= k < c ==> chain[k] != chain[c]) ==>
            q.positions[chain[c]] == Pos(columnX[c], RowY(startY, row)))
  {
    PlaceRowCovers(p, chain, row, columnX, startY, i);
    forall n | n in p.positions ensures PlaceRow(p, chain, row, columnX, startY, i).positions[n] == p.positions[n] {
      PlaceRowKeeps(p, chain, row, columnX, startY, i, n);
    }
    forall c | 0 <= c < i && chain[c] !in p.positions && (forall k :: 0 <= k < c ==> chain[k] != chain[c])
      ensures PlaceRow(p, chain, row, columnX, startY, i).positions[chain[c]] == Pos(columnX[c], RowY(startY, row))
    {
      PlaceRowSets(p, chain, row, columnX, startY, i, c);
    }
  }

  /** A row adds exactly its nodes not yet placed, each once, at the end of the order. */
  lemma {:induction false} PlaceRowCovers(p: Placement, chain: seq<NodeId>, row: nat, columnX: map<int, int>, startY: int, i: nat)
    requires i <= |chain| && forall c :: 0 <= c < |chain| ==> c in columnX
    requires WellPlaced(p)
    ensures var q := PlaceRow(p, chain, row, columnX, startY, i);
      WellPlaced(q) && q.positions.Keys == p.positions.Keys + Elems(chain[..i])
  {
    if i > 0 {
      PlaceRowCovers(p, chain, row, columnX, startY, i - 1);
      PlaceRowCellWell(p, chain, row, columnX, startY, i);
      PlaceRowCellKeys(p, chain, row, columnX, startY, i);
    }
  }

  /** One more cell keeps the placement well formed. */
  lemma PlaceRowCellWell(p: Placement, chain: seq<NodeId>, row: nat, columnX: map<int, int>, startY: int, i: nat)
    requires 0 < i <= |chain| && forall c :: 0 <= c < |chain| ==> c in columnX
    requires WellPlaced(PlaceRow(p, chain, row, columnX, startY, i - 1))
    ensures WellPlaced(PlaceRow(p, chain, row, columnX, startY, i))
  {
    var q := PlaceRow(p, chain, row, columnX, startY, i - 1);
    var n := chain[i - 1];
    if n !in q.positions {
      var r := PlaceRow(p, chain, row, columnX, startY, i);
      assert r.positions.Keys == q.positions.Keys + {n};
      assert r.order == q.order + [n];
      ElemsSnoc(q.order, n);
      NoDupConcat(q.order, [n]);
    }
  }

  /** One more cell adds its node to the placed ones. */
  lemma PlaceRowCellKeys(p: Placement, chain: seq<NodeId>, row: nat, columnX: map<int, int>, startY: int, i: nat)
    requires 0 < i <= |chain| && forall c :: 0 <= c < |chain| ==> c in columnX
    requires PlaceRow(p, chain, row, columnX, startY, i - 1).positions.Keys == p.positions.Keys + Elems(chain[..i - 1])
    ensures PlaceRow(p, chain, row, columnX, startY, i).positions.Keys == p.positions.Keys + Elems(chain[..i])
  {
    var q := PlaceRow(p, chain, row, columnX, startY, i - 1);
    var r := PlaceRow(p, chain, row, columnX, startY, i);
    var n := chain[i - 1];
    assert chain[..i] == chain[..i - 1] + [n];
    ElemsSnoc(chain[..i - 1], n);
    forall x ensures x in r.positions <==> x in p.positions.Keys + Elems(chain[..i]) {
      assert x in r.positions <==> x in q.positions || x == n;
    }
  }

  /** A row moves no node already placed. */
  lemma {:induction false} PlaceRowKeeps(p: Placement, chain: seq<NodeId>, row: nat, columnX: map<int, int>, startY: int, i: nat, m: NodeId)
    requires i <= |chain| && forall c :: 0 <= c < |chain| ==> c in columnX
    requires m in p.positions
    ensures var q := PlaceRow(p, chain, row, columnX, startY, i);
      m in q.positions && q.positions[m] == p.positions[m]
  {
    if i > 0 {
      PlaceRowKeeps(p, chain, row, columnX, startY, i - 1, m);
    }
  }

  /** A row places the first visit of each node not yet placed at that cell's column x and the row's y. */
  lemma {:induction false} PlaceRowSets(p: Placement, chain: seq<NodeId>, row: nat, columnX: map<int, int>, startY: int, i: nat, c: nat)
    requires i <= |chain| && forall c :: 0 <= c < |chain| ==> c in columnX
    requires WellPlaced(p)
    requires c < i && chain[c] !in p.positions && forall k :: 0 <= k < c ==> chain[k] != chain[c]
    ensures var q := PlaceRow(p, chain, row, columnX, startY, i);
      chain[c] in q.positions && q.positions[chain[c]] == Pos(columnX[c], RowY(startY, row))
  {
    var before := PlaceRow(p, chain, row, columnX, startY, i - 1);
    if c == i - 1 {
      PlaceRowCovers(p, chain, row, columnX, startY, i - 1);
      assert chain[c] !in Elems(chain[..i - 1]);
    } else {
      PlaceRowSets(p, chain, row, columnX, startY, i - 1, c);
    }
  }

  /**
   * What Phase A places: exactly the nodes on the chains, each at its first
   * visit, in the column of that visit and on the row of that chain.
   */
  lemma {:induction false} PlaceChainsFacts(chains: seq<seq<NodeId>>, columnX: map<int, int>, startY: int)
    requires Covers(chains, columnX)
    ensures var p := PlaceChains(chains, columnX, startY);
      && WellPlaced(p)
      && p.positions.Keys == Elems(Flatten(chains))
      && (forall n, j, c :: FirstVisit(chains, n, j, c) ==>
            n in p.positions && p.positions[n] == Pos(columnX[c], RowY(startY, j)))
  {
    if chains != [] {
      var k := |chains| - 1;
      var init, last := chains[..k], chains[k];
      assert chains == init + [last];
      assert forall i :: 0 <= i < k ==> init[i] == chains[i];
      PlaceChainsFacts(init, columnX, startY);
      var before := PlaceChains(init, columnX, startY);
      PlaceRowFacts(before, last, k, columnX, startY, |last|);
      FlattenSnoc(init, last);
      assert last[..|last|] == last;
      var p := PlaceChains(chains, columnX, startY);
      forall n, j, c | FirstVisit(chains, n, j, c)
        ensures n in p.positions && p.positions[n] == Pos(columnX[c], RowY(startY, j))
      {
        FlattenMember(chains, n);
        if j < k {
          assert FirstVisit(init, n, j, c);
        } else {
          FlattenMember(init, n);
          assert n !in before.positions;
        }
      }
    }
  }

  /** The second loop of Phase A: place the longest chains, one row per chain. */
  method PlaceLongestChains(longest: seq<seq<NodeId>>, columnX: map<int, int>, startY: int)
    returns (positions: map<NodeId, Pos>, order: seq<NodeId>)
    requires Covers(longest, columnX)
    ensures Placement(positions, order) == PlaceChains(longest, columnX, startY)
  {
    positions, order := map[], [];
    for r := 0 to |longest|
      invariant Placement(positions, order) == PlaceChains(longest[..r], columnX, startY)
    {
      var chain := longest[r];
      assert longest[..r + 1][..r] == longest[..r] && longest[..r + 1][r] == chain;
      var y := RowY(startY, r);
      for i := 0 to |chain|
        invariant Placement(positions, order) == PlaceRow(PlaceChains(longest[..r], columnX, startY), chain, r, columnX, startY, i)
      {
        var n := chain[i];
        if n !in positions {
          positions := positions[n := Pos(columnX[i], y)];
          order := order + [n];
        }
      }
    }
    assert longest[..|longest|] == longest;
  }

  /** `pos_to_column` after its loop over columns 0 .. count - 1: a later column with the same x would win. */
  function PosToColumn(columnX: map<int, int>, count: nat): map<int, int>
    requires forall c :: 0 <= c < count ==> c in columnX
  {
    if count == 0 then map[]
    else PosToColumn(columnX, count - 1)[columnX[count - 1] := count - 1]
  }

  /** With distinct x positions, `pos_to_column` inverts them exactly. */
  lemma {:induction false} PosToColumnInverts(columnX: map<int, int>, count: nat)
    requires forall c :: 0 <= c < count ==> c in columnX
    requires forall a, b :: 0 <= a < b < count ==> columnX[a] < columnX[b]
    ensures forall c :: 0 <= c < count ==> columnX[c] in PosToColumn(columnX, count) && PosToColumn(columnX, count)[columnX[c]] == c
    ensures forall x :: x in PosToColumn(columnX, count) ==>
      0 <= PosToColumn(columnX, count)[x] < count && columnX[PosToColumn(columnX, count)[x]] == x
  {
    if count > 0 {
      PosToColumnInverts(columnX, count - 1);
    }
  }

  /** `node_columns` after its loop over the placed nodes, in placement order. */
  function NodeColumns(order: seq<NodeId>, positions: map<NodeId, Pos>, posToColumn: map<int, int>): map<NodeId, int>
    requires forall n :: n in order ==> n in positions
  {
    if order == [] then map[]
    else
      var k := |order| - 1;
      var n := order[k];
      assert n in order;
      var before := NodeColumns(order[..k], positions, posToColumn);
      var x := positions[n].x;
      if x in posToColumn then before[n := posToColumn[x]] else before
  }

  /** The placed nodes that get a column, in the order they get it. */
  function Mapped(order: seq<NodeId>, positions: map<NodeId, Pos>, posToColumn: map<int, int>): seq<NodeId>
    requires forall n :: n in order ==> n in positions
  {
    if order == [] then []
    else
      var k := |order| - 1;
      var n := order[k];
      assert n in order;
      Mapped(order[..k], positions, posToColumn) + (if positions[n].x in posToColumn then [n] else [])
  }

  /**
   * When every placed x is the x of a column, every placed node gets a
   * column, in placement order, and it is the column at that x.
   */
  lemma {:induction false} NodeColumnsComplete(order: seq<NodeId>, positions: map<NodeId, Pos>, posToColumn: map<int, int>)
    requires forall n :: n in order ==> n in positions && positions[n].x in posToColumn
    ensures NodeColumns(order, positions, posToColumn).Keys == Elems(order)
    ensures forall n :: n in order ==> NodeColumns(order, positions, posToColumn)[n] == posToColumn[positions[n].x]
    ensures Mapped(order, positions, posToColumn) == order
  {
    if order != [] {
      var k := |order| - 1;
      assert order == order[..k] + [order[k]];
      NodeColumnsComplete(order[..k], positions, posToColumn);
    }
  }

  /** The loops building `pos_to_column` and `node_columns` from the placed nodes. */
  method PlacedColumns(columnX: map<int, int>, count: nat, positions: map<NodeId, Pos>, order: seq<NodeId>)
    returns (column: map<NodeId, int>, columnOrder: seq<NodeId>)
    requires forall c :: 0 <= c < count ==> c in columnX
    requires forall n :: n in order ==> n in positions
    ensures column == NodeColumns(order, positions, PosToColumn(columnX, count))
    ensures columnOrder == Mapped(order, positions, PosToColumn(columnX, count))
  {
    var posToColumn: map<int, int> := map[];
    for c := 0 to count
      invariant posToColumn == PosToColumn(columnX, c)
    {
      posToColumn := posToColumn[columnX[c] := c];
    }
    column, columnOrder := map[], [];
    for i := 0 to |order|
      invariant column == NodeColumns(order[..i], positions, posToColumn)
      invariant columnOrder == Mapped(order[..i], positions, posToColumn)
    {
      var n := order[i];
      assert order[..i + 1][..i] == order[..i] && order[..i + 1][i] == n;
      var x := positions[n].x;
      if x in posToColumn {
        column := column[n := posToColumn[x]];
        columnOrder := columnOrder + [n];
      }
    }
    assert order[..|order|] == order;
  }

  /**
   * Recovering each placed node's column from its x position: with the
   * chain columns' distinct x positions this inverts Phase A exactly, and
   * keeps the placement order.
   */
  lemma PlacedColumnsExact(columnX: map<int, int>, count: nat, positions: map<NodeId, Pos>, order: seq<NodeId>)
    requires forall c :: c in columnX <==> 0 <= c < count
    requires forall a, b :: 0 <= a < b < count ==> columnX[a] < columnX[b]
    requires Elems(order) == positions.Keys
    requires forall n :: n in positions ==> exists c :: 0 <= c < count && columnX[c] == positions[n].x
    ensures NodeColumns(order, positions, PosToColumn(columnX, count)).Keys == positions.Keys
    ensures Mapped(order, positions, PosToColumn(columnX, count)) == order
    ensures forall n :: n in positions ==>
      && 0 <= NodeColumns(order, positions, PosToColumn(columnX, count))[n] < count
      && columnX[NodeColumns(order, positions, PosToColumn(columnX, count))[n]] == positions[n].x
  {
    var p2c := PosToColumn(columnX, count);
    PosToColumnInverts(columnX, count);
    forall n | n in order ensures n in positions && positions[n].x in p2c {
      assert n in Elems(order);
      var c :| 0 <= c < count && columnX[c] == positions[n].x;
    }
    NodeColumnsComplete(order, positions, p2c);
  }
}
