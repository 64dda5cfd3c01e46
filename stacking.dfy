// Phases D to F of the single-component layout (tabularize.py,
// organize_single_component, "Step 5", "Step 5b" and "Step 3b"): the nodes of
// each column are sorted by the heights of the ports they connect to and
// stacked from the start height down, the first column is re-sorted by its
// children's input ports, and every node takes its column's width.
module Stacking {
  import opened Seqs
  import opened Graph
  import opened Sorting
  import opened SortKeys

  const NodeVerticalSpacing := 60
  const PortSpacing := 20
  const PortOffset := 30

  function Height(nodeMap: map<NodeId, Node>, n: NodeId): int
    requires n in nodeMap
  {
    nodeMap[n].size.h
  }

  /** `calculate_port_y`: the estimated height of a port on a placed node, 0 on an unplaced one. */
  function PortY(positions: map<NodeId, Pos>, n: NodeId, slot: int): int {
    if n !in positions then 0 else positions[n].y + PortOffset + slot * PortSpacing
  }

  /** Heights of the output ports of placed parents that feed `n`, in link order. */
  function InputPortYs(links: seq<Link>, positions: map<NodeId, Pos>, n: NodeId): seq<int> {
    if links == [] then []
    else
      var l := links[|links| - 1];
      InputPortYs(links[..|links| - 1], positions, n)
        + (if l.target == n && l.origin in positions then [PortY(positions, l.origin, l.originSlot)] else [])
  }

  /** Heights of the input ports of placed children that `n` feeds, in link order. */
  function OutputPortYs(links: seq<Link>, positions: map<NodeId, Pos>, n: NodeId): seq<int> {
    if links == [] then []
    else
      var l := links[|links| - 1];
      OutputPortYs(links[..|links| - 1], positions, n)
        + (if l.origin == n && l.target in positions then [PortY(positions, l.target, l.targetSlot)] else [])
  }

  /**
   * The port heights a node is sorted by, ascending: with `inputs` both sides
   * (`get_connected_port_positions`), otherwise only the children's input
   * ports (`get_child_input_port_positions`).
   */
  function PortYs(links: seq<Link>, positions: map<NodeId, Pos>, n: NodeId, inputs: bool): seq<int> {
    SortInts((if inputs then InputPortYs(links, positions, n) else []) + OutputPortYs(links, positions, n))
  }

  /** `sort_key` and `first_col_sort_key`. */
  function SortKey(links: seq<Link>, positions: map<NodeId, Pos>, n: NodeId, inputs: bool): seq<Ext> {
    Pad(PortYs(links, positions, n, inputs))
  }

  /** The loops of `get_connected_port_positions` and `get_child_input_port_positions`. */
  method PortHeights(links: seq<Link>, positions: map<NodeId, Pos>, n: NodeId, inputs: bool) returns (ys: seq<int>)
    ensures ys == PortYs(links, positions, n, inputs)
  {
    var found: seq<int> := [];
    if inputs {
      for i := 0 to |links|
        invariant found == InputPortYs(links[..i], positions, n)
      {
        var l := links[i];
        assert links[..i + 1][..i] == links[..i] && links[..i + 1][i] == l;
        if l.target == n && l.origin in positions {
          found := found + [PortY(positions, l.origin, l.originSlot)];
        }
      }
      assert links[..|links|] == links;
    }
    ghost var inputsFound := found;
    for i := 0 to |links|
      invariant found == inputsFound + OutputPortYs(links[..i], positions, n)
    {
      var l := links[i];
      assert links[..i + 1][..i] == links[..i] && links[..i + 1][i] == l;
      if l.origin == n && l.target in positions {
        found := found + [PortY(positions, l.target, l.targetSlot)];
      }
    }
    assert links[..|links|] == links;
    ys := SortInts(found);
  }

  /** A height is among a node's input-side port heights exactly when a link from a placed parent produces it. */
  lemma {:induction false} InputPortYsMeaning(links: seq<Link>, positions: map<NodeId, Pos>, n: NodeId, y: int)
    ensures y in InputPortYs(links, positions, n) <==>
      exists i :: 0 <= i < |links| && links[i].target == n && links[i].origin in positions
        && y == positions[links[i].origin].y + PortOffset + links[i].originSlot * PortSpacing
  {
    if links != [] {
      var k := |links| - 1;
      InputPortYsMeaning(links[..k], positions, n, y);
      if y in InputPortYs(links[..k], positions, n) {
        var i :| 0 <= i < k && links[..k][i].target == n && links[..k][i].origin in positions
          && y == positions[links[..k][i].origin].y + PortOffset + links[..k][i].originSlot * PortSpacing;
        assert links[..k][i] == links[i];
      }
      if exists i :: 0 <= i < |links| && links[i].target == n && links[i].origin in positions
           && y == positions[links[i].origin].y + PortOffset + links[i].originSlot * PortSpacing
      {
        var i :| 0 <= i < |links| && links[i].target == n && links[i].origin in positions
          && y == positions[links[i].origin].y + PortOffset + links[i].originSlot * PortSpacing;
        if i < k {
          assert links[..k][i] == links[i];
        }
      }
    }
  }

  /** A height is among a node's output-side port heights exactly when a link to a placed child produces it. */
  lemma {:induction false} OutputPortYsMeaning(links: seq<Link>, positions: map<NodeId, Pos>, n: NodeId, y: int)
    ensures y in OutputPortYs(links, positions, n) <==>
      exists i :: 0 <= i < |links| && links[i].origin == n && links[i].target in positions
        && y == positions[links[i].target].y + PortOffset + links[i].targetSlot * PortSpacing
  {
    if links != [] {
      var k := |links| - 1;
      OutputPortYsMeaning(links[..k], positions, n, y);
      if y in OutputPortYs(links[..k], positions, n) {
        var i :| 0 <= i < k && links[..k][i].origin == n && links[..k][i].target in positions
          && y == positions[links[..k][i].target].y + PortOffset + links[..k][i].targetSlot * PortSpacing;
        assert links[..k][i] == links[i];
      }
      if exists i :: 0 <= i < |links| && links[i].origin == n && links[i].target in positions
           && y == positions[links[i].target].y + PortOffset + links[i].targetSlot * PortSpacing
      {
        var i :| 0 <= i < |links| && links[i].origin == n && links[i].target in positions
          && y == positions[links[i].target].y + PortOffset + links[i].targetSlot * PortSpacing;
        if i < k {
          assert links[..k][i] == links[i];
        }
      }
    }
  }

  /** With nothing placed yet a node connects to no port, whatever its links. */
  lemma {:induction false} NothingPlacedNoPorts(links: seq<Link>, n: NodeId, inputs: bool)
    ensures PortYs(links, map[], n, inputs) == []
  {
    if links != [] {
      NothingPlacedNoPorts(links[..|links| - 1], n, inputs);
    }
  }

  /** `sorted(nodes_in_column, key=sort_key)` against the positions placed so far. */
  function ColumnOrder(members: seq<NodeId>, links: seq<Link>, positions: map<NodeId, Pos>, inputs: bool): seq<NodeId> {
    SortBy(members, (n: NodeId) => SortKey(links, positions, n, inputs), LexLess)
  }

  /**
   * The column order is a rearrangement of the column's nodes, ascending by
   * sort key, and nodes with equal keys keep their relative order.
   */
  lemma ColumnOrderFacts(members: seq<NodeId>, links: seq<Link>, positions: map<NodeId, Pos>, inputs: bool)
    ensures var key := (n: NodeId) => SortKey(links, positions, n, inputs);
      && multiset(ColumnOrder(members, links, positions, inputs)) == multiset(members)
      && SortedBy(ColumnOrder(members, links, positions, inputs), key, LexLess)
      && forall k :: WithKey(ColumnOrder(members, links, positions, inputs), key, k) == WithKey(members, key, k)
  {
    var key := (n: NodeId) => SortKey(links, positions, n, inputs);
    LexIsStrictTotalOrder();
    SortByPermutes(members, key, LexLess);
    SortBySorted(members, key, LexLess);
    forall k ensures WithKey(ColumnOrder(members, links, positions, inputs), key, k) == WithKey(members, key, k) {
      SortByStable(members, key, LexLess, k);
    }
  }

  /** The column order holds the column's nodes, each as often as before. */
  lemma ColumnOrderPermutes(members: seq<NodeId>, links: seq<Link>, positions: map<NodeId, Pos>, inputs: bool)
    ensures multiset(ColumnOrder(members, links, positions, inputs)) == multiset(members)
    ensures forall n :: n in ColumnOrder(members, links, positions, inputs) <==> n in members
    ensures NoDup(members) ==> NoDup(ColumnOrder(members, links, positions, inputs))
  {
    var ns := ColumnOrder(members, links, positions, inputs);
    SortByPermutes(members, (n: NodeId) => SortKey(links, positions, n, inputs), LexLess);
    assert forall n :: n in ns <==> n in multiset(ns);
    assert forall n :: n in members <==> n in multiset(members);
    if NoDup(members) {
      PermutationKeepsNoDup(members, ns);
    }
  }

  /** The first column to be sorted sees no placed node, so it keeps its order. */
  lemma FirstSortedColumnKeepsOrder(members: seq<NodeId>, links: seq<Link>, inputs: bool)
    ensures ColumnOrder(members, links, map[], inputs) == members
  {
    var key := (n: NodeId) => SortKey(links, map[], n, inputs);
    forall n ensures key(n) == Pad([]) {
      NothingPlacedNoPorts(links, n, inputs);
    }
    LexIrreflexive(Pad([]));
    SortByKeepsSorted(members, key, LexLess);
  }

  /** Place `ns` top to bottom at `x`, starting at `y`, 60 units apart. */
  function Stack(positions: map<NodeId, Pos>, ns: seq<NodeId>, x: int, y: int, nodeMap: map<NodeId, Node>): map<NodeId, Pos>
    requires forall n :: n in ns ==> n in nodeMap
    decreases |ns|
  {
    if ns == [] then positions
    else Stack(positions[ns[0] := Pos(x, y)], ns[1..], x, y + Height(nodeMap, ns[0]) + NodeVerticalSpacing, nodeMap)
  }

  /** The positioning loop of one column. */
  method StackColumn(positions: map<NodeId, Pos>, ns: seq<NodeId>, x: int, startY: int, nodeMap: map<NodeId, Node>)
    returns (placed: map<NodeId, Pos>)
    requires forall n :: n in ns ==> n in nodeMap
    ensures placed == Stack(positions, ns, x, startY, nodeMap)
  {
    placed := positions;
    var currentY := startY;
    for i := 0 to |ns|
      invariant Stack(placed, ns[i..], x, currentY, nodeMap) == Stack(positions, ns, x, startY, nodeMap)
    {
      assert ns[i..][1..] == ns[i + 1..];
      placed := placed[ns[i] := Pos(x, currentY)];
      currentY := currentY + Height(nodeMap, ns[i]) + NodeVerticalSpacing;
    }
  }

  /** `ns` is stacked at `x` from `y` down: each node starts its height plus 60 below the previous one. */
  ghost predicate StackedFrom(positions: map<NodeId, Pos>, ns: seq<NodeId>, x: int, y: int, nodeMap: map<NodeId, Node>) {
    && (forall i :: 0 <= i < |ns| ==> ns[i] in positions && ns[i] in nodeMap && positions[ns[i]].x == x)
    && (ns != [] ==> positions[ns[0]].y == y)
    && (forall i :: 0 <= i < |ns| - 1 ==>
          positions[ns[i + 1]].y == positions[ns[i]].y + Height(nodeMap, ns[i]) + NodeVerticalSpacing)
  }

  /** Stacking places exactly the column's nodes and leaves every other position alone. */
  lemma {:induction false} StackKeeps(positions: map<NodeId, Pos>, ns: seq<NodeId>, x: int, y: int, nodeMap: map<NodeId, Node>)
    requires forall n :: n in ns ==> n in nodeMap
    decreases |ns|
    ensures Stack(positions, ns, x, y, nodeMap).Keys == positions.Keys + Elems(ns)
    ensures forall n :: n in positions && n !in ns ==> Stack(positions, ns, x, y, nodeMap)[n] == positions[n]
  {
    if ns != [] {
      var head, tail := ns[0], ns[1..];
      assert ns == [head] + tail;
      StackKeeps(positions[head := Pos(x, y)], tail, x, y + Height(nodeMap, head) + NodeVerticalSpacing, nodeMap);
    }
  }

  /** Stacking a duplicate-free column stacks it: top at `y`, each next node its predecessor's height plus 60 lower. */
  lemma {:induction false} StackShape(positions: map<NodeId, Pos>, ns: seq<NodeId>, x: int, y: int, nodeMap: map<NodeId, Node>)
    requires forall n :: n in ns ==> n in nodeMap
    requires NoDup(ns)
    decreases |ns|
    ensures StackedFrom(Stack(positions, ns, x, y, nodeMap), ns, x, y, nodeMap)
  {
    if ns != [] {
      var head, tail := ns[0], ns[1..];
      var next := positions[head := Pos(x, y)];
      var y' := y + Height(nodeMap, head) + NodeVerticalSpacing;
      assert ns == [head] + tail;
      assert NoDup(tail) && head !in tail;
      StackShape(next, tail, x, y', nodeMap);
      var r := Stack(positions, ns, x, y, nodeMap);
      assert r == Stack(next, tail, x, y', nodeMap);
      assert head in r && r[head] == Pos(x, y) by {
        StackKeeps(next, tail, x, y', nodeMap);
      }
      forall i | 0 <= i < |ns| ensures ns[i] in r && ns[i] in nodeMap && r[ns[i]].x == x {
        if i > 0 {
          assert ns[i] == tail[i - 1];
        }
      }
      forall i | 0 <= i < |ns| - 1
        ensures r[ns[i + 1]].y == r[ns[i]].y + Height(nodeMap, ns[i]) + NodeVerticalSpacing
      {
        if i > 0 {
          assert ns[i] == tail[i - 1] && ns[i + 1] == tail[i];
        } else if tail != [] {
          assert ns[1] == tail[0];
        }
      }
    }
  }

  /** With no negative height, a stacked column never overlaps: each node ends 60 units or more above any later one. */
  lemma {:induction false} StackedApart(positions: map<NodeId, Pos>, ns: seq<NodeId>, x: int, y: int, nodeMap: map<NodeId, Node>, i: int, j: int)
    requires StackedFrom(positions, ns, x, y, nodeMap)
    requires forall k :: 0 <= k < |ns| ==> Height(nodeMap, ns[k]) >= 0
    requires 0 <= i < j < |ns|
    ensures positions[ns[i]].y + Height(nodeMap, ns[i]) + NodeVerticalSpacing <= positions[ns[j]].y
  {
    if j > i + 1 {
      StackedApart(positions, ns, x, y, nodeMap, i, j - 1);
    }
  }

  /** The nodes of `order` whose column is `c`, in that order. */
  function InColumn(order: seq<NodeId>, column: map<NodeId, int>, c: int): seq<NodeId>
    requires forall n :: n in order ==> n in column
  {
    if order == [] then []
    else
      var k := |order| - 1;
      var last := order[k];
      assert last in order;
      InColumn(order[..k], column, c) + (if column[last] == c then [last] else [])
  }

  lemma {:induction false} InColumnMembers(order: seq<NodeId>, column: map<NodeId, int>, c: int)
    requires forall n :: n in order ==> n in column
    ensures forall n :: n in InColumn(order, column, c) <==> n in order && column[n] == c
    ensures NoDup(order) ==> NoDup(InColumn(order, column, c))
  {
    if order != [] {
      var k := |order| - 1;
      var last := order[k];
      assert order == order[..k] + [last];
      InColumnMembers(order[..k], column, c);
      if NoDup(order) {
        assert last !in order[..k];
        NoDupConcat(InColumn(order[..k], column, c), if column[last] == c then [last] else []);
      }
    }
  }

  lemma InColumnSnoc(order: seq<NodeId>, column: map<NodeId, int>, i: int)
    requires forall n :: n in order ==> n in column
    requires 0 <= i < |order|
    ensures forall c ::
      InColumn(order[..i + 1], column, c) == InColumn(order[..i], column, c) + (if column[order[i]] == c then [order[i]] else [])
  {
    assert order[..i + 1][..i] == order[..i] && order[..i + 1][i] == order[i];
  }

  /** The columns used by `order`, each listed once, in order of first use. */
  function FirstUses(order: seq<NodeId>, column: map<NodeId, int>): seq<int>
    requires forall n :: n in order ==> n in column
  {
    if order == [] then []
    else
      var k := |order| - 1;
      var last := order[k];
      assert last in order;
      var before := FirstUses(order[..k], column);
      if column[last] in before then before else before + [column[last]]
  }

  /** `columns_to_nodes` as a value: every used column with its nodes in order. */
  function ColumnGroups(order: seq<NodeId>, column: map<NodeId, int>): map<int, seq<NodeId>>
    requires forall n :: n in order ==> n in column
  {
    map c | c in FirstUses(order, column) :: InColumn(order, column, c)
  }

  /** A column is used exactly when some node of `order` is in it. */
  lemma {:induction false} FirstUsesMeaning(order: seq<NodeId>, column: map<NodeId, int>)
    requires forall n :: n in order ==> n in column
    ensures NoDup(FirstUses(order, column))
    ensures forall c :: c in FirstUses(order, column) <==> InColumn(order, column, c) != []
  {
    if order != [] {
      var k := |order| - 1;
      var last := order[k];
      assert order[..k + 1] == order;
      InColumnSnoc(order, column, k);
      FirstUsesMeaning(order[..k], column);
      var before := FirstUses(order[..k], column);
      if column[last] !in before {
        NoDupConcat(before, [column[last]]);
      }
    }
  }

  /** The grouping loop: each column's nodes in assignment order, and the columns in first-use order. */
  method GroupByColumn(order: seq<NodeId>, column: map<NodeId, int>) returns (groups: map<int, seq<NodeId>>, keys: seq<int>)
    requires forall n :: n in order ==> n in column
    ensures groups == ColumnGroups(order, column) && keys == FirstUses(order, column)
  {
    groups, keys := map[], [];
    for i := 0 to |order|
      invariant GroupedUpTo(order, column, i, groups, keys)
    {
      var n := order[i];
      var c := column[n];
      GroupedStep(order, column, i, groups, keys);
      if c !in groups {
        groups := groups[c := []];
        keys := keys + [c];
      }
      groups := groups[c := groups[c] + [n]];
    }
    GroupedAll(order, column, groups, keys);
  }

  /** The grouping loop's invariant after `i` nodes: the tables hold the first `i` nodes' columns and groups. */
  ghost predicate GroupedUpTo(order: seq<NodeId>, column: map<NodeId, int>, i: nat, groups: map<int, seq<NodeId>>, keys: seq<int>)
    requires forall n :: n in order ==> n in column
    requires i <= |order|
  {
    && keys == FirstUses(order[..i], column)
    && (forall c :: c in groups <==> c in keys)
    && (forall c :: c in groups ==> groups[c] == InColumn(order[..i], column, c))
  }

  /** One more node appends to its column's group, opening the group on the column's first use. */
  lemma GroupedStep(order: seq<NodeId>, column: map<NodeId, int>, i: nat, groups: map<int, seq<NodeId>>, keys: seq<int>)
    requires forall n :: n in order ==> n in column
    requires i < |order| && GroupedUpTo(order, column, i, groups, keys)
    ensures var c := column[order[i]];
      GroupedUpTo(order, column, i + 1,
                  groups[c := (if c in groups then groups[c] else []) + [order[i]]],
                  if c in groups then keys else keys + [c])
  {
    var n := order[i];
    var c := column[n];
    InColumnSnoc(order, column, i);
    FirstUsesMeaning(order[..i], column);
    assert order[..i + 1][..i] == order[..i] && order[..i + 1][i] == n;
    assert c !in groups ==> InColumn(order[..i], column, c) == [];
  }

  /** After every node the tables are `columns_to_nodes` and the columns in order of first use. */
  lemma GroupedAll(order: seq<NodeId>, column: map<NodeId, int>, groups: map<int, seq<NodeId>>, keys: seq<int>)
    requires forall n :: n in order ==> n in column
    requires GroupedUpTo(order, column, |order|, groups, keys)
    ensures groups == ColumnGroups(order, column) && keys == FirstUses(order, column)
  {
    assert order[..|order|] == order;
    forall c ensures c in groups <==> c in ColumnGroups(order, column) {
      assert c in groups <==> c in keys;
    }
  }

  /** Sorting distinct column indexes gives them in strictly ascending order. */
  lemma SortedColumns(keys: seq<int>)
    requires NoDup(keys)
    ensures Elems(SortInts(keys)) == Elems(keys) && NoDup(SortInts(keys))
    ensures forall i, j :: 0 <= i < j < |SortInts(keys)| ==> SortInts(keys)[i] < SortInts(keys)[j]
  {
    var s := SortInts(keys);
    SortByPermutes(keys, (p: int) => p, IntLess);
    IntLessIsTotal();
    SortBySorted(keys, (p: int) => p, IntLess);
    assert forall x :: x in s <==> x in multiset(s);
    assert forall x :: x in keys <==> x in multiset(keys);
    PermutationKeepsNoDup(keys, s);
  }

  lemma PermutationKeepsNoDup<T>(s: seq<T>, t: seq<T>)
    requires NoDup(s) && multiset(s) == multiset(t)
    ensures NoDup(t)
  {
    forall i, j | 0 <= i < j < |t| ensures t[i] != t[j] {
      if t[i] == t[j] {
        var x := t[i];
        assert t == t[..j] + [x] + t[j + 1..];
        assert x in t[..j];
        NoDupCount(s, x);
        assert false;
      }
    }
  }

  lemma {:induction false} NoDupCount<T>(s: seq<T>, x: T)
    requires NoDup(s)
    ensures multiset(s)[x] <= 1
  {
    if s != [] {
      assert s == [s[0]] + s[1..];
      assert NoDup(s[1..]);
      NoDupCount(s[1..], x);
    }
  }

  /** The positions after Step 5 and the order each column was stacked in. */
  datatype Arrangement = Arrangement(positions: map<NodeId, Pos>, orders: map<int, seq<NodeId>>)

  /** Every column of `keys` has its nodes, an x position, and nodes in the node map. */
  predicate Grouped(keys: seq<int>, groups: map<int, seq<NodeId>>, columnX: map<int, int>, nodeMap: map<NodeId, Node>) {
    && (forall c :: c in keys ==> c in groups && c in columnX)
    && (forall c, n :: c in groups && n in groups[c] ==> n in nodeMap)
  }

  /** Step 5: the columns in ascending order, each sorted against what the earlier ones placed, then stacked. */
  function StackColumns(a: Arrangement, keys: seq<int>, groups: map<int, seq<NodeId>>, columnX: map<int, int>,
                        links: seq<Link>, startY: int, nodeMap: map<NodeId, Node>): Arrangement
    requires Grouped(keys, groups, columnX, nodeMap)
    decreases |keys|
  {
    if keys == [] then a
    else StackColumns(StackStep(a, keys[0], groups, columnX, links, startY, nodeMap), keys[1..], groups, columnX, links, startY, nodeMap)
  }

  /** One column of Step 5: sorted against what is placed so far, stacked, and its order recorded. */
  function StackStep(a: Arrangement, c: int, groups: map<int, seq<NodeId>>, columnX: map<int, int>,
                     links: seq<Link>, startY: int, nodeMap: map<NodeId, Node>): (r: Arrangement)
    requires c in groups && c in columnX && forall n :: n in groups[c] ==> n in nodeMap
    ensures r.positions.Keys == a.positions.Keys + Elems(groups[c])
    ensures forall n :: n in a.positions && n !in groups[c] ==> r.positions[n] == a.positions[n]
    ensures r.orders.Keys == a.orders.Keys + {c}
    ensures forall d :: d in a.orders && d != c ==> r.orders[d] == a.orders[d]
  {
    var ns := ColumnOrder(groups[c], links, a.positions, true);
    ColumnOrderPermutes(groups[c], links, a.positions, true);
    StackKeeps(a.positions, ns, columnX[c], startY, nodeMap);
    assert Elems(ns) == Elems(groups[c]) by {
      forall x ensures x in Elems(ns) <==> x in Elems(groups[c]) {
        assert x in ns <==> x in groups[c];
      }
    }
    Arrangement(Stack(a.positions, ns, columnX[c], startY, nodeMap), a.orders[c := ns])
  }

  /** The Step 5 loop over the sorted column indexes. */
  method StackAllColumns(keys: seq<int>, groups: map<int, seq<NodeId>>, columnX: map<int, int>,
                         links: seq<Link>, startY: int, nodeMap: map<NodeId, Node>)
    returns (positions: map<NodeId, Pos>, ghost orders: map<int, seq<NodeId>>)
    requires Grouped(keys, groups, columnX, nodeMap)
    ensures Arrangement(positions, orders) == StackColumns(Arrangement(map[], map[]), keys, groups, columnX, links, startY, nodeMap)
  {
    positions, orders := map[], map[];
    for i := 0 to |keys|
      invariant StackColumns(Arrangement(positions, orders), keys[i..], groups, columnX, links, startY, nodeMap)
        == StackColumns(Arrangement(map[], map[]), keys, groups, columnX, links, startY, nodeMap)
    {
      var c := keys[i];
      assert keys[i..][1..] == keys[i + 1..];
      var ns := ColumnOrder(groups[c], links, positions, true);
      ColumnOrderPermutes(groups[c], links, positions, true);
      positions := StackColumn(positions, ns, columnX[c], startY, nodeMap);
      orders := orders[c := ns];
    }
  }

  /** Every grouped node is assigned to the column it is grouped under. */
  ghost predicate ByColumn(groups: map<int, seq<NodeId>>, column: map<NodeId, int>) {
    && (forall c, n :: c in groups && n in groups[c] ==> n in column && column[n] == c)
    && (forall c :: c in groups ==> NoDup(groups[c]))
  }

  /** The nodes of the columns `keys`. */
  ghost function Members(keys: seq<int>, groups: map<int, seq<NodeId>>): set<NodeId>
    requires forall c :: c in keys ==> c in groups
    decreases |keys|
  {
    if keys == [] then {}
    else
      var c := keys[0];
      assert c in keys;
      Elems(groups[c]) + Members(keys[1..], groups)
  }

  /** A node is a member exactly when it is in the group of one of the columns. */
  lemma {:induction false} MembersMeaning(keys: seq<int>, groups: map<int, seq<NodeId>>, n: NodeId)
    requires forall c :: c in keys ==> c in groups
    decreases |keys|
    ensures n in Members(keys, groups) <==> exists c :: c in keys && n in groups[c]
  {
    if keys != [] {
      MembersMeaning(keys[1..], groups, n);
      assert keys == [keys[0]] + keys[1..];
    }
  }

  /** A stacked column stays stacked as long as none of its own nodes move. */
  lemma StackedFromFrame(p: map<NodeId, Pos>, q: map<NodeId, Pos>, ns: seq<NodeId>, x: int, y: int, nodeMap: map<NodeId, Node>)
    requires StackedFrom(p, ns, x, y, nodeMap)
    requires forall i :: 0 <= i < |ns| ==> ns[i] in q && q[ns[i]] == p[ns[i]]
    ensures StackedFrom(q, ns, x, y, nodeMap)
  {
  }

  /** A node of a stacked column sits at that column's x. */
  lemma StackedMember(p: map<NodeId, Pos>, ns: seq<NodeId>, x: int, y: int, nodeMap: map<NodeId, Node>, n: NodeId)
    requires StackedFrom(p, ns, x, y, nodeMap) && n in ns
    ensures n in p && p[n].x == x
  {
    var i :| 0 <= i < |ns| && ns[i] == n;
  }

  /** Step 5 records an order for each of its columns and for no other. */
  lemma {:induction false} StackColumnsOrders(a: Arrangement, keys: seq<int>, groups: map<int, seq<NodeId>>, columnX: map<int, int>,
                                              links: seq<Link>, startY: int, nodeMap: map<NodeId, Node>)
    requires Grouped(keys, groups, columnX, nodeMap)
    decreases |keys|
    ensures forall c :: c in StackColumns(a, keys, groups, columnX, links, startY, nodeMap).orders <==> c in a.orders || c in keys
  {
    if keys != [] {
      var next := StackStep(a, keys[0], groups, columnX, links, startY, nodeMap);
      StackColumnsOrders(next, keys[1..], groups, columnX, links, startY, nodeMap);
      assert forall c :: c in keys <==> c == keys[0] || c in keys[1..];
    }
  }

  /** Step 5 leaves the orders of the columns it does not stack as they were. */
  lemma {:induction false} StackColumnsKeepsOrders(a: Arrangement, keys: seq<int>, groups: map<int, seq<NodeId>>, columnX: map<int, int>,
                                                   links: seq<Link>, startY: int, nodeMap: map<NodeId, Node>, c: int)
    requires Grouped(keys, groups, columnX, nodeMap)
    requires c in a.orders && c !in keys
    decreases |keys|
    ensures c in StackColumns(a, keys, groups, columnX, links, startY, nodeMap).orders
    ensures StackColumns(a, keys, groups, columnX, links, startY, nodeMap).orders[c] == a.orders[c]
  {
    if keys != [] {
      var next := StackStep(a, keys[0], groups, columnX, links, startY, nodeMap);
      assert c != keys[0];
      assert c !in keys[1..];
      StackColumnsKeepsOrders(next, keys[1..], groups, columnX, links, startY, nodeMap, c);
    }
  }

  /** Step 5 places exactly the grouped nodes. */
  lemma {:induction false} StackColumnsMoves(a: Arrangement, keys: seq<int>, groups: map<int, seq<NodeId>>, columnX: map<int, int>,
                                             links: seq<Link>, startY: int, nodeMap: map<NodeId, Node>)
    requires Grouped(keys, groups, columnX, nodeMap)
    decreases |keys|
    ensures forall n :: (n in StackColumns(a, keys, groups, columnX, links, startY, nodeMap).positions
                         <==> n in a.positions || n in Members(keys, groups))
  {
    if keys != [] {
      StackColumnsMoves(StackStep(a, keys[0], groups, columnX, links, startY, nodeMap), keys[1..], groups, columnX, links, startY, nodeMap);
    }
  }

  /** Step 5 moves no node outside the grouped ones. */
  lemma {:induction false} StackColumnsKeeps(a: Arrangement, keys: seq<int>, groups: map<int, seq<NodeId>>, columnX: map<int, int>,
                                             links: seq<Link>, startY: int, nodeMap: map<NodeId, Node>, n: NodeId)
    requires Grouped(keys, groups, columnX, nodeMap)
    requires n in a.positions && n !in Members(keys, groups)
    decreases |keys|
    ensures n in StackColumns(a, keys, groups, columnX, links, startY, nodeMap).positions
    ensures StackColumns(a, keys, groups, columnX, links, startY, nodeMap).positions[n] == a.positions[n]
  {
    if keys != [] {
      StackColumnsKeeps(StackStep(a, keys[0], groups, columnX, links, startY, nodeMap), keys[1..], groups, columnX, links, startY, nodeMap, n);
    }
  }

  /** A node of the first column is in none of the later ones. */
  lemma NotInLaterColumns(keys: seq<int>, groups: map<int, seq<NodeId>>, column: map<NodeId, int>, n: NodeId)
    requires ByColumn(groups, column) && NoDup(keys) && keys != []
    requires forall c :: c in keys ==> c in groups
    requires keys[0] in groups && n in groups[keys[0]]
    ensures n !in Members(keys[1..], groups)
  {
    forall c | c in keys[1..] ensures n !in groups[c] {
      var j :| 0 <= j < |keys[1..]| && keys[1..][j] == c;
      assert keys[j + 1] == c && c != keys[0];
      assert column[n] == keys[0];
    }
    MembersMeaning(keys[1..], groups, n);
  }

  /** After Step 5 every column is stacked from `startY` at its x, in an order that is a permutation of its nodes. */
  lemma {:induction false} StackColumnsShape(a: Arrangement, keys: seq<int>, groups: map<int, seq<NodeId>>, columnX: map<int, int>,
                                             links: seq<Link>, startY: int, nodeMap: map<NodeId, Node>, column: map<NodeId, int>)
    requires Grouped(keys, groups, columnX, nodeMap) && ByColumn(groups, column) && NoDup(keys)
    decreases |keys|
    ensures forall c :: c in keys ==>
      && c in StackColumns(a, keys, groups, columnX, links, startY, nodeMap).orders
      && multiset(StackColumns(a, keys, groups, columnX, links, startY, nodeMap).orders[c]) == multiset(groups[c])
      && StackedFrom(StackColumns(a, keys, groups, columnX, links, startY, nodeMap).positions,
                     StackColumns(a, keys, groups, columnX, links, startY, nodeMap).orders[c], columnX[c], startY, nodeMap)
  {
    if keys != [] {
      var c, rest := keys[0], keys[1..];
      var ns := ColumnOrder(groups[c], links, a.positions, true);
      ColumnOrderPermutes(groups[c], links, a.positions, true);
      var next := StackStep(a, c, groups, columnX, links, startY, nodeMap);
      assert keys == [c] + rest;
      StackColumnsShape(next, rest, groups, columnX, links, startY, nodeMap, column);
      StackColumnsFirst(a, keys, groups, columnX, links, startY, nodeMap, column);
    }
  }

  /** The first column Step 5 stacks stays stacked while the later columns are stacked. */
  lemma StackColumnsFirst(a: Arrangement, keys: seq<int>, groups: map<int, seq<NodeId>>, columnX: map<int, int>,
                          links: seq<Link>, startY: int, nodeMap: map<NodeId, Node>, column: map<NodeId, int>)
    requires Grouped(keys, groups, columnX, nodeMap) && ByColumn(groups, column) && NoDup(keys) && keys != []
    ensures keys[0] in StackColumns(a, keys, groups, columnX, links, startY, nodeMap).orders
    ensures var r := StackColumns(a, keys, groups, columnX, links, startY, nodeMap);
      && multiset(r.orders[keys[0]]) == multiset(groups[keys[0]])
      && StackedFrom(r.positions, r.orders[keys[0]], columnX[keys[0]], startY, nodeMap)
  {
    var c, rest := keys[0], keys[1..];
    assert c in keys;
    var ns := ColumnOrder(groups[c], links, a.positions, true);
    ColumnOrderPermutes(groups[c], links, a.positions, true);
    var next := StackStep(a, c, groups, columnX, links, startY, nodeMap);
    assert next == Arrangement(Stack(a.positions, ns, columnX[c], startY, nodeMap), a.orders[c := ns]);
    var r := StackColumns(a, keys, groups, columnX, links, startY, nodeMap);
    assert r == StackColumns(next, rest, groups, columnX, links, startY, nodeMap);
    assert c !in rest;
    StackColumnsKeepsOrders(next, rest, groups, columnX, links, startY, nodeMap, c);
    StackShape(a.positions, ns, columnX[c], startY, nodeMap);
    forall i | 0 <= i < |ns| ensures ns[i] in r.positions && r.positions[ns[i]] == next.positions[ns[i]] {
      var n := ns[i];
      assert n in groups[c];
      NotInLaterColumns(keys, groups, column, n);
      StackColumnsKeeps(next, rest, groups, columnX, links, startY, nodeMap, n);
    }
    StackedFromFrame(next.positions, r.positions, ns, columnX[c], startY, nodeMap);
  }

  /** Step 5b: when columns 0 and 1 are both used, column 0 is re-sorted by its children's input ports and re-stacked. */
  function ResortFirstColumn(a: Arrangement, groups: map<int, seq<NodeId>>, columnX: map<int, int>,
                             links: seq<Link>, startY: int, nodeMap: map<NodeId, Node>): Arrangement
    requires 0 in groups ==> 0 in columnX && forall n :: n in groups[0] ==> n in nodeMap
  {
    if 0 in groups && 1 in groups then
      var ns := ColumnOrder(groups[0], links, a.positions, false);
      ColumnOrderPermutes(groups[0], links, a.positions, false);
      Arrangement(Stack(a.positions, ns, columnX[0], startY, nodeMap), a.orders[0 := ns])
    else a
  }

  /** The Step 5b block. */
  method ResortColumnZero(positions: map<NodeId, Pos>, ghost orders: map<int, seq<NodeId>>, groups: map<int, seq<NodeId>>,
                          columnX: map<int, int>, links: seq<Link>, startY: int, nodeMap: map<NodeId, Node>)
    returns (positions': map<NodeId, Pos>, ghost orders': map<int, seq<NodeId>>)
    requires 0 in groups ==> 0 in columnX && forall n :: n in groups[0] ==> n in nodeMap
    ensures Arrangement(positions', orders') == ResortFirstColumn(Arrangement(positions, orders), groups, columnX, links, startY, nodeMap)
  {
    positions', orders' := positions, orders;
    if 0 in groups && 1 in groups {
      var ns := ColumnOrder(groups[0], links, positions, false);
      ColumnOrderPermutes(groups[0], links, positions, false);
      positions' := StackColumn(positions, ns, columnX[0], startY, nodeMap);
      orders' := orders[0 := ns];
    }
  }

  /** Step 5b records a new order for column 0 only. */
  lemma ResortFirstColumnOrders(a: Arrangement, groups: map<int, seq<NodeId>>, columnX: map<int, int>,
                                links: seq<Link>, startY: int, nodeMap: map<NodeId, Node>)
    requires 0 in groups ==> 0 in columnX && forall n :: n in groups[0] ==> n in nodeMap
    ensures ResortFirstColumn(a, groups, columnX, links, startY, nodeMap).orders.Keys
      == a.orders.Keys + (if 0 in groups && 1 in groups then {0} else {})
    ensures forall c :: c in a.orders && c != 0 ==> ResortFirstColumn(a, groups, columnX, links, startY, nodeMap).orders[c] == a.orders[c]
  {
  }

  /** Step 5b positions the nodes of column 0 and moves no other node. */
  lemma ResortFirstColumnMoves(a: Arrangement, groups: map<int, seq<NodeId>>, columnX: map<int, int>,
                               links: seq<Link>, startY: int, nodeMap: map<NodeId, Node>)
    requires 0 in groups ==> 0 in columnX && forall n :: n in groups[0] ==> n in nodeMap
    ensures forall n :: (n in ResortFirstColumn(a, groups, columnX, links, startY, nodeMap).positions
                         <==> n in a.positions || (0 in groups && 1 in groups && n in groups[0]))
    ensures forall n :: n in a.positions && (0 in groups ==> n !in groups[0]) ==>
      ResortFirstColumn(a, groups, columnX, links, startY, nodeMap).positions[n] == a.positions[n]
  {
    if 0 in groups && 1 in groups {
      var ns := ColumnOrder(groups[0], links, a.positions, false);
      ColumnOrderPermutes(groups[0], links, a.positions, false);
      StackKeeps(a.positions, ns, columnX[0], startY, nodeMap);
    }
  }

  /** After Step 5b column 0 is stacked from `startY` in a permutation of its nodes, ordered by child input ports. */
  lemma ResortFirstColumnShape(a: Arrangement, groups: map<int, seq<NodeId>>, columnX: map<int, int>,
                               links: seq<Link>, startY: int, nodeMap: map<NodeId, Node>)
    requires 0 in groups && 1 in groups && 0 in columnX
    requires (forall n :: n in groups[0] ==> n in nodeMap) && NoDup(groups[0])
    ensures multiset(ResortFirstColumn(a, groups, columnX, links, startY, nodeMap).orders[0]) == multiset(groups[0])
    ensures SortedBy(ResortFirstColumn(a, groups, columnX, links, startY, nodeMap).orders[0],
                     (n: NodeId) => SortKey(links, a.positions, n, false), LexLess)
    ensures StackedFrom(ResortFirstColumn(a, groups, columnX, links, startY, nodeMap).positions,
                        ResortFirstColumn(a, groups, columnX, links, startY, nodeMap).orders[0], columnX[0], startY, nodeMap)
  {
    var ns := ColumnOrder(groups[0], links, a.positions, false);
    ColumnOrderPermutes(groups[0], links, a.positions, false);
    ColumnOrderFacts(groups[0], links, a.positions, false);
    StackShape(a.positions, ns, columnX[0], startY, nodeMap);
  }

  /** Every node of a column gets the column's width and keeps its height. */
  function SizeColumn(sizes: map<NodeId, Size>, ns: seq<NodeId>, width: int, nodeMap: map<NodeId, Node>): map<NodeId, Size>
    requires forall n :: n in ns ==> n in nodeMap
    decreases |ns|
  {
    if ns == [] then sizes
    else SizeColumn(sizes[ns[0] := Size(width, Height(nodeMap, ns[0]))], ns[1..], width, nodeMap)
  }

  /** `node_sizes` over the sorted column indexes. */
  function SizeColumns(sizes: map<NodeId, Size>, keys: seq<int>, groups: map<int, seq<NodeId>>, widths: map<int, int>,
                       nodeMap: map<NodeId, Node>): map<NodeId, Size>
    requires Grouped(keys, groups, widths, nodeMap)
    decreases |keys|
  {
    if keys == [] then sizes
    else
      var c := keys[0];
      assert c in keys;
      SizeColumns(SizeColumn(sizes, groups[c], widths[c], nodeMap), keys[1..], groups, widths, nodeMap)
  }

  /** The width-matching loops. */
  method ColumnSizes(keys: seq<int>, groups: map<int, seq<NodeId>>, widths: map<int, int>, nodeMap: map<NodeId, Node>)
    returns (sizes: map<NodeId, Size>)
    requires Grouped(keys, groups, widths, nodeMap)
    ensures sizes == SizeColumns(map[], keys, groups, widths, nodeMap)
  {
    sizes := map[];
    for i := 0 to |keys|
      invariant SizeColumns(sizes, keys[i..], groups, widths, nodeMap) == SizeColumns(map[], keys, groups, widths, nodeMap)
    {
      var c := keys[i];
      assert keys[i..][1..] == keys[i + 1..];
      var ns := groups[c];
      ghost var before := sizes;
      for j := 0 to |ns|
        invariant SizeColumn(sizes, ns[j..], widths[c], nodeMap) == SizeColumn(before, ns, widths[c], nodeMap)
      {
        assert ns[j..][1..] == ns[j + 1..];
        sizes := sizes[ns[j] := Size(widths[c], Height(nodeMap, ns[j]))];
      }
    }
  }

  lemma {:induction false} SizeColumnFacts(sizes: map<NodeId, Size>, ns: seq<NodeId>, width: int, nodeMap: map<NodeId, Node>)
    requires forall n :: n in ns ==> n in nodeMap
    decreases |ns|
    ensures SizeColumn(sizes, ns, width, nodeMap).Keys == sizes.Keys + Elems(ns)
    ensures forall n :: n in ns ==> SizeColumn(sizes, ns, width, nodeMap)[n] == Size(width, Height(nodeMap, n))
    ensures forall n :: n in sizes && n !in ns ==> SizeColumn(sizes, ns, width, nodeMap)[n] == sizes[n]
  {
    if ns != [] {
      assert ns == [ns[0]] + ns[1..];
      SizeColumnFacts(sizes[ns[0] := Size(width, Height(nodeMap, ns[0]))], ns[1..], width, nodeMap);
    }
  }

  /** The width-matching loops size exactly the nodes of the columns and leave other entries alone. */
  lemma {:induction false} SizeColumnsKeeps(sizes: map<NodeId, Size>, keys: seq<int>, groups: map<int, seq<NodeId>>, widths: map<int, int>,
                                            nodeMap: map<NodeId, Node>)
    requires Grouped(keys, groups, widths, nodeMap)
    decreases |keys|
    ensures SizeColumns(sizes, keys, groups, widths, nodeMap).Keys == sizes.Keys + Members(keys, groups)
    ensures forall n :: n in sizes && n !in Members(keys, groups) ==> SizeColumns(sizes, keys, groups, widths, nodeMap)[n] == sizes[n]
  {
    if keys != [] {
      var c := keys[0];
      SizeColumnFacts(sizes, groups[c], widths[c], nodeMap);
      SizeColumnsKeeps(SizeColumn(sizes, groups[c], widths[c], nodeMap), keys[1..], groups, widths, nodeMap);
    }
  }

  /** Every node of every column gets exactly `[column width, own height]`. */
  lemma {:induction false} SizeColumnsValues(sizes: map<NodeId, Size>, keys: seq<int>, groups: map<int, seq<NodeId>>, widths: map<int, int>,
                                             nodeMap: map<NodeId, Node>, column: map<NodeId, int>)
    requires Grouped(keys, groups, widths, nodeMap) && ByColumn(groups, column)
    decreases |keys|
    ensures forall n :: n in Members(keys, groups) ==>
      && n in column && column[n] in widths && n in nodeMap
      && n in SizeColumns(sizes, keys, groups, widths, nodeMap)
      && SizeColumns(sizes, keys, groups, widths, nodeMap)[n] == Size(widths[column[n]], Height(nodeMap, n))
  {
    if keys != [] {
      var c, rest := keys[0], keys[1..];
      assert c in keys;
      var next := SizeColumn(sizes, groups[c], widths[c], nodeMap);
      SizeColumnFacts(sizes, groups[c], widths[c], nodeMap);
      SizeColumnsKeeps(next, rest, groups, widths, nodeMap);
      SizeColumnsValues(next, rest, groups, widths, nodeMap, column);
      forall n | n in groups[c] && n !in Members(rest, groups)
        ensures SizeColumns(sizes, keys, groups, widths, nodeMap)[n] == Size(widths[column[n]], Height(nodeMap, n))
      {
        assert column[n] == c;
      }
    }
  }
}
