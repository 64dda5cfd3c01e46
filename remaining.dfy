// Phase C of the single-component layout (tabularize.py,
// organize_single_component, "Step 4"): every node off the longest chains
// gets a column, one node at a time in node order. A node goes right of its
// rightmost placed parent, else left of its leftmost placed child, else into a
// new column after the highest column index. A column that does not exist yet
// is created right of the highest-indexed column, whatever its index, so a
// column -1 lands on the right-hand side.
module RemainingColumns {
  import opened Seqs
  import opened Graph
  import opened Columns

  /**
   * The column tables while columns are assigned: x position and width per
   * column index, the column of each node, and the order in which the nodes
   * got their column (the insertion order of `node_columns`).
   */
  datatype ColumnState = ColumnState(x: map<int, int>, w: map<int, int>, column: map<NodeId, int>, order: seq<NodeId>)

  /** Every column has both an x position and a width, and every assigned column exists. */
  predicate Consistent(st: ColumnState) {
    st.x.Keys == st.w.Keys && forall n :: n in st.column ==> st.column[n] in st.x
  }

  /** Every node is no wider than its column. */
  predicate WidthsCover(st: ColumnState, nodeMap: map<NodeId, Node>) {
    forall n :: n in st.column ==> n in nodeMap && st.column[n] in st.w && st.w[st.column[n]] >= Width(nodeMap, n)
  }

  /** `[node_columns[m] for m in ids if m in node_columns]` */
  function ColumnsOf(ids: seq<NodeId>, column: map<NodeId, int>): seq<int> {
    if ids == [] then []
    else (if ids[0] in column then [column[ids[0]]] else []) + ColumnsOf(ids[1..], column)
  }

  /** Every listed node that has a column contributes that column. */
  lemma {:induction false} ColumnsOfComplete(ids: seq<NodeId>, column: map<NodeId, int>)
    ensures forall m :: m in ids && m in column ==> column[m] in ColumnsOf(ids, column)
  {
    if ids != [] {
      ColumnsOfComplete(ids[1..], column);
      forall m | m in ids && m in column ensures column[m] in ColumnsOf(ids, column) {
        if m != ids[0] {
          assert m in ids[1..];
        }
      }
    }
  }

  /** Every listed column is the column of a listed node. */
  lemma {:induction false} ColumnsOfSound(ids: seq<NodeId>, column: map<NodeId, int>)
    ensures forall c :: c in ColumnsOf(ids, column) ==> exists m :: m in ids && m in column && column[m] == c
  {
    if ids != [] {
      ColumnsOfSound(ids[1..], column);
      var rest := ColumnsOf(ids[1..], column);
      forall c | c in ColumnsOf(ids, column) ensures exists m :: m in ids && m in column && column[m] == c {
        if c in rest {
          var m :| m in ids[1..] && m in column && column[m] == c;
          assert m in ids;
        } else {
          var head := ids[0];
          assert head in ids && head in column && column[head] == c;
        }
      }
    }
  }

  /** The column chosen for a node with these children and parents. */
  function TargetColumn(st: ColumnState, kids: seq<NodeId>, parents: seq<NodeId>): int {
    var parentColumns := ColumnsOf(parents, st.column);
    var childColumns := ColumnsOf(kids, st.column);
    if parentColumns != [] then SeqMax(parentColumns) + 1
    else if childColumns != [] then SeqMin(childColumns) - 1
    else if st.x.Keys != {} then SetMax(st.x.Keys) + 1
    else 0
  }

  /**
   * The placement rule: one past the rightmost placed parent; else one before
   * the leftmost placed child; else one past the highest column index, or 0
   * when there is no column yet.
   */
  lemma TargetColumnRule(st: ColumnState, kids: seq<NodeId>, parents: seq<NodeId>)
    ensures var target := TargetColumn(st, kids, parents);
      && ((exists p :: p in parents && p in st.column) ==>
            && (forall p :: p in parents && p in st.column ==> st.column[p] < target)
            && (exists p :: p in parents && p in st.column && st.column[p] == target - 1))
      && ((forall p :: p in parents ==> p !in st.column) && (exists k :: k in kids && k in st.column) ==>
            && (forall k :: k in kids && k in st.column ==> target < st.column[k])
            && (exists k :: k in kids && k in st.column && st.column[k] == target + 1))
      && ((forall p :: p in parents ==> p !in st.column) && (forall k :: k in kids ==> k !in st.column) ==>
            && (forall c :: c in st.x ==> c < target)
            && (if st.x.Keys == {} then target == 0 else target - 1 in st.x))
  {
    ColumnsOfComplete(parents, st.column);
    ColumnsOfSound(parents, st.column);
    ColumnsOfComplete(kids, st.column);
    ColumnsOfSound(kids, st.column);
  }

  /** Put node `n` of the given width into column `target`, creating the column when it is missing. */
  function PlaceInColumn(st: ColumnState, n: NodeId, width: int, target: int): ColumnState
    requires st.x.Keys == st.w.Keys
  {
    if target !in st.x then
      var newX :=
        if st.x.Keys != {} then
          var last := SetMax(st.x.Keys);
          st.x[last] + st.w[last] + ColumnSpacing
        else StartX;
      ColumnState(st.x[target := newX], st.w[target := width], st.column[n := target], st.order + [n])
    else
      ColumnState(st.x, st.w[target := Max(st.w[target], width)], st.column[n := target], st.order + [n])
  }

  /** One iteration of the loop: choose the node's column, then place it there. */
  function AssignOne(st: ColumnState, n: NodeId, nodeMap: map<NodeId, Node>,
                     children: map<NodeId, seq<NodeId>>, parents: map<NodeId, seq<NodeId>>): ColumnState
    requires st.x.Keys == st.w.Keys && n in nodeMap
  {
    PlaceInColumn(st, n, Width(nodeMap, n), TargetColumn(st, Lookup(children, n), Lookup(parents, n)))
  }

  /** The state after the loop has run over `pending`. */
  function AssignAll(st: ColumnState, pending: seq<NodeId>, nodeMap: map<NodeId, Node>,
                     children: map<NodeId, seq<NodeId>>, parents: map<NodeId, seq<NodeId>>): ColumnState
    requires st.x.Keys == st.w.Keys && forall n :: n in pending ==> n in nodeMap
    ensures AssignAll(st, pending, nodeMap, children, parents).x.Keys == AssignAll(st, pending, nodeMap, children, parents).w.Keys
  {
    if pending == [] then st
    else
      var k := |pending| - 1;
      AssignOne(AssignAll(st, pending[..k], nodeMap, children, parents), pending[k], nodeMap, children, parents)
  }

  /** One iteration of the Phase C loop: choose the column, create or widen it, record the node. */
  method AssignColumn(st: ColumnState, n: NodeId, nodeMap: map<NodeId, Node>,
                      children: map<NodeId, seq<NodeId>>, parents: map<NodeId, seq<NodeId>>)
    returns (r: ColumnState)
    requires st.x.Keys == st.w.Keys && n in nodeMap
    ensures r == AssignOne(st, n, nodeMap, children, parents)
  {
    var columnX, columnWidths, nodeColumns, order := st.x, st.w, st.column, st.order;
    var target := TargetColumn(st, Lookup(children, n), Lookup(parents, n));
    var width := Width(nodeMap, n);
    if target !in columnX {
      var newX;
      if columnX.Keys != {} {
        var last := SetMax(columnX.Keys);
        newX := columnX[last] + columnWidths[last] + ColumnSpacing;
      } else {
        newX := StartX;
      }
      columnX := columnX[target := newX];
      columnWidths := columnWidths[target := width];
    } else {
      columnWidths := columnWidths[target := Max(columnWidths[target], width)];
    }
    nodeColumns := nodeColumns[n := target];
    order := order + [n];
    r := ColumnState(columnX, columnWidths, nodeColumns, order);
  }

  /** The Phase C loop over the nodes off the longest chains, in node order. */
  method AssignRemaining(st0: ColumnState, pending: seq<NodeId>, nodeMap: map<NodeId, Node>,
                         children: map<NodeId, seq<NodeId>>, parents: map<NodeId, seq<NodeId>>)
    returns (st: ColumnState)
    requires st0.x.Keys == st0.w.Keys && forall n :: n in pending ==> n in nodeMap
    ensures st == AssignAll(st0, pending, nodeMap, children, parents)
  {
    st := st0;
    for i := 0 to |pending|
      invariant st == AssignAll(st0, pending[..i], nodeMap, children, parents)
    {
      AssignAllSnoc(st0, pending, i, nodeMap, children, parents);
      st := AssignColumn(st, pending[i], nodeMap, children, parents);
    }
    assert pending[..|pending|] == pending;
  }

  lemma AssignAllSnoc(st0: ColumnState, pending: seq<NodeId>, i: nat, nodeMap: map<NodeId, Node>,
                      children: map<NodeId, seq<NodeId>>, parents: map<NodeId, seq<NodeId>>)
    requires st0.x.Keys == st0.w.Keys && forall n :: n in pending ==> n in nodeMap
    requires i < |pending|
    ensures AssignAll(st0, pending[..i + 1], nodeMap, children, parents)
      == AssignOne(AssignAll(st0, pending[..i], nodeMap, children, parents), pending[i], nodeMap, children, parents)
  {
    assert pending[..i + 1][..i] == pending[..i] && pending[..i + 1][i] == pending[i];
  }

  /** One step keeps the tables consistent, moves no column and narrows none, and fits the node into its column. */
  lemma AssignOneFacts(st: ColumnState, n: NodeId, nodeMap: map<NodeId, Node>,
                       children: map<NodeId, seq<NodeId>>, parents: map<NodeId, seq<NodeId>>)
    requires Consistent(st) && n in nodeMap
    ensures var r := AssignOne(st, n, nodeMap, children, parents);
      && Consistent(r)
      && r.column.Keys == st.column.Keys + {n} && r.order == st.order + [n]
      && (forall m :: m in st.column && m != n ==> r.column[m] == st.column[m])
      && (forall c :: c in st.x ==> c in r.x && r.x[c] == st.x[c] && r.w[c] >= st.w[c])
      && r.w[r.column[n]] >= Width(nodeMap, n)
  {
  }

  /**
   * Over the whole loop: the nodes get their columns in order, earlier
   * assignments and column positions stay, and every node still fits its
   * column.
   */
  lemma {:induction false} AssignAllFacts(st: ColumnState, pending: seq<NodeId>, nodeMap: map<NodeId, Node>,
                                          children: map<NodeId, seq<NodeId>>, parents: map<NodeId, seq<NodeId>>)
    requires Consistent(st) && WidthsCover(st, nodeMap)
    requires forall n :: n in pending ==> n in nodeMap && n !in st.column
    ensures var r := AssignAll(st, pending, nodeMap, children, parents);
      && Consistent(r)
      && WidthsCover(r, nodeMap)
      && r.column.Keys == st.column.Keys + Elems(pending)
      && r.order == st.order + pending
      && (forall m :: m in st.column ==> r.column[m] == st.column[m])
      && (forall c :: c in st.x ==> c in r.x && r.x[c] == st.x[c])
  {
    if pending != [] {
      var k := |pending| - 1;
      var init := pending[..k];
      assert pending == init + [pending[k]];
      AssignAllFacts(st, init, nodeMap, children, parents);
      var before := AssignAll(st, init, nodeMap, children, parents);
      AssignOneFacts(before, pending[k], nodeMap, children, parents);
      var r := AssignAll(st, pending, nodeMap, children, parents);
      forall m | m in r.column ensures m in nodeMap && r.column[m] in r.w && r.w[r.column[m]] >= Width(nodeMap, m) {
        if m != pending[k] {
          assert m in before.column && r.column[m] == before.column[m];
        }
      }
    }
  }

  /**
   * The "left of its leftmost child" rule does not place the node on the left:
   * a node whose only placed neighbours are children in column 0 gets column
   * -1, which is created right of the highest-indexed column: while the
   * columns still run left to right by index, right of every column.
   */
  lemma LeftOfFirstColumnLandsRight(st: ColumnState, n: NodeId, nodeMap: map<NodeId, Node>,
                                    children: map<NodeId, seq<NodeId>>, parents: map<NodeId, seq<NodeId>>)
    requires Consistent(st) && n in nodeMap
    requires forall c :: c in st.x ==> 0 <= c
    requires forall c, d :: c in st.x && d in st.x && c <= d ==> st.x[c] <= st.x[d]
    requires forall c :: c in st.w ==> st.w[c] >= 0
    requires forall p :: p in Lookup(parents, n) ==> p !in st.column
    requires exists k :: k in Lookup(children, n) && k in st.column && st.column[k] == 0
    ensures var r := AssignOne(st, n, nodeMap, children, parents);
      && r.column[n] == -1
      && forall c :: c in st.x ==> st.x[c] < r.x[-1]
  {
    var kids := Lookup(children, n);
    var target := TargetColumn(st, kids, Lookup(parents, n));
    TargetColumnRule(st, kids, Lookup(parents, n));
    forall k | k in kids && k in st.column ensures target < st.column[k] && 0 <= st.column[k] {
    }
    assert target == -1;
    var last := SetMax(st.x.Keys);
    forall c | c in st.x ensures st.x[c] < st.x[last] + st.w[last] + ColumnSpacing {
    }
  }
}
