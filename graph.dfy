// The input model (nodes and slot-addressed links) and the graph builder of
// tabularize.py (build_node_graph), plus the "connected nodes only" filter
// that organize_nodes and detect_link_overlaps both start with.
module Graph {
  import opened Seqs

  type NodeId = int

  datatype Pos = Pos(x: int, y: int)

  datatype Size = Size(w: int, h: int)

  /** A node: its id, its opaque type label, position and size. */
  datatype Node = Node(id: NodeId, kind: string, pos: Pos, size: Size)

  /** A directed link from an output slot of `origin` to an input slot of `target`. */
  datatype Link = Link(id: int, origin: NodeId, originSlot: int, target: NodeId, targetSlot: int)

  function Ids(nodes: seq<Node>): (ids: seq<NodeId>)
    ensures |ids| == |nodes| && forall i :: 0 <= i < |nodes| ==> ids[i] == nodes[i].id
  {
    if nodes == [] then [] else [nodes[0].id] + Ids(nodes[1..])
  }

  function IdSet(nodes: seq<Node>): set<NodeId> {
    set n | n in nodes :: n.id
  }

  /** Node ids are unique within one graph snapshot. */
  predicate DistinctIds(nodes: seq<Node>) {
    forall i, j :: 0 <= i < j < |nodes| ==> nodes[i].id != nodes[j].id
  }

  /** `{node['id']: node for node in nodes}`: a later node with the same id wins. */
  function NodeMap(nodes: seq<Node>): (m: map<NodeId, Node>)
    ensures m.Keys == IdSet(nodes)
    ensures forall id :: id in m ==> m[id].id == id && m[id] in nodes
  {
    if nodes == [] then map[]
    else
      var init := nodes[..|nodes| - 1];
      var last := nodes[|nodes| - 1];
      assert nodes == init + [last];
      NodeMap(init)[last.id := last]
  }

  lemma {:induction false} NodeMapAt(nodes: seq<Node>, i: int)
    requires DistinctIds(nodes) && 0 <= i < |nodes|
    ensures nodes[i].id in NodeMap(nodes) && NodeMap(nodes)[nodes[i].id] == nodes[i]
  {
    if i < |nodes| - 1 {
      var init := nodes[..|nodes| - 1];
      assert init[i] == nodes[i];
      NodeMapAt(init, i);
    }
  }

  /** A link whose two endpoints are both among the known node ids. */
  predicate Known(l: Link, known: set<NodeId>) {
    l.origin in known && l.target in known
  }

  /** The children list of `o`: targets of known links leaving `o`, in link order. */
  function Targets(links: seq<Link>, known: set<NodeId>, o: NodeId): seq<NodeId> {
    if links == [] then []
    else
      (if links[0].origin == o && Known(links[0], known) then [links[0].target] else [])
      + Targets(links[1..], known, o)
  }

  /** The parents list of `t`: origins of known links entering `t`, in link order. */
  function Origins(links: seq<Link>, known: set<NodeId>, t: NodeId): seq<NodeId> {
    if links == [] then []
    else
      (if links[0].target == t && Known(links[0], known) then [links[0].origin] else [])
      + Origins(links[1..], known, t)
  }

  /** Children lists of every known node, over the given links. */
  function ChildLists(links: seq<Link>, known: set<NodeId>): map<NodeId, seq<NodeId>> {
    map o | o in known :: Targets(links, known, o)
  }

  /** Parents lists of every known node, over the given links. */
  function ParentLists(links: seq<Link>, known: set<NodeId>): map<NodeId, seq<NodeId>> {
    map t | t in known :: Origins(links, known, t)
  }

  /** `adjacency.get(n, [])` */
  function Lookup(adjacency: map<NodeId, seq<NodeId>>, n: NodeId): seq<NodeId> {
    if n in adjacency then adjacency[n] else []
  }

  function ChildMap(nodes: seq<Node>, links: seq<Link>): map<NodeId, seq<NodeId>> {
    ChildLists(links, IdSet(nodes))
  }

  function ParentMap(nodes: seq<Node>, links: seq<Link>): map<NodeId, seq<NodeId>> {
    ParentLists(links, IdSet(nodes))
  }

  /**
   * One more link appends its target to its origin's children list when both
   * endpoints are known, and changes no other list; otherwise nothing changes.
   */
  lemma {:induction false} TargetsSnoc(links: seq<Link>, l: Link, known: set<NodeId>, o: NodeId)
    ensures Targets(links + [l], known, o)
         == Targets(links, known, o) + (if l.origin == o && Known(l, known) then [l.target] else [])
  {
    if links != [] {
      assert (links + [l])[1..] == links[1..] + [l];
      TargetsSnoc(links[1..], l, known, o);
    }
  }

  lemma {:induction false} OriginsSnoc(links: seq<Link>, l: Link, known: set<NodeId>, t: NodeId)
    ensures Origins(links + [l], known, t)
         == Origins(links, known, t) + (if l.target == t && Known(l, known) then [l.origin] else [])
  {
    if links != [] {
      assert (links + [l])[1..] == links[1..] + [l];
      OriginsSnoc(links[1..], l, known, t);
    }
  }

  /** Children lists only name known nodes. */
  lemma {:induction false} TargetsKnown(links: seq<Link>, known: set<NodeId>, o: NodeId)
    ensures Elems(Targets(links, known, o)) <= known
  {
    if links != [] {
      TargetsKnown(links[1..], known, o);
    }
  }

  /** Parents lists only name known nodes. */
  lemma {:induction false} OriginsKnown(links: seq<Link>, known: set<NodeId>, t: NodeId)
    ensures Elems(Origins(links, known, t)) <= known
  {
    if links != [] {
      OriginsKnown(links[1..], known, t);
    }
  }

  /** c is a child of p exactly when some known link runs from p to c. */
  lemma {:induction false} TargetsMember(links: seq<Link>, known: set<NodeId>, p: NodeId, c: NodeId)
    ensures c in Targets(links, known, p)
        <==> exists i :: 0 <= i < |links| && links[i].origin == p && links[i].target == c && Known(links[i], known)
  {
    if links != [] {
      TargetsMember(links[1..], known, p, c);
      if exists i :: 0 <= i < |links| && links[i].origin == p && links[i].target == c && Known(links[i], known) {
        var i :| 0 <= i < |links| && links[i].origin == p && links[i].target == c && Known(links[i], known);
        if i > 0 { assert links[1..][i - 1] == links[i]; }
      }
      if c in Targets(links[1..], known, p) {
        var i :| 0 <= i < |links[1..]| && links[1..][i].origin == p && links[1..][i].target == c && Known(links[1..][i], known);
        assert links[i + 1] == links[1..][i];
      }
    }
  }

  /** p is a parent of c exactly when some known link runs from p to c. */
  lemma {:induction false} OriginsMember(links: seq<Link>, known: set<NodeId>, c: NodeId, p: NodeId)
    ensures p in Origins(links, known, c)
        <==> exists i :: 0 <= i < |links| && links[i].origin == p && links[i].target == c && Known(links[i], known)
  {
    if links != [] {
      OriginsMember(links[1..], known, c, p);
      if exists i :: 0 <= i < |links| && links[i].origin == p && links[i].target == c && Known(links[i], known) {
        var i :| 0 <= i < |links| && links[i].origin == p && links[i].target == c && Known(links[i], known);
        if i > 0 { assert links[1..][i - 1] == links[i]; }
      }
      if p in Origins(links[1..], known, c) {
        var i :| 0 <= i < |links[1..]| && links[1..][i].origin == p && links[1..][i].target == c && Known(links[1..][i], known);
        assert links[i + 1] == links[1..][i];
      }
    }
  }

  /** The children and parents lists mirror each other, duplicates included. */
  lemma {:induction false} ChildParentMirror(links: seq<Link>, known: set<NodeId>, p: NodeId, c: NodeId)
    ensures multiset(Targets(links, known, p))[c] == multiset(Origins(links, known, c))[p]
  {
    if links != [] {
      ChildParentMirror(links[1..], known, p, c);
    }
  }

  lemma ChildListsSnoc(links: seq<Link>, l: Link, known: set<NodeId>)
    ensures ChildLists(links + [l], known)
         == if Known(l, known)
            then ChildLists(links, known)[l.origin := ChildLists(links, known)[l.origin] + [l.target]]
            else ChildLists(links, known)
  {
    var before, after := ChildLists(links, known), ChildLists(links + [l], known);
    var expected := if Known(l, known) then before[l.origin := before[l.origin] + [l.target]] else before;
    forall o | o in known ensures after[o] == expected[o] {
      TargetsSnoc(links, l, known, o);
    }
    assert after.Keys == expected.Keys;
  }

  lemma ParentListsSnoc(links: seq<Link>, l: Link, known: set<NodeId>)
    ensures ParentLists(links + [l], known)
         == if Known(l, known)
            then ParentLists(links, known)[l.target := ParentLists(links, known)[l.target] + [l.origin]]
            else ParentLists(links, known)
  {
    var before, after := ParentLists(links, known), ParentLists(links + [l], known);
    var expected := if Known(l, known) then before[l.target := before[l.target] + [l.origin]] else before;
    forall t | t in known ensures after[t] == expected[t] {
      OriginsSnoc(links, l, known, t);
    }
    assert after.Keys == expected.Keys;
  }

  /** build_node_graph */
  method BuildNodeGraph(nodes: seq<Node>, links: seq<Link>)
      returns (nodeMap: map<NodeId, Node>, children: map<NodeId, seq<NodeId>>, parents: map<NodeId, seq<NodeId>>)
    ensures nodeMap == NodeMap(nodes)
    ensures children == ChildMap(nodes, links) && parents == ParentMap(nodes, links)
  {
    var known := IdSet(nodes);
    nodeMap := NodeMap(nodes);
    children := map id | id in known :: [];
    parents := map id | id in known :: [];
    var i := 0;
    while i < |links|
      invariant 0 <= i <= |links|
      invariant children == ChildLists(links[..i], known)
      invariant parents == ParentLists(links[..i], known)
    {
      var originId, targetId := links[i].origin, links[i].target;
      ChildListsSnoc(links[..i], links[i], known);
      ParentListsSnoc(links[..i], links[i], known);
      assert links[..i + 1] == links[..i] + [links[i]];
      if originId in children && targetId in parents {
        children := children[originId := children[originId] + [targetId]];
        parents := parents[targetId := parents[targetId] + [originId]];
      }
      i := i + 1;
    }
    assert links[..|links|] == links;
  }

  /** Ids that are the origin or the target of some link. */
  function Endpoints(links: seq<Link>): set<NodeId> {
    (set l | l in links :: l.origin) + (set l | l in links :: l.target)
  }

  /** The `connected_node_ids` loop: every link endpoint, and nothing else. */
  method ConnectedNodeIds(links: seq<Link>) returns (ids: set<NodeId>)
    ensures ids == Endpoints(links)
    ensures forall n :: n in ids <==> exists i :: 0 <= i < |links| && (links[i].origin == n || links[i].target == n)
  {
    ids := {};
    var i := 0;
    while i < |links|
      invariant 0 <= i <= |links|
      invariant ids == Endpoints(links[..i])
    {
      ids := ids + {links[i].origin, links[i].target};
      assert links[..i + 1] == links[..i] + [links[i]];
      i := i + 1;
    }
    assert links[..|links|] == links;
    forall n | n in ids ensures exists i :: 0 <= i < |links| && (links[i].origin == n || links[i].target == n) {
      var l :| l in links && (l.origin == n || l.target == n);
      var i :| 0 <= i < |links| && links[i] == l;
    }
  }

  /** `[node for node in all_nodes if node['id'] in ids]` */
  function KeepNodes(nodes: seq<Node>, ids: set<NodeId>): (r: seq<Node>)
    ensures forall n :: n in r <==> n in nodes && n.id in ids
    ensures |r| <= |nodes|
  {
    if nodes == [] then []
    else
      var rest := KeepNodes(nodes[1..], ids);
      assert forall n :: n in nodes <==> n == nodes[0] || n in nodes[1..];
      if nodes[0].id in ids then [nodes[0]] + rest else rest
  }

  /**
   * The filter keeps the input order: filtering a concatenation filters each
   * part, and a single node is kept exactly when its id is listed.
   */
  lemma {:induction false} KeepNodesInOrder(a: seq<Node>, b: seq<Node>, ids: set<NodeId>)
    ensures KeepNodes(a + b, ids) == KeepNodes(a, ids) + KeepNodes(b, ids)
  {
    if a == [] {
      assert a + b == b;
    } else {
      var head := if a[0].id in ids then [a[0]] else [];
      assert KeepNodes(a + b, ids) == head + KeepNodes(a[1..] + b, ids) by {
        assert (a + b)[0] == a[0] && (a + b)[1..] == a[1..] + b;
      }
      assert KeepNodes(a, ids) == head + KeepNodes(a[1..], ids);
      KeepNodesInOrder(a[1..], b, ids);
      ConcatAssoc(head, KeepNodes(a[1..], ids), KeepNodes(b, ids));
    }
  }

  /** The filter keeps exactly the listed ids that name a node. */
  lemma KeepNodesIds(nodes: seq<Node>, ids: set<NodeId>)
    ensures IdSet(KeepNodes(nodes, ids)) == IdSet(nodes) * ids
  {
    var r := KeepNodes(nodes, ids);
    forall id | id in IdSet(nodes) * ids ensures id in IdSet(r) {
      var n :| n in nodes && n.id == id;
      assert n in r;
    }
  }

  lemma DistinctTail(nodes: seq<Node>)
    requires DistinctIds(nodes) && nodes != []
    ensures DistinctIds(nodes[1..])
    ensures forall n :: n in nodes[1..] ==> n.id != nodes[0].id
  {
    var tail := nodes[1..];
    forall i, j | 0 <= i < j < |tail| ensures tail[i].id != tail[j].id {
      assert tail[i] == nodes[i + 1] && tail[j] == nodes[j + 1];
    }
    forall n | n in tail ensures n.id != nodes[0].id {
      var j :| 0 <= j < |tail| && tail[j] == n;
      assert nodes[j + 1] == n;
    }
  }

  /** Filtering introduces no duplicate ids. */
  lemma {:induction false} KeepNodesDistinct(nodes: seq<Node>, ids: set<NodeId>)
    requires DistinctIds(nodes)
    ensures DistinctIds(KeepNodes(nodes, ids))
  {
    if nodes != [] {
      DistinctTail(nodes);
      KeepNodesDistinct(nodes[1..], ids);
      var rest := KeepNodes(nodes[1..], ids);
      if nodes[0].id in ids {
        var r := [nodes[0]] + rest;
        forall i, j | 0 <= i < j < |r| ensures r[i].id != r[j].id {
          assert r[j] == rest[j - 1] && r[j] in rest;
          if i > 0 { assert r[i] == rest[i - 1]; }
        }
      }
    }
  }
}
