// organize_nodes of tabularize.py: keep only the nodes some link touches,
// split them into disconnected components, and either lay out the single
// component directly or lay out every component on its own and stack the
// results top to bottom, shortest first, 200 units apart.
module Organize {
  import opened Seqs
  import opened Graph
  import opened Sorting
  import opened Chains
  import opened Components
  import opened Layout

  /** Vertical gap between two stacked components. */
  const ComponentSpacing := 200

  /** One laid-out component: its positions, its sizes and its bounding-box height. */
  datatype Placed = Placed(positions: map<NodeId, Pos>, sizes: map<NodeId, Size>, height: int)

  /** The workflow nodes: those that some link starts or ends at, in input order. */
  function Connected(allNodes: seq<Node>, links: seq<Link>): (nodes: seq<Node>)
    ensures forall n :: n in nodes <==> n in allNodes && n.id in Endpoints(links)
    ensures IdSet(nodes) == IdSet(allNodes) * Endpoints(links)
    ensures DistinctIds(allNodes) ==> DistinctIds(nodes)
  {
    KeepNodesIds(allNodes, Endpoints(links));
    if DistinctIds(allNodes) then KeepNodesDistinct(allNodes, Endpoints(links)); KeepNodes(allNodes, Endpoints(links))
    else KeepNodes(allNodes, Endpoints(links))
  }

  /**
   * The workflow nodes keep the input order: the filter distributes over
   * concatenation, and a single node is kept exactly when a link touches it.
   */
  lemma ConnectedInOrder(a: seq<Node>, b: seq<Node>, links: seq<Link>)
    ensures Connected(a + b, links) == Connected(a, links) + Connected(b, links)
  {
    KeepNodesInOrder(a, b, Endpoints(links));
  }

  /** The links whose two endpoints both lie in `ids`, in input order. */
  function KeepLinks(links: seq<Link>, ids: set<NodeId>): (r: seq<Link>)
    ensures forall l :: l in r <==> l in links && l.origin in ids && l.target in ids
  {
    if links == [] then []
    else
      var rest := KeepLinks(links[1..], ids);
      assert forall l :: l in links <==> l == links[0] || l in links[1..];
      if links[0].origin in ids && links[0].target in ids then [links[0]] + rest else rest
  }

  /**
   * The link filter keeps the input order: filtering a concatenation filters
   * each part, and a single link is kept exactly when both its ends are in `ids`.
   */
  lemma {:induction false} KeepLinksInOrder(a: seq<Link>, b: seq<Link>, ids: set<NodeId>)
    ensures KeepLinks(a + b, ids) == KeepLinks(a, ids) + KeepLinks(b, ids)
  {
    if a == [] {
      assert a + b == b;
    } else {
      var head := if a[0].origin in ids && a[0].target in ids then [a[0]] else [];
      assert KeepLinks(a + b, ids) == head + KeepLinks(a[1..] + b, ids) by {
        assert (a + b)[0] == a[0] && (a + b)[1..] == a[1..] + b;
      }
      assert KeepLinks(a, ids) == head + KeepLinks(a[1..], ids);
      KeepLinksInOrder(a[1..], b, ids);
      ConcatAssoc(head, KeepLinks(a[1..], ids), KeepLinks(b, ids));
    }
  }

  /** What find_disconnected_components promises about its result: the connected components of `nodes`. */
  ghost predicate Partition(nodes: seq<Node>, links: seq<Link>, components: seq<seq<NodeId>>) {
    ConnectedComponents(links, IdSet(nodes), components)
  }

  lemma StayInsidePrefix(links: seq<Link>, known: set<NodeId>, components: seq<seq<NodeId>>, m: nat)
    requires LinksStayInside(links, known, components) && m <= |components|
    ensures LinksStayInside(links, known, components[..m])
  {
    forall i, k | 0 <= i < |links| && Known(links[i], known) && 0 <= k < m
      ensures links[i].origin in components[..m][k] <==> links[i].target in components[..m][k]
    {
      assert components[..m][k] == components[k];
    }
  }

  /**
   * A component's own nodes and links keep the chain search finite: a link
   * inside the component is a link of the whole graph, and a node with no
   * parent inside its component has none outside it either, since no link
   * crosses between components.
   */
  lemma ComponentTerminates(nodes: seq<Node>, links: seq<Link>, rank: map<NodeId, nat>, components: seq<seq<NodeId>>, k: nat)
    requires ChainsTerminate(nodes, links, rank)
    requires LinksStayInside(links, IdSet(nodes), components) && k < |components|
    ensures ChainsTerminate(KeepNodes(nodes, Elems(components[k])), KeepLinks(links, Elems(components[k])), rank)
  {
    var ids := Elems(components[k]);
    var sub := KeepNodes(nodes, ids);
    var subLinks := KeepLinks(links, ids);
    var all := IdSet(nodes);
    KeepNodesIds(nodes, ids);
    var known := IdSet(sub);
    forall i | 0 <= i < |subLinks| && Known(subLinks[i], known) && subLinks[i].origin in rank
      ensures subLinks[i].target in rank && rank[subLinks[i].target] < rank[subLinks[i].origin]
    {
      var l := subLinks[i];
      assert l in subLinks;
      var j :| 0 <= j < |links| && links[j] == l;
      assert Known(links[j], all);
    }
    forall n | n in known
      ensures Origins(links, all, n) != [] ==> Origins(subLinks, known, n) != []
    {
      if Origins(links, all, n) != [] {
        var p := Origins(links, all, n)[0];
        OriginsMember(links, all, n, p);
        var j :| 0 <= j < |links| && links[j].origin == p && links[j].target == n && Known(links[j], all);
        assert n in components[k];
        assert p in components[k];
        assert links[j] in subLinks;
        var i :| 0 <= i < |subLinks| && subLinks[i] == links[j];
        OriginsMember(subLinks, known, n, p);
        assert p in Origins(subLinks, known, n);
      }
    }
  }

  /** A single-component layout only positions that component's nodes, and sizes exactly what it positions. */
  lemma LayoutWithin(nodes: seq<Node>, links: seq<Link>, startY: int, rank: map<NodeId, nat>)
    requires DistinctIds(nodes) && ChainsTerminate(nodes, links, rank)
    ensures var r := Layout.Layout(nodes, links, startY, rank);
      && r.positions.Keys <= IdSet(nodes)
      && (r.positions != map[] ==> r.sizes.Some?)
      && (r.sizes.Some? ==> r.sizes.value.Keys == r.positions.Keys)
      && (nodes != [] ==> (r.positions != map[] <==> HasRoot(nodes, links)))
  {
    if nodes != [] {
      if HasRoot(nodes, links) {
        LayoutCovers(nodes, links, startY, rank);
        assert nodes[0].id in IdSet(nodes);
      } else {
        NoRootLayout(nodes, links, startY, rank);
      }
    }
  }

  /** `[n for n in nodes if n['id'] == id][0]['size'][1]`: the height of the first node with that id. */
  function FirstHeight(nodes: seq<Node>, id: NodeId): int
    requires id in IdSet(nodes)
  {
    if nodes[0].id == id then nodes[0].size.h
    else
      assert id in IdSet(nodes[1..]) by {
        var n :| n in nodes && n.id == id;
        assert n in nodes[1..];
      }
      FirstHeight(nodes[1..], id)
  }

  /** Filtering a node list by an id set keeps the first node of every id in the set. */
  lemma {:induction false} FirstHeightKeep(nodes: seq<Node>, ids: set<NodeId>, id: NodeId)
    requires id in ids && id in IdSet(nodes)
    ensures id in IdSet(KeepNodes(nodes, ids))
    ensures FirstHeight(KeepNodes(nodes, ids), id) == FirstHeight(nodes, id)
  {
    KeepNodesIds(nodes, ids);
    if nodes[0].id != id {
      assert id in IdSet(nodes[1..]) by {
        var n :| n in nodes && n.id == id;
        assert n in nodes[1..];
      }
      FirstHeightKeep(nodes[1..], ids, id);
      var rest := KeepNodes(nodes[1..], ids);
      if nodes[0].id in ids {
        assert ([nodes[0]] + rest)[1..] == rest;
      }
    }
  }

  /** Some node of a non-empty component lies at least as high as every other. */
  lemma HighestExists(positions: map<NodeId, Pos>)
    requires positions != map[]
    ensures exists n :: n in positions && forall m :: m in positions ==> positions[n].y <= positions[m].y
  {
    var tops := map n | n in positions :: positions[n].y;
    assert forall n :: n in positions <==> n in tops;
    assert forall n :: n in tops ==> tops[n] == positions[n].y;
    var n := MapMinKey(tops);
    assert n in positions && forall m :: m in positions ==> positions[n].y <= positions[m].y;
  }

  /** `min(pos[1] for pos in positions.values())`: the top edge of a component. */
  function Top(positions: map<NodeId, Pos>): (t: int)
    requires positions != map[]
    ensures forall n :: n in positions ==> t <= positions[n].y
    ensures exists n :: n in positions && positions[n].y == t
  {
    HighestExists(positions);
    var n :| n in positions && forall m :: m in positions ==> positions[n].y <= positions[m].y;
    positions[n].y
  }

  /** Some node of a non-empty component ends at least as low as every other. */
  lemma LowestExists(positions: map<NodeId, Pos>, nodes: seq<Node>)
    requires positions != map[] && positions.Keys <= IdSet(nodes)
    ensures exists n :: n in positions && forall m :: m in positions ==>
      positions[m].y + FirstHeight(nodes, m) <= positions[n].y + FirstHeight(nodes, n)
  {
    var bottoms := map n | n in positions :: positions[n].y + FirstHeight(nodes, n);
    assert forall n :: n in positions <==> n in bottoms;
    assert forall n :: n in bottoms ==> bottoms[n] == positions[n].y + FirstHeight(nodes, n);
    var n := MapMaxKey(bottoms);
    assert n in positions && forall m :: m in positions ==>
      positions[m].y + FirstHeight(nodes, m) <= positions[n].y + FirstHeight(nodes, n);
  }

  /** The `max(pos[1] + height ...)` generator: the bottom edge of a component. */
  function Bottom(positions: map<NodeId, Pos>, nodes: seq<Node>): (b: int)
    requires positions != map[] && positions.Keys <= IdSet(nodes)
    ensures forall n :: n in positions ==> positions[n].y + FirstHeight(nodes, n) <= b
    ensures exists n :: n in positions && positions[n].y + FirstHeight(nodes, n) == b
  {
    LowestExists(positions, nodes);
    var n :| n in positions && forall m :: m in positions ==>
      positions[m].y + FirstHeight(nodes, m) <= positions[n].y + FirstHeight(nodes, n);
    positions[n].y + FirstHeight(nodes, n)
  }

  /**
   * The recorded height is that of the tightest box around the component:
   * every node ends above top + height, and one ends exactly there.
   */
  ghost predicate Fits(p: Placed, nodes: seq<Node>) {
    && p.positions != map[]
    && p.positions.Keys <= IdSet(nodes)
    && p.sizes.Keys == p.positions.Keys
    && (forall n :: n in p.positions ==> p.positions[n].y + FirstHeight(nodes, n) <= Top(p.positions) + p.height)
    && (exists n :: n in p.positions && p.positions[n].y + FirstHeight(nodes, n) == Top(p.positions) + p.height)
  }

  /** The record kept for a component whose layout positioned something. */
  function Measure(r: LayoutResult, nodes: seq<Node>): (p: Placed)
    requires r.positions != map[] && r.positions.Keys <= IdSet(nodes)
    requires r.sizes.Some? && r.sizes.value.Keys == r.positions.Keys
    ensures p.positions == r.positions && p.sizes == r.sizes.value
  {
    Placed(r.positions, r.sizes.value, Bottom(r.positions, nodes) - Top(r.positions))
  }

  /** The measured height is the component's extent: every node ends within it and one ends exactly at it. */
  lemma MeasureFits(r: LayoutResult, nodes: seq<Node>)
    requires r.positions != map[] && r.positions.Keys <= IdSet(nodes)
    requires r.sizes.Some? && r.sizes.value.Keys == r.positions.Keys
    ensures Fits(Measure(r, nodes), nodes)
  {
  }

  /** A box measured on a component's nodes measures the same on any list those nodes were filtered from. */
  lemma FitsWider(p: Placed, nodes: seq<Node>, ids: set<NodeId>)
    requires Fits(p, KeepNodes(nodes, ids))
    ensures Fits(p, nodes)
  {
    var sub := KeepNodes(nodes, ids);
    KeepNodesIds(nodes, ids);
    var bottom := Top(p.positions) + p.height;
    forall n | n in p.positions ensures n in IdSet(nodes) && p.positions[n].y + FirstHeight(nodes, n) <= bottom {
      FirstHeightKeep(nodes, ids, n);
    }
    var m :| m in p.positions && p.positions[m].y + FirstHeight(sub, m) == bottom;
    FirstHeightKeep(nodes, ids, m);
  }

  /** The component with ids `ids` has a node without a parent inside it, so its own layout finds chains. */
  predicate Rooted(nodes: seq<Node>, links: seq<Link>, ids: set<NodeId>) {
    HasRoot(KeepNodes(nodes, ids), KeepLinks(links, ids))
  }

  /** The component's own layout: `organize_single_component(component_nodes, component_links, 0)`. */
  function Solo(nodes: seq<Node>, links: seq<Link>, ids: set<NodeId>, ghost rank: map<NodeId, nat>): LayoutResult
    requires DistinctIds(nodes) && ChainsTerminate(KeepNodes(nodes, ids), KeepLinks(links, ids), rank)
  {
    KeepNodesDistinct(nodes, ids);
    Layout.Layout(KeepNodes(nodes, ids), KeepLinks(links, ids), 0, rank)
  }

  /** A layout that positions something positions and sizes exactly the nodes `ids`, all of them in the list. */
  ghost predicate Covering(nodes: seq<Node>, ids: set<NodeId>, r: LayoutResult) {
    r.positions != map[] ==>
      && r.positions.Keys == ids && ids <= IdSet(nodes)
      && r.sizes.Some? && r.sizes.value.Keys == ids
  }

  /** What a component's own layout gives: nothing without a root, and every node of the component with one. */
  ghost predicate Laid(nodes: seq<Node>, links: seq<Link>, ids: set<NodeId>, r: LayoutResult) {
    && (r.positions != map[] <==> Rooted(nodes, links, ids))
    && Covering(nodes, ids, r)
  }

  /** A component's own layout positions all of its nodes exactly when it has a root, and nothing otherwise. */
  lemma SoloLaid(nodes: seq<Node>, links: seq<Link>, ids: set<NodeId>, rank: map<NodeId, nat>)
    requires DistinctIds(nodes) && ChainsTerminate(KeepNodes(nodes, ids), KeepLinks(links, ids), rank)
    requires ids != {} && ids <= IdSet(nodes)
    ensures Laid(nodes, links, ids, Solo(nodes, links, ids, rank))
  {
    var sub := KeepNodes(nodes, ids);
    KeepNodesIds(nodes, ids);
    KeepNodesDistinct(nodes, ids);
    assert IdSet(sub) == ids;
    var id := PickOne(ids);
    assert id in IdSet(sub);
    LayoutWithin(sub, KeepLinks(links, ids), 0, rank);
    if Rooted(nodes, links, ids) {
      LayoutCovers(sub, KeepLinks(links, ids), 0, rank);
    }
  }

  /** Every component's own nodes and links still terminate under the same ranks. */
  lemma ComponentsTerminate(nodes: seq<Node>, links: seq<Link>, components: seq<seq<NodeId>>, rank: map<NodeId, nat>)
    requires ChainsTerminate(nodes, links, rank)
    requires LinksStayInside(links, IdSet(nodes), components)
    ensures forall k :: 0 <= k < |components| ==>
      ChainsTerminate(KeepNodes(nodes, Elems(components[k])), KeepLinks(links, Elems(components[k])), rank)
  {
    forall k | 0 <= k < |components|
      ensures ChainsTerminate(KeepNodes(nodes, Elems(components[k])), KeepLinks(links, Elems(components[k])), rank)
    {
      ComponentTerminates(nodes, links, rank, components, k);
    }
  }

  /** The components' own layouts, in component order. */
  function Outcomes(nodes: seq<Node>, links: seq<Link>, components: seq<seq<NodeId>>, ghost rank: map<NodeId, nat>): seq<LayoutResult>
    requires DistinctIds(nodes) && ChainsTerminate(nodes, links, rank)
    requires LinksStayInside(links, IdSet(nodes), components)
  {
    ComponentsTerminate(nodes, links, components, rank);
    seq(|components|, k requires 0 <= k < |components| => Solo(nodes, links, Elems(components[k]), rank))
  }

  /** Every outcome is laid as its component demands. */
  lemma OutcomesLaid(nodes: seq<Node>, links: seq<Link>, components: seq<seq<NodeId>>, rank: map<NodeId, nat>)
    requires DistinctIds(nodes) && ChainsTerminate(nodes, links, rank) && Partition(nodes, links, components)
    ensures forall k :: 0 <= k < |components| ==> Laid(nodes, links, Elems(components[k]), Outcomes(nodes, links, components, rank)[k])
  {
    forall k | 0 <= k < |components|
      ensures Laid(nodes, links, Elems(components[k]), Outcomes(nodes, links, components, rank)[k])
    {
      ComponentsTerminate(nodes, links, components, rank);
      forall x | x in components[k] ensures x in IdSet(nodes) {
        FlattenMember(components, x);
      }
      assert components[k][0] in Elems(components[k]);
      SoloLaid(nodes, links, Elems(components[k]), rank);
    }
  }

  /** Every outcome covers its component. */
  ghost predicate Covered(nodes: seq<Node>, components: seq<seq<NodeId>>, outcomes: seq<LayoutResult>) {
    && |outcomes| == |components|
    && forall k :: 0 <= k < |components| ==> Covering(nodes, Elems(components[k]), outcomes[k])
  }

  /** The component's entry in `component_results`: its measured layout when that positioned something, else nothing. */
  function Record(nodes: seq<Node>, ids: set<NodeId>, r: LayoutResult): seq<Placed>
    requires Covering(nodes, ids, r)
  {
    KeepNodesIds(nodes, ids);
    if r.positions != map[] then [Measure(r, KeepNodes(nodes, ids))] else []
  }

  /** A component that positioned something has exactly one record, holding exactly its nodes. */
  lemma RecordKeys(nodes: seq<Node>, ids: set<NodeId>, r: LayoutResult)
    requires Covering(nodes, ids, r)
    ensures |Record(nodes, ids, r)| <= 1
    ensures Record(nodes, ids, r) != [] <==> r.positions != map[]
    ensures forall p :: p in Record(nodes, ids, r) ==> p.positions.Keys == ids
  {
  }

  /** A component's record is measured against the whole node list. */
  lemma RecordFits(nodes: seq<Node>, ids: set<NodeId>, r: LayoutResult)
    requires Covering(nodes, ids, r)
    ensures forall p :: p in Record(nodes, ids, r) ==> Fits(p, nodes)
  {
    if r.positions != map[] {
      KeepNodesIds(nodes, ids);
      MeasureFits(r, KeepNodes(nodes, ids));
      FitsWider(Measure(r, KeepNodes(nodes, ids)), nodes, ids);
    }
  }

  /** Each component's record, in component order. */
  function Records(nodes: seq<Node>, components: seq<seq<NodeId>>, outcomes: seq<LayoutResult>): seq<seq<Placed>>
    requires Covered(nodes, components, outcomes)
  {
    seq(|components|, k requires 0 <= k < |components| => Record(nodes, Elems(components[k]), outcomes[k]))
  }

  /**
   * `component_results`: one record per component, in component order, for
   * every component whose layout positioned something.
   */
  function Results(nodes: seq<Node>, components: seq<seq<NodeId>>, outcomes: seq<LayoutResult>): seq<Placed>
    requires Covered(nodes, components, outcomes)
  {
    Flatten(Records(nodes, components, outcomes))
  }

  /** Every record is measured against the whole node list. */
  lemma ResultsFit(nodes: seq<Node>, components: seq<seq<NodeId>>, outcomes: seq<LayoutResult>)
    requires Covered(nodes, components, outcomes)
    ensures forall p :: p in Results(nodes, components, outcomes) ==> Fits(p, nodes)
  {
    var records := Records(nodes, components, outcomes);
    forall p | p in Flatten(records) ensures Fits(p, nodes) {
      FlattenMember(records, p);
      var k :| 0 <= k < |records| && p in records[k];
      RecordFits(nodes, Elems(components[k]), outcomes[k]);
    }
  }

  /** Every record is, in full, a component whose layout positioned something. */
  lemma ResultsFrom(nodes: seq<Node>, components: seq<seq<NodeId>>, outcomes: seq<LayoutResult>)
    requires Covered(nodes, components, outcomes)
    ensures forall p :: p in Results(nodes, components, outcomes) ==>
      exists k :: 0 <= k < |components| && outcomes[k].positions != map[] && p.positions.Keys == Elems(components[k])
  {
    var records := Records(nodes, components, outcomes);
    forall p: Placed | p in Flatten(records)
      ensures exists k :: 0 <= k < |components| && outcomes[k].positions != map[] && p.positions.Keys == Elems(components[k])
    {
      FlattenMember(records, p);
      var k :| 0 <= k < |records| && p in records[k];
      RecordKeys(nodes, Elems(components[k]), outcomes[k]);
    }
  }

  /** Every component that positioned something has its record. */
  lemma ResultsCover(nodes: seq<Node>, components: seq<seq<NodeId>>, outcomes: seq<LayoutResult>)
    requires Covered(nodes, components, outcomes)
    ensures forall k :: 0 <= k < |components| && outcomes[k].positions != map[] ==>
      exists p :: p in Results(nodes, components, outcomes) && p.positions.Keys == Elems(components[k])
  {
    var records := Records(nodes, components, outcomes);
    forall k | 0 <= k < |components| && outcomes[k].positions != map[]
      ensures exists p: Placed :: p in Flatten(records) && p.positions.Keys == Elems(components[k])
    {
      RecordKeys(nodes, Elems(components[k]), outcomes[k]);
      var p := records[k][0];
      FlattenMember(records, p);
      assert p in Flatten(records);
    }
  }

  /** The components' records never share a node. */
  ghost predicate Separate(rs: seq<Placed>) {
    forall i, j :: 0 <= i < j < |rs| ==> rs[i].positions.Keys !! rs[j].positions.Keys
  }

  /** Concatenating at most one record per part keeps records of different parts apart. */
  lemma {:induction false} FlattenSeparate(records: seq<seq<Placed>>)
    requires forall k :: 0 <= k < |records| ==> |records[k]| <= 1
    requires forall j, k, p, q :: 0 <= j < k < |records| && p in records[j] && q in records[k] ==>
      p.positions.Keys !! q.positions.Keys
    ensures Separate(Flatten(records))
  {
    if records != [] {
      var last := |records| - 1;
      var init := records[..last];
      FlattenSeparate(init);
      var prev := Flatten(init);
      var rs := prev + records[last];
      forall i, j | 0 <= i < j < |rs| ensures rs[i].positions.Keys !! rs[j].positions.Keys {
        if j >= |prev| {
          FlattenMember(init, rs[i]);
          var k :| 0 <= k < |init| && rs[i] in init[k];
          assert init[k] == records[k];
          assert rs[j] == records[last][0];
        } else {
          assert rs[i] == prev[i] && rs[j] == prev[j];
        }
      }
    }
  }

  /** The records are pairwise apart, since the components are. */
  lemma ResultsSeparate(nodes: seq<Node>, components: seq<seq<NodeId>>, outcomes: seq<LayoutResult>)
    requires Covered(nodes, components, outcomes) && NoDup(Flatten(components))
    ensures Separate(Results(nodes, components, outcomes))
  {
    var records := Records(nodes, components, outcomes);
    FlattenApart(components);
    forall k | 0 <= k < |records| ensures |records[k]| <= 1 {
      RecordKeys(nodes, Elems(components[k]), outcomes[k]);
    }
    forall j, k, p: Placed, q: Placed | 0 <= j < k < |records| && p in records[j] && q in records[k]
      ensures p.positions.Keys !! q.positions.Keys
    {
      RecordKeys(nodes, Elems(components[j]), outcomes[j]);
      RecordKeys(nodes, Elems(components[k]), outcomes[k]);
    }
    FlattenSeparate(records);
  }

  function HeightOf(p: Placed): int { p.height }

  /** `component_results.sort(key=lambda c: c['height'])`: a stable sort, shortest first. */
  function ByHeight(rs: seq<Placed>): seq<Placed> {
    SortBy(rs, HeightOf, IntLess)
  }

  /** `y` shares no node with any record of `rest`. */
  ghost predicate ApartFrom(y: Placed, rest: seq<Placed>) {
    forall q :: q in rest ==> y.positions.Keys !! q.positions.Keys
  }

  /** Records are apart exactly when the first is apart from the others and the others are apart. */
  lemma SeparateCons(y: Placed, rest: seq<Placed>)
    ensures Separate([y] + rest) <==> ApartFrom(y, rest) && Separate(rest)
  {
    var s := [y] + rest;
    if Separate(s) {
      forall q | q in rest ensures y.positions.Keys !! q.positions.Keys {
        var m :| 0 <= m < |rest| && rest[m] == q;
        assert s[0] == y && s[m + 1] == q;
      }
      forall i, j | 0 <= i < j < |rest| ensures rest[i].positions.Keys !! rest[j].positions.Keys {
        assert s[i + 1] == rest[i] && s[j + 1] == rest[j];
      }
    }
    if ApartFrom(y, rest) && Separate(rest) {
      forall i, j | 0 <= i < j < |s| ensures s[i].positions.Keys !! s[j].positions.Keys {
        if i == 0 {
          assert s[j] == rest[j - 1] && s[j] in rest;
        } else {
          assert s[i] == rest[i - 1] && s[j] == rest[j - 1];
        }
      }
    }
  }

  /** Inserting a record that shares no node with the others keeps the records apart. */
  lemma {:induction false} InsertSeparate(x: Placed, s: seq<Placed>)
    requires ApartFrom(x, s) && Separate(s)
    ensures Separate(Insert(x, s, HeightOf, IntLess))
  {
    if s == [] {
      SeparateCons(x, []);
    } else if IntLess(HeightOf(s[0]), HeightOf(x)) {
      SeparateCons(s[0], s[1..]);
      assert ApartFrom(x, s[1..]) by {
        forall q | q in s[1..] ensures q in s { }
      }
      InsertSeparate(x, s[1..]);
      var rest := Insert(x, s[1..], HeightOf, IntLess);
      InsertPermutes(x, s[1..], HeightOf, IntLess);
      forall q | q in rest ensures s[0].positions.Keys !! q.positions.Keys {
        assert q in multiset(rest);
        if q != x {
          assert q in s[1..];
        } else {
          assert s[0] in s;
        }
      }
      SeparateCons(s[0], rest);
    } else {
      SeparateCons(x, s);
    }
  }

  /** Sorting keeps the records apart. */
  lemma {:induction false} SortSeparate(s: seq<Placed>)
    requires Separate(s)
    ensures Separate(ByHeight(s))
  {
    if s != [] {
      SeparateCons(s[0], s[1..]);
      SortSeparate(s[1..]);
      var sorted := ByHeight(s[1..]);
      SortByPermutes(s[1..], HeightOf, IntLess);
      forall q | q in sorted ensures s[0].positions.Keys !! q.positions.Keys {
        assert q in multiset(sorted);
        assert q in s[1..];
      }
      InsertSeparate(s[0], sorted);
    }
  }

  /** Sorting by height orders the records shortest first, keeps their order among equal heights, and keeps them all. */
  lemma ByHeightFacts(rs: seq<Placed>)
    ensures multiset(ByHeight(rs)) == multiset(rs)
    ensures forall p :: p in ByHeight(rs) <==> p in rs
    ensures forall i, j :: 0 <= i < j < |ByHeight(rs)| ==> ByHeight(rs)[i].height <= ByHeight(rs)[j].height
    ensures forall h :: WithKey(ByHeight(rs), HeightOf, h) == WithKey(rs, HeightOf, h)
  {
    SortByPermutes(rs, HeightOf, IntLess);
    IntLessIsTotal();
    SortBySorted(rs, HeightOf, IntLess);
    forall h ensures WithKey(ByHeight(rs), HeightOf, h) == WithKey(rs, HeightOf, h) {
      SortByStable(rs, HeightOf, IntLess, h);
    }
    forall p ensures p in ByHeight(rs) <==> p in rs {
      assert p in ByHeight(rs) <==> p in multiset(ByHeight(rs));
    }
  }

  /** Every record positions something. */
  ghost predicate AllKept(rs: seq<Placed>) {
    forall p :: p in rs ==> p.positions != map[]
  }

  /** `current_y_offset` before the k-th record: the heights before it, each followed by the spacing. */
  function Offset(rs: seq<Placed>, k: nat): int
    requires k <= |rs|
  {
    if k == 0 then 0 else Offset(rs, k - 1) + rs[k - 1].height + ComponentSpacing
  }

  /** A component moved so that its top edge lands on `offset`, with x unchanged. */
  function Shifted(positions: map<NodeId, Pos>, top: int, offset: int): map<NodeId, Pos> {
    map n | n in positions :: Moved(positions[n], top, offset)
  }

  /** `[pos[0], pos[1] - min_y + current_y_offset]` */
  function Moved(p: Pos, top: int, offset: int): Pos {
    Pos(p.x, p.y - top + offset)
  }

  /**
   * `all_positions` after the first k records; a later record overwrites an
   * earlier one. A record that positions nothing adds nothing (the sorted
   * records never hold one; see Sorted).
   */
  function StackedAt(rs: seq<Placed>, k: nat): map<NodeId, Pos>
    requires k <= |rs|
  {
    if k == 0 then map[]
    else if rs[k - 1].positions == map[] then StackedAt(rs, k - 1)
    else StackedAt(rs, k - 1) + Shifted(rs[k - 1].positions, Top(rs[k - 1].positions), Offset(rs, k - 1))
  }

  /** `all_sizes` after the first k records. */
  function SizesAt(rs: seq<Placed>, k: nat): map<NodeId, Size>
    requires k <= |rs|
  {
    if k == 0 then map[] else SizesAt(rs, k - 1) + rs[k - 1].sizes
  }

  /** Every node of the list has a non-negative height. */
  ghost predicate NonNegativeHeights(nodes: seq<Node>) {
    forall i :: 0 <= i < |nodes| ==> nodes[i].size.h >= 0
  }

  /** The height used for an id is that of the first node in the list carrying it. */
  lemma {:induction false} FirstHeightIsFirst(nodes: seq<Node>, id: NodeId)
    requires id in IdSet(nodes)
    ensures exists i :: (0 <= i < |nodes| && nodes[i].id == id && FirstHeight(nodes, id) == nodes[i].size.h &&
      forall j :: 0 <= j < i ==> nodes[j].id != id)
  {
    if nodes[0].id != id {
      assert id in IdSet(nodes[1..]) by {
        var n :| n in nodes && n.id == id;
        assert n in nodes[1..];
      }
      FirstHeightIsFirst(nodes[1..], id);
      var i :| 0 <= i < |nodes[1..]| && nodes[1..][i].id == id && FirstHeight(nodes[1..], id) == nodes[1..][i].size.h
        && forall j :: 0 <= j < i ==> nodes[1..][j].id != id;
      assert nodes[i + 1] == nodes[1..][i];
      forall j | 0 <= j < i + 1 ensures nodes[j].id != id {
        if j > 0 {
          assert nodes[j] == nodes[1..][j - 1];
        }
      }
    }
  }

  /** A box measured on nodes of non-negative height has a non-negative height. */
  lemma FitsHeight(p: Placed, nodes: seq<Node>)
    requires Fits(p, nodes) && NonNegativeHeights(nodes)
    ensures p.height >= 0
  {
    var t := Top(p.positions);
    var n :| n in p.positions && p.positions[n].y + FirstHeight(nodes, n) == t + p.height;
    FirstHeightIsFirst(nodes, n);
  }

  /** What one more stacked record does to a single node: it lands moved if the record has it, else stays. */
  lemma StackedNext(rs: seq<Placed>, m: nat, n: NodeId)
    requires 0 < m <= |rs|
    ensures n in StackedAt(rs, m) <==> n in StackedAt(rs, m - 1) || n in rs[m - 1].positions
    ensures n in rs[m - 1].positions ==>
      StackedAt(rs, m)[n] == Moved(rs[m - 1].positions[n], Top(rs[m - 1].positions), Offset(rs, m - 1))
    ensures n !in rs[m - 1].positions && n in StackedAt(rs, m - 1) ==> StackedAt(rs, m)[n] == StackedAt(rs, m - 1)[n]
  {
  }

  /** Every node of the first k records is in all_positions after them. */
  lemma {:induction false} StackedHas(rs: seq<Placed>, k: nat, j: nat, n: NodeId)
    requires j < k <= |rs| && n in rs[j].positions
    ensures n in StackedAt(rs, k)
  {
    StackedNext(rs, k, n);
    if j < k - 1 {
      StackedHas(rs, k - 1, j, n);
    }
  }

  /** Every node of all_positions after k records comes from one of them. */
  lemma {:induction false} StackedOwner(rs: seq<Placed>, k: nat, n: NodeId) returns (j: nat)
    requires k <= |rs| && n in StackedAt(rs, k)
    ensures j < k && n in rs[j].positions
  {
    StackedNext(rs, k, n);
    if n in rs[k - 1].positions {
      j := k - 1;
    } else {
      j := StackedOwner(rs, k - 1, n);
    }
  }

  /** The nodes of all_sizes after k records are exactly those of the first k records' sizes. */
  lemma {:induction false} SizesKeys(rs: seq<Placed>, k: nat, n: NodeId)
    requires k <= |rs|
    ensures n in SizesAt(rs, k) <==> exists j :: 0 <= j < k && n in rs[j].sizes
  {
    if k > 0 {
      SizesKeys(rs, k - 1, n);
    }
  }

  /** When every record sizes exactly the nodes it positions, a node is in all_sizes exactly when it is in all_positions. */
  lemma {:induction false} SizesMatch(rs: seq<Placed>, k: nat, n: NodeId)
    requires k <= |rs|
    requires forall i :: 0 <= i < |rs| ==> rs[i].sizes.Keys == rs[i].positions.Keys
    ensures n in SizesAt(rs, k) <==> n in StackedAt(rs, k)
  {
    if k > 0 {
      SizesMatch(rs, k - 1, n);
      StackedNext(rs, k, n);
      assert rs[k - 1].sizes.Keys == rs[k - 1].positions.Keys;
    }
  }

  /** A node that no later record has ends where its own record moved it. */
  lemma {:induction false} StackedPlacement(rs: seq<Placed>, m: nat, k: nat, n: NodeId)
    requires k < m <= |rs| && n in rs[k].positions
    requires forall j :: k < j < m ==> n !in rs[j].positions
    ensures n in StackedAt(rs, m)
    ensures StackedAt(rs, m)[n] == Moved(rs[k].positions[n], Top(rs[k].positions), Offset(rs, k))
  {
    StackedNext(rs, m, n);
    if k < m - 1 {
      StackedPlacement(rs, m - 1, k, n);
    }
  }

  /** A node that no later record sizes keeps the size its own record gave it. */
  lemma {:induction false} SizesPlacement(rs: seq<Placed>, m: nat, k: nat, n: NodeId)
    requires k < m <= |rs| && n in rs[k].sizes
    requires forall j :: k < j < m ==> n !in rs[j].sizes
    ensures n in SizesAt(rs, m) && SizesAt(rs, m)[n] == rs[k].sizes[n]
  {
    if k < m - 1 {
      SizesPlacement(rs, m - 1, k, n);
    }
  }

  /** The offset of a later record is at least the earlier one's offset, height and spacing. */
  lemma {:induction false} OffsetGrows(rs: seq<Placed>, j: nat, k: nat)
    requires j < k <= |rs|
    requires forall i :: 0 <= i < |rs| ==> rs[i].height >= 0
    ensures Offset(rs, j) + rs[j].height + ComponentSpacing <= Offset(rs, k)
  {
    if j < k - 1 {
      OffsetGrows(rs, j, k - 1);
    }
  }

  /** The conditions the sorted records meet before stacking. */
  ghost predicate Stackable(rs: seq<Placed>, nodes: seq<Node>) {
    && Separate(rs)
    && (forall i :: 0 <= i < |rs| ==> Fits(rs[i], nodes))
  }

  /** With records apart, no record after the k-th has any of its nodes. */
  lemma OnlyOwner(rs: seq<Placed>, k: nat, n: NodeId)
    requires Separate(rs) && k < |rs| && n in rs[k].positions
    ensures forall j :: k < j < |rs| ==> n !in rs[j].positions
  {
    forall j | k < j < |rs| ensures n !in rs[j].positions {
      assert rs[k].positions.Keys !! rs[j].positions.Keys;
    }
  }

  /** Each stacked component occupies the band from its offset to its offset plus its height, its top edge exactly on the offset. */
  lemma StackedBand(rs: seq<Placed>, nodes: seq<Node>, k: nat)
    requires Stackable(rs, nodes) && k < |rs|
    ensures forall n :: n in rs[k].positions ==>
      && n in StackedAt(rs, |rs|)
      && StackedAt(rs, |rs|)[n].x == rs[k].positions[n].x
      && Offset(rs, k) <= StackedAt(rs, |rs|)[n].y
      && StackedAt(rs, |rs|)[n].y + FirstHeight(nodes, n) <= Offset(rs, k) + rs[k].height
    ensures exists n :: n in rs[k].positions && n in StackedAt(rs, |rs|) && StackedAt(rs, |rs|)[n].y == Offset(rs, k)
  {
    var p := rs[k];
    forall n | n in p.positions
      ensures && n in StackedAt(rs, |rs|)
        && StackedAt(rs, |rs|)[n].x == p.positions[n].x
        && Offset(rs, k) <= StackedAt(rs, |rs|)[n].y
        && StackedAt(rs, |rs|)[n].y + FirstHeight(nodes, n) <= Offset(rs, k) + p.height
    {
      OnlyOwner(rs, k, n);
      StackedPlacement(rs, |rs|, k, n);
    }
    var top := Top(p.positions);
    var n :| n in p.positions && p.positions[n].y == top;
    OnlyOwner(rs, k, n);
    StackedPlacement(rs, |rs|, k, n);
  }

  /** A component stacked earlier ends, spacing included, above every node of a component stacked later. */
  lemma StackedApart(rs: seq<Placed>, nodes: seq<Node>, j: nat, k: nat, n: NodeId, m: NodeId)
    requires Stackable(rs, nodes) && NonNegativeHeights(nodes) && j < k < |rs|
    requires n in rs[j].positions && m in rs[k].positions
    ensures n in StackedAt(rs, |rs|) && m in StackedAt(rs, |rs|) && n in IdSet(nodes)
    ensures StackedAt(rs, |rs|)[n].y + FirstHeight(nodes, n) + ComponentSpacing <= StackedAt(rs, |rs|)[m].y
  {
    StackedBand(rs, nodes, j);
    StackedBand(rs, nodes, k);
    forall i | 0 <= i < |rs| ensures rs[i].height >= 0 {
      FitsHeight(rs[i], nodes);
    }
    OffsetGrows(rs, j, k);
  }

  /** `component_results` once sorted: the measured records of the components that positioned something, shortest first. */
  function Sorted(nodes: seq<Node>, links: seq<Link>, components: seq<seq<NodeId>>, ghost rank: map<NodeId, nat>): (rs: seq<Placed>)
    requires DistinctIds(nodes) && ChainsTerminate(nodes, links, rank) && Partition(nodes, links, components)
    ensures AllKept(rs)
  {
    var outcomes := Outcomes(nodes, links, components, rank);
    OutcomesLaid(nodes, links, components, rank);
    ResultsFit(nodes, components, outcomes);
    ByHeightFacts(Results(nodes, components, outcomes));
    ByHeight(Results(nodes, components, outcomes))
  }

  /** The sorted records are ready to stack, and shortest first. */
  lemma SortedReady(nodes: seq<Node>, components: seq<seq<NodeId>>, outcomes: seq<LayoutResult>)
    requires Covered(nodes, components, outcomes) && NoDup(Flatten(components))
    ensures var rs := ByHeight(Results(nodes, components, outcomes));
      && Stackable(rs, nodes)
      && (forall i, j :: 0 <= i < j < |rs| ==> rs[i].height <= rs[j].height)
  {
    var results := Results(nodes, components, outcomes);
    ByHeightFacts(results);
    ResultsFit(nodes, components, outcomes);
    ResultsSeparate(nodes, components, outcomes);
    SortSeparate(results);
    var rs := ByHeight(results);
    forall i | 0 <= i < |rs| ensures Fits(rs[i], nodes) {
      assert rs[i] in rs;
    }
  }

  /** Each sorted record is exactly a component whose own layout positioned something. */
  lemma SortedFrom(nodes: seq<Node>, components: seq<seq<NodeId>>, outcomes: seq<LayoutResult>)
    requires Covered(nodes, components, outcomes)
    ensures forall p :: p in ByHeight(Results(nodes, components, outcomes)) ==>
      exists k :: 0 <= k < |components| && outcomes[k].positions != map[] && p.positions.Keys == Elems(components[k])
  {
    ByHeightFacts(Results(nodes, components, outcomes));
    ResultsFrom(nodes, components, outcomes);
  }

  /** Every component whose own layout positioned something has its sorted record. */
  lemma SortedCover(nodes: seq<Node>, components: seq<seq<NodeId>>, outcomes: seq<LayoutResult>)
    requires Covered(nodes, components, outcomes)
    ensures var rs := ByHeight(Results(nodes, components, outcomes));
      forall k :: 0 <= k < |components| && outcomes[k].positions != map[] ==>
        exists j :: 0 <= j < |rs| && rs[j].positions.Keys == Elems(components[k])
  {
    var rs := ByHeight(Results(nodes, components, outcomes));
    ByHeightFacts(Results(nodes, components, outcomes));
    ResultsCover(nodes, components, outcomes);
    forall k | 0 <= k < |components| && outcomes[k].positions != map[]
      ensures exists j :: 0 <= j < |rs| && rs[j].positions.Keys == Elems(components[k])
    {
      var p :| p in rs && p.positions.Keys == Elems(components[k]);
      var j :| 0 <= j < |rs| && rs[j] == p;
    }
  }

  /** organize_nodes, given the components find_disconnected_components returned. */
  function Organize(allNodes: seq<Node>, links: seq<Link>, components: seq<seq<NodeId>>, ghost rank: map<NodeId, nat>): LayoutResult
    requires DistinctIds(allNodes)
    requires ChainsTerminate(Connected(allNodes, links), links, rank)
    requires Partition(Connected(allNodes, links), links, components)
  {
    var nodes := Connected(allNodes, links);
    KeepNodesDistinct(allNodes, Endpoints(links));
    if nodes == [] then LayoutResult(NoWorkflowNodes, map[], None)
    else if |components| == 1 then Layout.Layout(nodes, links, 0, rank)
    else
      var rs := Sorted(nodes, links, components, rank);
      var positions := StackedAt(rs, |rs|);
      LayoutResult(PositionedIn(|positions|, |rs|), positions, Some(SizesAt(rs, |rs|)))
  }

  /** A partition into at least one component is a partition of some nodes. */
  lemma PartitionedNodes(nodes: seq<Node>, links: seq<Link>, components: seq<seq<NodeId>>)
    requires Partition(nodes, links, components) && components != []
    ensures nodes != []
  {
    var x := components[0][0];
    FlattenMember(components, x);
    assert x in Elems(Flatten(components));
  }

  /** "No workflow nodes" is reported exactly when no node is a link endpoint, and then nothing is placed. */
  lemma OrganizeNothing(allNodes: seq<Node>, links: seq<Link>, components: seq<seq<NodeId>>, rank: map<NodeId, nat>)
    requires DistinctIds(allNodes)
    requires ChainsTerminate(Connected(allNodes, links), links, rank)
    requires Partition(Connected(allNodes, links), links, components)
    ensures var r := Organize(allNodes, links, components, rank);
      && (r.message == NoWorkflowNodes <==> IdSet(allNodes) * Endpoints(links) == {})
      && (r.message == NoWorkflowNodes ==> r.positions == map[] && r.sizes == None)
  {
    var nodes := Connected(allNodes, links);
    KeepNodesIds(allNodes, Endpoints(links));
    KeepNodesDistinct(allNodes, Endpoints(links));
    if nodes != [] {
      assert nodes[0].id in IdSet(nodes);
      if |components| == 1 {
        if HasRoot(nodes, links) {
          LayoutCovers(nodes, links, 0, rank);
        } else {
          NoRootLayout(nodes, links, 0, rank);
        }
      }
    }
  }

  /**
   * With one component the result is that component's own layout over all
   * links: every connected node placed and sized when one of them has no
   * parent, and "No chains" with nothing placed otherwise.
   */
  lemma OrganizeSingle(allNodes: seq<Node>, links: seq<Link>, components: seq<seq<NodeId>>, rank: map<NodeId, nat>)
    requires DistinctIds(allNodes)
    requires ChainsTerminate(Connected(allNodes, links), links, rank)
    requires Partition(Connected(allNodes, links), links, components)
    requires |components| == 1
    ensures var r := Organize(allNodes, links, components, rank);
      var nodes := Connected(allNodes, links);
      && (HasRoot(nodes, links) ==>
            && r.positions.Keys == IdSet(allNodes) * Endpoints(links)
            && r.sizes.Some? && r.sizes.value.Keys == r.positions.Keys
            && r.message == Positioned(|nodes|))
      && (!HasRoot(nodes, links) ==> r == LayoutResult(NoChainsToOrganize, map[], None))
  {
    var nodes := Connected(allNodes, links);
    PartitionedNodes(nodes, links, components);
    KeepNodesIds(allNodes, Endpoints(links));
    KeepNodesDistinct(allNodes, Endpoints(links));
    if HasRoot(nodes, links) {
      LayoutCovers(nodes, links, 0, rank);
    } else {
      NoRootLayout(nodes, links, 0, rank);
    }
  }

  /** A node placed by the stacking belongs to a component whose own layout positioned something. */
  lemma PlacedFrom(nodes: seq<Node>, components: seq<seq<NodeId>>, outcomes: seq<LayoutResult>, n: NodeId)
    requires Covered(nodes, components, outcomes)
    requires n in StackedAt(ByHeight(Results(nodes, components, outcomes)), |ByHeight(Results(nodes, components, outcomes))|)
    ensures exists k :: 0 <= k < |components| && n in components[k] && outcomes[k].positions != map[]
  {
    var rs := ByHeight(Results(nodes, components, outcomes));
    var j := StackedOwner(rs, |rs|, n);
    assert rs[j] in rs;
    SortedFrom(nodes, components, outcomes);
    var k :| 0 <= k < |components| && outcomes[k].positions != map[] && rs[j].positions.Keys == Elems(components[k]);
    assert n in components[k];
  }

  /** Every node of a component whose own layout positioned something is placed by the stacking. */
  lemma PlacedAll(nodes: seq<Node>, components: seq<seq<NodeId>>, outcomes: seq<LayoutResult>, k: nat, n: NodeId)
    requires Covered(nodes, components, outcomes)
    requires k < |components| && n in components[k] && outcomes[k].positions != map[]
    ensures n in StackedAt(ByHeight(Results(nodes, components, outcomes)), |ByHeight(Results(nodes, components, outcomes))|)
  {
    var rs := ByHeight(Results(nodes, components, outcomes));
    SortedCover(nodes, components, outcomes);
    var j :| 0 <= j < |rs| && rs[j].positions.Keys == Elems(components[k]);
    StackedHas(rs, |rs|, j, n);
  }

  /**
   * After stacking, a node is placed exactly when it belongs to a component
   * whose own layout positioned something, and the sized nodes are exactly
   * the placed ones.
   */
  lemma SortedCovers(nodes: seq<Node>, components: seq<seq<NodeId>>, outcomes: seq<LayoutResult>)
    requires Covered(nodes, components, outcomes) && NoDup(Flatten(components))
    ensures var rs := ByHeight(Results(nodes, components, outcomes));
      && (forall n :: n in StackedAt(rs, |rs|) <==>
            exists k :: 0 <= k < |components| && n in components[k] && outcomes[k].positions != map[])
      && SizesAt(rs, |rs|).Keys == StackedAt(rs, |rs|).Keys
  {
    var rs := ByHeight(Results(nodes, components, outcomes));
    forall n | n in StackedAt(rs, |rs|)
      ensures exists k :: 0 <= k < |components| && n in components[k] && outcomes[k].positions != map[]
    {
      PlacedFrom(nodes, components, outcomes, n);
    }
    forall n, k | 0 <= k < |components| && n in components[k] && outcomes[k].positions != map[]
      ensures n in StackedAt(rs, |rs|)
    {
      PlacedAll(nodes, components, outcomes, k, n);
    }
    SortedReady(nodes, components, outcomes);
    forall n ensures n in SizesAt(rs, |rs|) <==> n in StackedAt(rs, |rs|) {
      SizesMatch(rs, |rs|, n);
    }
  }

  /**
   * With several components, a node is placed exactly when its component's
   * own layout found a root, every placed node is sized, and the message
   * counts the placed nodes and the stacked components.
   */
  lemma OrganizeCovers(allNodes: seq<Node>, links: seq<Link>, components: seq<seq<NodeId>>, rank: map<NodeId, nat>)
    requires DistinctIds(allNodes)
    requires ChainsTerminate(Connected(allNodes, links), links, rank)
    requires Partition(Connected(allNodes, links), links, components)
    requires |components| > 1
    ensures var r := Organize(allNodes, links, components, rank);
      var nodes := Connected(allNodes, links);
      && r.sizes.Some? && r.sizes.value.Keys == r.positions.Keys
      && (forall n :: n in r.positions <==>
            exists k :: 0 <= k < |components| && n in components[k] && Rooted(nodes, links, Elems(components[k])))
      && r.message == PositionedIn(|r.positions|, |Sorted(nodes, links, components, rank)|)
  {
    var nodes := Connected(allNodes, links);
    PartitionedNodes(nodes, links, components);
    var outcomes := Outcomes(nodes, links, components, rank);
    OutcomesLaid(nodes, links, components, rank);
    SortedCovers(nodes, components, outcomes);
    var rs := Sorted(nodes, links, components, rank);
    assert rs == ByHeight(Results(nodes, components, outcomes));
    assert forall k :: 0 <= k < |components| ==> (outcomes[k].positions != map[] <==> Rooted(nodes, links, Elems(components[k])));
  }

  /** Every node of record p is placed, moved so that p's top edge lies on `offset`. */
  ghost predicate Lands(positions: map<NodeId, Pos>, p: Placed, offset: int) {
    forall n :: n in p.positions ==> n in positions && positions[n] == Moved(p.positions[n], Top(p.positions), offset)
  }

  /** With records apart, every record's nodes end up moved so that the record's top edge lies on its offset. */
  lemma StackedMoves(rs: seq<Placed>)
    requires Separate(rs)
    ensures forall k :: 0 <= k < |rs| ==> Lands(StackedAt(rs, |rs|), rs[k], Offset(rs, k))
  {
    forall k | 0 <= k < |rs| ensures Lands(StackedAt(rs, |rs|), rs[k], Offset(rs, k)) {
      forall n | n in rs[k].positions
        ensures n in StackedAt(rs, |rs|)
        ensures StackedAt(rs, |rs|)[n] == Moved(rs[k].positions[n], Top(rs[k].positions), Offset(rs, k))
      {
        OnlyOwner(rs, k, n);
        StackedPlacement(rs, |rs|, k, n);
      }
    }
  }

  /** Node n is placed and ends, spacing included, above where node m is placed. */
  ghost predicate ClearAbove(positions: map<NodeId, Pos>, nodes: seq<Node>, n: NodeId, m: NodeId) {
    && n in positions && m in positions && n in IdSet(nodes)
    && positions[n].y + FirstHeight(nodes, n) + ComponentSpacing <= positions[m].y
  }

  /** With no negative heights, each stacked record ends, spacing included, above every node of each later one. */
  lemma StackedOrdered(rs: seq<Placed>, nodes: seq<Node>)
    requires Stackable(rs, nodes) && NonNegativeHeights(nodes)
    ensures forall j, k, n, m :: 0 <= j < k < |rs| && n in rs[j].positions && m in rs[k].positions ==>
      ClearAbove(StackedAt(rs, |rs|), nodes, n, m)
  {
    forall j, k, n, m | 0 <= j < k < |rs| && n in rs[j].positions && m in rs[k].positions
      ensures ClearAbove(StackedAt(rs, |rs|), nodes, n, m)
    {
      StackedApart(rs, nodes, j, k, n, m);
    }
  }

  /** The sorted records are ready to stack. */
  lemma SortedStackable(nodes: seq<Node>, links: seq<Link>, components: seq<seq<NodeId>>, rank: map<NodeId, nat>)
    requires DistinctIds(nodes) && ChainsTerminate(nodes, links, rank) && Partition(nodes, links, components)
    ensures Stackable(Sorted(nodes, links, components, rank), nodes)
  {
    var outcomes := Outcomes(nodes, links, components, rank);
    OutcomesLaid(nodes, links, components, rank);
    SortedReady(nodes, components, outcomes);
  }

  /** With several components, the result is the stacking of the sorted records. */
  lemma OrganizeMulti(allNodes: seq<Node>, links: seq<Link>, components: seq<seq<NodeId>>, rank: map<NodeId, nat>)
    requires DistinctIds(allNodes)
    requires ChainsTerminate(Connected(allNodes, links), links, rank)
    requires Partition(Connected(allNodes, links), links, components)
    requires |components| > 1
    ensures var rs := Sorted(Connected(allNodes, links), links, components, rank);
      Organize(allNodes, links, components, rank) ==
        LayoutResult(PositionedIn(|StackedAt(rs, |rs|)|, |rs|), StackedAt(rs, |rs|), Some(SizesAt(rs, |rs|)))
  {
    PartitionedNodes(Connected(allNodes, links), links, components);
  }

  /** A connected node's height is the same whether looked up among the connected nodes or among all nodes. */
  lemma ConnectedHeights(allNodes: seq<Node>, links: seq<Link>)
    ensures forall n :: n in IdSet(Connected(allNodes, links)) ==>
      n in IdSet(allNodes) && FirstHeight(allNodes, n) == FirstHeight(Connected(allNodes, links), n)
    ensures NonNegativeHeights(allNodes) ==> NonNegativeHeights(Connected(allNodes, links))
  {
    var nodes := Connected(allNodes, links);
    forall n | n in IdSet(nodes)
      ensures n in IdSet(allNodes) && FirstHeight(allNodes, n) == FirstHeight(nodes, n)
    {
      FirstHeightKeep(allNodes, Endpoints(links), n);
    }
    if NonNegativeHeights(allNodes) {
      forall i | 0 <= i < |nodes| ensures nodes[i].size.h >= 0 {
        assert nodes[i] in nodes;
        var i' :| 0 <= i' < |allNodes| && allNodes[i'] == nodes[i];
      }
    }
  }

  /**
   * With several components, each sorted record is moved as a whole so
   * that its top edge lands on its offset, with x unchanged.
   */
  lemma OrganizeMoved(allNodes: seq<Node>, links: seq<Link>, components: seq<seq<NodeId>>, rank: map<NodeId, nat>)
    requires DistinctIds(allNodes)
    requires ChainsTerminate(Connected(allNodes, links), links, rank)
    requires Partition(Connected(allNodes, links), links, components)
    requires |components| > 1
    ensures var r := Organize(allNodes, links, components, rank);
      var rs := Sorted(Connected(allNodes, links), links, components, rank);
      forall k :: 0 <= k < |rs| ==> Lands(r.positions, rs[k], Offset(rs, k))
  {
    var nodes := Connected(allNodes, links);
    var rs := Sorted(nodes, links, components, rank);
    OrganizeMulti(allNodes, links, components, rank);
    SortedStackable(nodes, links, components, rank);
    StackedMoves(rs);
  }

  /**
   * With several components and no negative node height, a record stacked
   * earlier ends, spacing included, above every node of a later one.
   */
  lemma OrganizeApart(allNodes: seq<Node>, links: seq<Link>, components: seq<seq<NodeId>>, rank: map<NodeId, nat>)
    requires DistinctIds(allNodes) && NonNegativeHeights(allNodes)
    requires ChainsTerminate(Connected(allNodes, links), links, rank)
    requires Partition(Connected(allNodes, links), links, components)
    requires |components| > 1
    ensures var r := Organize(allNodes, links, components, rank);
      var rs := Sorted(Connected(allNodes, links), links, components, rank);
      forall j, k, n, m :: 0 <= j < k < |rs| && n in rs[j].positions && m in rs[k].positions ==>
        ClearAbove(r.positions, allNodes, n, m)
  {
    var nodes := Connected(allNodes, links);
    var rs := Sorted(nodes, links, components, rank);
    OrganizeMulti(allNodes, links, components, rank);
    SortedStackable(nodes, links, components, rank);
    ConnectedHeights(allNodes, links);
    StackedOrdered(rs, nodes);
    forall j, k, n, m | 0 <= j < k < |rs| && n in rs[j].positions && m in rs[k].positions
      ensures ClearAbove(StackedAt(rs, |rs|), allNodes, n, m)
    {
      assert ClearAbove(StackedAt(rs, |rs|), nodes, n, m);
    }
  }

  /** `r` is `acc` with the nodes of `positions` outside `pending` written in, moved. */
  ghost predicate ShiftedSoFar(r: map<NodeId, Pos>, acc: map<NodeId, Pos>, positions: map<NodeId, Pos>, pending: set<NodeId>, top: int, offset: int) {
    && pending <= positions.Keys
    && (forall n :: n in r <==> n in acc || (n in positions && n !in pending))
    && (forall n :: n in positions && n !in pending ==> r[n] == Moved(positions[n], top, offset))
    && (forall n :: n in acc && (n !in positions || n in pending) ==> r[n] == acc[n])
  }

  lemma ShiftStep(r: map<NodeId, Pos>, acc: map<NodeId, Pos>, positions: map<NodeId, Pos>, pending: set<NodeId>, n: NodeId, top: int, offset: int)
    requires ShiftedSoFar(r, acc, positions, pending, top, offset) && n in pending
    ensures ShiftedSoFar(r[n := Moved(positions[n], top, offset)], acc, positions, pending - {n}, top, offset)
  {
  }

  lemma ShiftDone(r: map<NodeId, Pos>, acc: map<NodeId, Pos>, positions: map<NodeId, Pos>, top: int, offset: int)
    requires ShiftedSoFar(r, acc, positions, {}, top, offset)
    ensures r == acc + Shifted(positions, top, offset)
  {
    var want := acc + Shifted(positions, top, offset);
    assert forall n :: n in r <==> n in want;
    assert forall n :: n in r ==> r[n] == want[n];
  }

  /** The inner stacking loop: write every node of one component into `all_positions`, moved by `offset - top`. */
  method ShiftInto(acc: map<NodeId, Pos>, positions: map<NodeId, Pos>, top: int, offset: int) returns (r: map<NodeId, Pos>)
    ensures r == acc + Shifted(positions, top, offset)
  {
    r := acc;
    var pending := positions.Keys;
    while pending != {}
      invariant ShiftedSoFar(r, acc, positions, pending, top, offset)
      decreases |pending|
    {
      ghost var some := PickOne(pending);
      var n :| n in pending;
      ShiftStep(r, acc, positions, pending, n, top, offset);
      r := r[n := Moved(positions[n], top, offset)];
      pending := pending - {n};
    }
    ShiftDone(r, acc, positions, top, offset);
  }

  /** One more record stacked: its nodes moved below the previous ones, its sizes added, the offset advanced. */
  lemma StackStep(rs: seq<Placed>, i: nat)
    requires AllKept(rs) && i < |rs|
    ensures rs[i].positions != map[]
    ensures StackedAt(rs, i + 1) == StackedAt(rs, i) + Shifted(rs[i].positions, Top(rs[i].positions), Offset(rs, i))
    ensures SizesAt(rs, i + 1) == SizesAt(rs, i) + rs[i].sizes
    ensures Offset(rs, i + 1) == Offset(rs, i) + rs[i].height + ComponentSpacing
  {
    assert rs[i] in rs;
  }

  /** The outer stacking loop: each record in turn, shortest first, each below the previous one. */
  method Stack(sorted: seq<Placed>) returns (allPositions: map<NodeId, Pos>, allSizes: map<NodeId, Size>)
    requires AllKept(sorted)
    ensures allPositions == StackedAt(sorted, |sorted|)
    ensures allSizes == SizesAt(sorted, |sorted|)
  {
    allPositions, allSizes := map[], map[];
    var offset := 0;
    var i := 0;
    while i < |sorted|
      invariant i <= |sorted|
      invariant allPositions == StackedAt(sorted, i)
      invariant allSizes == SizesAt(sorted, i)
      invariant offset == Offset(sorted, i)
    {
      var comp := sorted[i];
      StackStep(sorted, i);
      var minY := Top(comp.positions);
      allPositions := ShiftInto(allPositions, comp.positions, minY, offset);
      allSizes := allSizes + comp.sizes;
      offset := offset + comp.height + ComponentSpacing;
      i := i + 1;
    }
  }

  /** The component's own layout: its nodes and the links inside it, laid out from y = 0. */
  method LayOutComponent(nodes: seq<Node>, links: seq<Link>, ids: set<NodeId>, ghost rank: map<NodeId, nat>) returns (result: LayoutResult)
    requires DistinctIds(nodes) && ChainsTerminate(KeepNodes(nodes, ids), KeepLinks(links, ids), rank)
    ensures result == Solo(nodes, links, ids, rank)
  {
    var componentNodes := KeepNodes(nodes, ids);
    var componentLinks := KeepLinks(links, ids);
    KeepNodesDistinct(nodes, ids);
    result := OrganizeSingleComponent(componentNodes, componentLinks, 0, rank);
  }

  /** The record of one component: its layout and the height of its bounding box, when it positioned something. */
  method MeasureOne(nodes: seq<Node>, ids: set<NodeId>, result: LayoutResult) returns (rec: seq<Placed>)
    requires Covering(nodes, ids, result)
    ensures rec == Record(nodes, ids, result)
  {
    if result.positions != map[] {
      var componentNodes := KeepNodes(nodes, ids);
      KeepNodesIds(nodes, ids);
      rec := [Measure(result, componentNodes)];
    } else {
      rec := [];
    }
  }

  /** The component loop: lay out each component on its own and record the ones that positioned something. */
  method MeasureComponents(nodes: seq<Node>, links: seq<Link>, components: seq<seq<NodeId>>, ghost rank: map<NodeId, nat>)
    returns (results: seq<Placed>)
    requires DistinctIds(nodes) && ChainsTerminate(nodes, links, rank) && Partition(nodes, links, components)
    ensures Covered(nodes, components, Outcomes(nodes, links, components, rank))
    ensures results == Results(nodes, components, Outcomes(nodes, links, components, rank))
  {
    ghost var outcomes := Outcomes(nodes, links, components, rank);
    OutcomesLaid(nodes, links, components, rank);
    ComponentsTerminate(nodes, links, components, rank);
    ghost var records := Records(nodes, components, outcomes);
    results := [];
    var i := 0;
    while i < |components|
      invariant i <= |components|
      invariant results == Flatten(records[..i])
    {
      var result := LayOutComponent(nodes, links, Elems(components[i]), rank);
      assert result == outcomes[i];
      var rec := MeasureOne(nodes, Elems(components[i]), result);
      assert rec == records[i];
      FlattenTake(records, i);
      results := results + rec;
      i := i + 1;
    }
    assert records[..i] == records;
  }

  /**
   * organize_nodes: keep only the nodes some link touches, split them into
   * components, and lay out a single component directly or several
   * components one below the other.
   */
  method OrganizeNodes(allNodes: seq<Node>, links: seq<Link>, ghost rank: map<NodeId, nat>)
    returns (r: LayoutResult, ghost components: seq<seq<NodeId>>)
    requires DistinctIds(allNodes)
    requires ChainsTerminate(Connected(allNodes, links), links, rank)
    ensures Partition(Connected(allNodes, links), links, components)
    ensures r == Organize(allNodes, links, components, rank)
  {
    var connectedIds := ConnectedNodeIds(links);
    var nodes := KeepNodes(allNodes, connectedIds);
    KeepNodesDistinct(allNodes, connectedIds);
    if nodes == [] {
      components := [];
      return LayoutResult(NoWorkflowNodes, map[], None), components;
    }
    var found := FindDisconnectedComponents(nodes, links);
    components := found;
    if |found| == 1 {
      r := OrganizeSingleComponent(nodes, links, 0, rank);
      return;
    }
    var results := MeasureComponents(nodes, links, found, rank);
    var sorted := ByHeight(results);
    assert sorted == Sorted(nodes, links, components, rank);
    var allPositions, allSizes := Stack(sorted);
    r := LayoutResult(PositionedIn(|allPositions|, |sorted|), allPositions, Some(allSizes));
  }
}
