// detect_link_overlaps of tabularize.py: find the links whose straight line
// from output port to input port goes through a node other than their own
// two ends, then decide for each such link whether to reroute it above or
// below the nodes in its horizontal span, and where its two waypoints go.
module Overlaps {
  import opened Seqs
  import opened Graph
  import opened Geometry

  /** Vertical distance from a node's top to its first port. */
  const PortTop := 30
  /** Vertical distance between two consecutive ports. */
  const SlotSpacing := 20
  /** Offset of the first reroute in each direction. */
  const FirstOffset := 50
  /** Growth of a direction's offset after each reroute that takes it. */
  const OffsetStep := 20
  /** Horizontal distance of each waypoint from its end of the link. */
  const WaypointInset := 50

  /** The offset a direction has reached after n reroutes in it. */
  function OffsetAfter(n: nat): int {
    FirstOffset + OffsetStep * n
  }

  function Min(a: int, b: int): int { if a <= b then a else b }

  function Max(a: int, b: int): int { if a >= b then a else b }

  /** The approximate output port `slot` on the right edge of node n. */
  function OutPort(n: Node, slot: int): Point {
    Point(n.pos.x + n.size.w, n.pos.y + PortTop + slot * SlotSpacing)
  }

  /** The approximate input port `slot` on the left edge of node n. */
  function InPort(n: Node, slot: int): Point {
    Point(n.pos.x, n.pos.y + PortTop + slot * SlotSpacing)
  }

  function Box(n: Node): Rect {
    Rect(n.pos.x, n.pos.y, n.size.w, n.size.h)
  }

  /** The bottom edge of node n. */
  function BottomOf(n: Node): int {
    n.pos.y + n.size.h
  }

  /** Node n reaches into the horizontal span of the link from a to b. */
  predicate InSpan(n: Node, a: Point, b: Point) {
    !(n.pos.x + n.size.w < Min(a.x, b.x) || n.pos.x > Max(a.x, b.x))
  }

  /** A node the link from `origin` to `target` passes: not one of its own ends, and in its span. */
  predicate Passes(n: Node, origin: NodeId, target: NodeId, a: Point, b: Point) {
    n.id != origin && n.id != target && InSpan(n, a, b)
  }

  /** The straight link from a to b goes through the box of n. */
  predicate Blocks(n: Node, a: Point, b: Point) {
    SegmentIntersectsRect(Segment(a, b), Box(n))
  }

  /** An entry of `overlapping_nodes`. */
  datatype Blocker = Blocker(id: NodeId, kind: string, pos: Pos)

  function BlockerOf(n: Node): Blocker {
    Blocker(n.id, n.kind, n.pos)
  }

  /** `overlapping_nodes`: the passed nodes the link goes through, in node order. */
  function Blockers(nodes: seq<Node>, origin: NodeId, target: NodeId, a: Point, b: Point): seq<Blocker> {
    if nodes == [] then []
    else
      var n := nodes[|nodes| - 1];
      Blockers(nodes[..|nodes| - 1], origin, target, a, b)
        + (if Passes(n, origin, target, a, b) && Blocks(n, a, b) then [BlockerOf(n)] else [])
  }

  /** A blocker is listed exactly when some passed node the link goes through gave it. */
  lemma {:induction false} BlockersMember(nodes: seq<Node>, origin: NodeId, target: NodeId, a: Point, b: Point, x: Blocker)
    ensures x in Blockers(nodes, origin, target, a, b) <==>
      exists n :: n in nodes && Passes(n, origin, target, a, b) && Blocks(n, a, b) && x == BlockerOf(n)
  {
    if nodes != [] {
      var init := nodes[..|nodes| - 1];
      var n := nodes[|nodes| - 1];
      assert nodes == init + [n];
      BlockersMember(init, origin, target, a, b, x);
      if exists m :: m in nodes && Passes(m, origin, target, a, b) && Blocks(m, a, b) && x == BlockerOf(m) {
        var m :| m in nodes && Passes(m, origin, target, a, b) && Blocks(m, a, b) && x == BlockerOf(m);
        if m != n {
          assert m in init;
        }
      }
    }
  }

  /** The inner loop of the first pass: every node compared against one link. */
  method FindBlockers(nodes: seq<Node>, origin: NodeId, target: NodeId, a: Point, b: Point) returns (hits: seq<Blocker>)
    ensures hits == Blockers(nodes, origin, target, a, b)
  {
    hits := [];
    var j := 0;
    while j < |nodes|
      invariant j <= |nodes|
      invariant hits == Blockers(nodes[..j], origin, target, a, b)
    {
      var n := nodes[j];
      assert nodes[..j + 1][..j] == nodes[..j];
      if n.id != origin && n.id != target && InSpan(n, a, b) {
        if SegmentIntersectsRect(Segment(a, b), Box(n)) {
          hits := hits + [BlockerOf(n)];
        }
      }
      j := j + 1;
    }
    assert nodes[..j] == nodes;
  }

  /** An element of `overlaps` as the first pass builds it. */
  datatype Overlap = Overlap(linkId: int, origin: NodeId, originKind: string, target: NodeId, targetKind: string, blockers: seq<Blocker>)

  /** The first pass on one link: nothing when an end is unknown or no node blocks the link. */
  function OverlapOf(nodes: seq<Node>, nodeMap: map<NodeId, Node>, l: Link): Option<Overlap> {
    if l.origin !in nodeMap || l.target !in nodeMap then None
    else
      var from := nodeMap[l.origin];
      var to := nodeMap[l.target];
      var bs := Blockers(nodes, l.origin, l.target, OutPort(from, l.originSlot), InPort(to, l.targetSlot));
      if bs == [] then None else Some(Overlap(l.id, l.origin, from.kind, l.target, to.kind, bs))
  }

  function AsSeq<T>(o: Option<T>): seq<T> {
    if o.Some? then [o.value] else []
  }

  /** `overlaps` after the first pass over `links`, in link order. */
  function Found(nodes: seq<Node>, nodeMap: map<NodeId, Node>, links: seq<Link>): seq<Overlap> {
    if links == [] then []
    else Found(nodes, nodeMap, links[..|links| - 1]) + AsSeq(OverlapOf(nodes, nodeMap, links[|links| - 1]))
  }

  /** A link record is listed exactly when the first pass on some link gave it. */
  lemma {:induction false} FoundFrom(nodes: seq<Node>, nodeMap: map<NodeId, Node>, links: seq<Link>, o: Overlap) returns (i: nat)
    requires o in Found(nodes, nodeMap, links)
    ensures i < |links| && OverlapOf(nodes, nodeMap, links[i]) == Some(o)
  {
    var init := links[..|links| - 1];
    if o in Found(nodes, nodeMap, init) {
      i := FoundFrom(nodes, nodeMap, init, o);
      assert links[i] == init[i];
    } else {
      i := |links| - 1;
    }
  }

  /** Every link the first pass keeps has its record in `overlaps`. */
  lemma {:induction false} FoundHas(nodes: seq<Node>, nodeMap: map<NodeId, Node>, links: seq<Link>, i: nat)
    requires i < |links| && OverlapOf(nodes, nodeMap, links[i]).Some?
    ensures OverlapOf(nodes, nodeMap, links[i]).value in Found(nodes, nodeMap, links)
  {
    var init := links[..|links| - 1];
    if i < |links| - 1 {
      assert links[i] == init[i];
      FoundHas(nodes, nodeMap, init, i);
    }
  }

  /** The first pass keeps a link exactly when both its ends are known and some passed node blocks it. */
  lemma OverlapOfFacts(nodes: seq<Node>, nodeMap: map<NodeId, Node>, l: Link)
    ensures OverlapOf(nodes, nodeMap, l).Some? <==>
      l.origin in nodeMap && l.target in nodeMap &&
      exists n :: n in nodes && Passes(n, l.origin, l.target, OutPort(nodeMap[l.origin], l.originSlot), InPort(nodeMap[l.target], l.targetSlot))
        && Blocks(n, OutPort(nodeMap[l.origin], l.originSlot), InPort(nodeMap[l.target], l.targetSlot))
    ensures OverlapOf(nodes, nodeMap, l).Some? ==>
      var o := OverlapOf(nodes, nodeMap, l).value;
      o.linkId == l.id && o.origin == l.origin && o.target == l.target && o.blockers != []
      && o.originKind == nodeMap[l.origin].kind && o.targetKind == nodeMap[l.target].kind
      && forall x :: x in o.blockers <==>
        exists n :: n in nodes && Passes(n, l.origin, l.target, OutPort(nodeMap[l.origin], l.originSlot), InPort(nodeMap[l.target], l.targetSlot))
          && Blocks(n, OutPort(nodeMap[l.origin], l.originSlot), InPort(nodeMap[l.target], l.targetSlot)) && x == BlockerOf(n)
  {
    if l.origin in nodeMap && l.target in nodeMap {
      var a, b := OutPort(nodeMap[l.origin], l.originSlot), InPort(nodeMap[l.target], l.targetSlot);
      var bs := Blockers(nodes, l.origin, l.target, a, b);
      forall x ensures x in bs <==> exists n :: n in nodes && Passes(n, l.origin, l.target, a, b) && Blocks(n, a, b) && x == BlockerOf(n) {
        BlockersMember(nodes, l.origin, l.target, a, b, x);
      }
      if bs != [] {
        assert bs[0] in bs;
      }
      if exists n :: n in nodes && Passes(n, l.origin, l.target, a, b) && Blocks(n, a, b) {
        var n :| n in nodes && Passes(n, l.origin, l.target, a, b) && Blocks(n, a, b);
        assert BlockerOf(n) in bs;
      }
    }
  }

  /** `next(link for link in links if link['id'] == id)`, searched from index `from`: the first link carrying the id. */
  function FirstWith(links: seq<Link>, id: int, from: nat): (i: nat)
    requires from <= |links|
    requires exists k :: from <= k < |links| && links[k].id == id
    ensures from <= i < |links| && links[i].id == id
    ensures forall j :: from <= j < i ==> links[j].id != id
    decreases |links| - from
  {
    if links[from].id == id then from else FirstWith(links, id, from + 1)
  }

  /** The passed node with the smallest top; among equal tops the first, since only a strictly smaller top replaces it. */
  function Highest(nodes: seq<Node>, origin: NodeId, target: NodeId, a: Point, b: Point): Option<Node> {
    if nodes == [] then None
    else
      var n := nodes[|nodes| - 1];
      var h := Highest(nodes[..|nodes| - 1], origin, target, a, b);
      if Passes(n, origin, target, a, b) && (h.None? || n.pos.y < h.value.pos.y) then Some(n) else h
  }

  /** The passed node with the largest bottom; among equal bottoms the first. */
  function Lowest(nodes: seq<Node>, origin: NodeId, target: NodeId, a: Point, b: Point): Option<Node> {
    if nodes == [] then None
    else
      var n := nodes[|nodes| - 1];
      var l := Lowest(nodes[..|nodes| - 1], origin, target, a, b);
      if Passes(n, origin, target, a, b) && (l.None? || BottomOf(n) > BottomOf(l.value)) then Some(n) else l
  }

  /** nodes[i] is passed, no passed node has a smaller top, and every passed node before it has a larger one. */
  ghost predicate IsHighest(nodes: seq<Node>, i: int, origin: NodeId, target: NodeId, a: Point, b: Point) {
    0 <= i < |nodes| && Passes(nodes[i], origin, target, a, b)
    && (forall j :: 0 <= j < |nodes| && Passes(nodes[j], origin, target, a, b) ==> nodes[i].pos.y <= nodes[j].pos.y)
    && (forall j :: 0 <= j < i && Passes(nodes[j], origin, target, a, b) ==> nodes[i].pos.y < nodes[j].pos.y)
  }

  /** nodes[i] is passed, no passed node has a larger bottom, and every passed node before it has a smaller one. */
  ghost predicate IsLowest(nodes: seq<Node>, i: int, origin: NodeId, target: NodeId, a: Point, b: Point) {
    0 <= i < |nodes| && Passes(nodes[i], origin, target, a, b)
    && (forall j :: 0 <= j < |nodes| && Passes(nodes[j], origin, target, a, b) ==> BottomOf(nodes[j]) <= BottomOf(nodes[i]))
    && (forall j :: 0 <= j < i && Passes(nodes[j], origin, target, a, b) ==> BottomOf(nodes[j]) < BottomOf(nodes[i]))
  }

  /** With no passed node there is neither a highest nor a lowest one. */
  lemma {:induction false} NonePassed(nodes: seq<Node>, origin: NodeId, target: NodeId, a: Point, b: Point)
    requires forall n :: n in nodes ==> !Passes(n, origin, target, a, b)
    ensures Highest(nodes, origin, target, a, b) == None && Lowest(nodes, origin, target, a, b) == None
  {
    if nodes != [] {
      NonePassed(nodes[..|nodes| - 1], origin, target, a, b);
    }
  }

  /** A highest or a lowest node exists only when some node is passed. */
  lemma SomePassed(nodes: seq<Node>, origin: NodeId, target: NodeId, a: Point, b: Point)
    requires Highest(nodes, origin, target, a, b).Some? || Lowest(nodes, origin, target, a, b).Some?
    ensures exists n :: n in nodes && Passes(n, origin, target, a, b)
  {
    if forall n :: n in nodes ==> !Passes(n, origin, target, a, b) {
      NonePassed(nodes, origin, target, a, b);
    }
  }

  /** Highest picks the first passed node of least top. */
  lemma {:induction false} HighestAt(nodes: seq<Node>, origin: NodeId, target: NodeId, a: Point, b: Point) returns (i: nat)
    requires exists n :: n in nodes && Passes(n, origin, target, a, b)
    ensures i < |nodes| && Highest(nodes, origin, target, a, b) == Some(nodes[i])
    ensures IsHighest(nodes, i, origin, target, a, b)
  {
    var init := nodes[..|nodes| - 1];
    var n := nodes[|nodes| - 1];
    var h := Highest(init, origin, target, a, b);
    if forall m :: m in init ==> !Passes(m, origin, target, a, b) {
      NonePassed(init, origin, target, a, b);
      i := |nodes| - 1;
      forall j | 0 <= j < |init| ensures !Passes(nodes[j], origin, target, a, b) {
        assert nodes[j] == init[j];
      }
    } else {
      var i0 := HighestAt(init, origin, target, a, b);
      i := if Passes(n, origin, target, a, b) && n.pos.y < h.value.pos.y then |nodes| - 1 else i0;
      forall j | 0 <= j < |init| ensures nodes[j] == init[j] { }
    }
  }

  /** Lowest picks the first passed node of greatest bottom. */
  lemma {:induction false} LowestAt(nodes: seq<Node>, origin: NodeId, target: NodeId, a: Point, b: Point) returns (i: nat)
    requires exists n :: n in nodes && Passes(n, origin, target, a, b)
    ensures i < |nodes| && Lowest(nodes, origin, target, a, b) == Some(nodes[i])
    ensures IsLowest(nodes, i, origin, target, a, b)
  {
    var init := nodes[..|nodes| - 1];
    var n := nodes[|nodes| - 1];
    var l := Lowest(init, origin, target, a, b);
    if forall m :: m in init ==> !Passes(m, origin, target, a, b) {
      NonePassed(init, origin, target, a, b);
      i := |nodes| - 1;
      forall j | 0 <= j < |init| ensures !Passes(nodes[j], origin, target, a, b) {
        assert nodes[j] == init[j];
      }
    } else {
      var i0 := LowestAt(init, origin, target, a, b);
      i := if Passes(n, origin, target, a, b) && BottomOf(n) > BottomOf(l.value) then |nodes| - 1 else i0;
      forall j | 0 <= j < |init| ensures nodes[j] == init[j] { }
    }
  }

  /** A record with a passed node has both a highest and a lowest one. */
  lemma ExtremesExist(nodes: seq<Node>, origin: NodeId, target: NodeId, a: Point, b: Point)
    requires exists n :: n in nodes && Passes(n, origin, target, a, b)
    ensures Highest(nodes, origin, target, a, b).Some? && Lowest(nodes, origin, target, a, b).Some?
  {
    var i := HighestAt(nodes, origin, target, a, b);
    var j := LowestAt(nodes, origin, target, a, b);
  }

  /** The inner loop of the second pass: the highest and the lowest passed node, found together. */
  method FindExtremes(nodes: seq<Node>, origin: NodeId, target: NodeId, a: Point, b: Point) returns (high: Option<Node>, low: Option<Node>)
    ensures high == Highest(nodes, origin, target, a, b)
    ensures low == Lowest(nodes, origin, target, a, b)
  {
    high, low := None, None;
    var j := 0;
    while j < |nodes|
      invariant j <= |nodes|
      invariant high == Highest(nodes[..j], origin, target, a, b)
      invariant low == Lowest(nodes[..j], origin, target, a, b)
    {
      var n := nodes[j];
      assert nodes[..j + 1][..j] == nodes[..j];
      if n.id != origin && n.id != target && InSpan(n, a, b) {
        if high.None? || n.pos.y < high.value.pos.y {
          high := Some(n);
        }
        if low.None? || n.pos.y + n.size.h > low.value.pos.y + low.value.size.h {
          low := Some(n);
        }
      }
      j := j + 1;
    }
    assert nodes[..j] == nodes;
  }

  datatype Direction = Up | Down

  /** A link record after the second pass: its reroute direction, the extreme nodes and the two waypoints. */
  datatype Reroute = Reroute(
    overlap: Overlap, direction: Direction, upDistance: int, downDistance: int,
    highestTop: int, highestId: NodeId, highestKind: string,
    lowestBottom: int, lowestId: NodeId, lowestKind: string,
    waypoint1: Pos, waypoint2: Pos, rerouteY: int)

  /** What the second pass reads for one record: the two ends of its link and the highest and lowest nodes the link passes. */
  datatype Survey = Survey(overlap: Overlap, from: Point, to: Point, high: Node, low: Node)

  /** The reroute of a surveyed record, given the current offsets of the two directions. */
  function Route(x: Survey, upOffset: int, downOffset: int): Reroute {
    var higherY := Max(x.from.y, x.to.y);
    var lowerY := Min(x.from.y, x.to.y);
    var top := x.high.pos.y;
    var bottom := BottomOf(x.low);
    var up := if top < higherY then higherY - top else 0;
    var down := if bottom > lowerY then bottom - lowerY else 0;
    var y := if up < down then top - upOffset else bottom + downOffset;
    Reroute(x.overlap, if up < down then Up else Down, up, down, top, x.high.id, x.high.kind, bottom, x.low.id, x.low.kind,
            Pos(x.from.x + WaypointInset, y), Pos(x.to.x - WaypointInset, y), y)
  }

  /** The start of record o's link as the second pass reads it: the stored origin, with the slot of the first link carrying the id. */
  function From(nodeMap: map<NodeId, Node>, links: seq<Link>, o: Overlap): Point
    requires o.origin in nodeMap && exists k :: 0 <= k < |links| && links[k].id == o.linkId
  {
    OutPort(nodeMap[o.origin], links[FirstWith(links, o.linkId, 0)].originSlot)
  }

  /** The end of record o's link as the second pass reads it. */
  function To(nodeMap: map<NodeId, Node>, links: seq<Link>, o: Overlap): Point
    requires o.target in nodeMap && exists k :: 0 <= k < |links| && links[k].id == o.linkId
  {
    InPort(nodeMap[o.target], links[FirstWith(links, o.linkId, 0)].targetSlot)
  }

  /** The second pass can survey record o: both ends are known, a link carries its id, and the link passes some node. */
  ghost predicate Decidable(nodes: seq<Node>, nodeMap: map<NodeId, Node>, links: seq<Link>, o: Overlap) {
    o.origin in nodeMap && o.target in nodeMap
    && (exists k :: 0 <= k < |links| && links[k].id == o.linkId)
    && Highest(nodes, o.origin, o.target, From(nodeMap, links, o), To(nodeMap, links, o)).Some?
    && Lowest(nodes, o.origin, o.target, From(nodeMap, links, o), To(nodeMap, links, o)).Some?
  }

  /** The second pass's reading of record o. */
  function Locate(nodes: seq<Node>, nodeMap: map<NodeId, Node>, links: seq<Link>, o: Overlap): Survey
    requires Decidable(nodes, nodeMap, links, o)
  {
    var a, b := From(nodeMap, links, o), To(nodeMap, links, o);
    Survey(o, a, b, Highest(nodes, o.origin, o.target, a, b).value, Lowest(nodes, o.origin, o.target, a, b).value)
  }

  /** The second pass's readings of all records, in order. */
  function Surveys(nodes: seq<Node>, nodeMap: map<NodeId, Node>, links: seq<Link>, os: seq<Overlap>): (xs: seq<Survey>)
    requires forall o :: o in os ==> Decidable(nodes, nodeMap, links, o)
  {
    seq(|os|, i requires 0 <= i < |os| => Locate(nodes, nodeMap, links, os[i]))
  }

  /** How many of `rs` go in direction d. */
  function Count(rs: seq<Reroute>, d: Direction): nat {
    if rs == [] then 0 else Count(rs[..|rs| - 1], d) + (if rs[|rs| - 1].direction == d then 1 else 0)
  }

  /** The second pass's state: the reroutes decided so far and the offsets the next reroute in each direction takes. */
  datatype Plan = Plan(reroutes: seq<Reroute>, upOffset: int, downOffset: int)

  /** The second pass over surveyed records: each is routed with the current offsets, and its direction's offset then grows by one step. */
  function Schedule(xs: seq<Survey>): (p: Plan)
    ensures |p.reroutes| == |xs|
  {
    if xs == [] then Plan([], FirstOffset, FirstOffset)
    else
      var before := Schedule(xs[..|xs| - 1]);
      var r := Route(xs[|xs| - 1], before.upOffset, before.downOffset);
      Plan(before.reroutes + [r],
           if r.direction == Up then before.upOffset + OffsetStep else before.upOffset,
           if r.direction == Down then before.downOffset + OffsetStep else before.downOffset)
  }

  /** Each direction's offset is the first one grown by one step per reroute already taken in that direction. */
  lemma {:induction false} ScheduleOffsets(xs: seq<Survey>)
    ensures Schedule(xs).upOffset == OffsetAfter(Count(Schedule(xs).reroutes, Up))
    ensures Schedule(xs).downOffset == OffsetAfter(Count(Schedule(xs).reroutes, Down))
  {
    if xs != [] {
      var before := Schedule(xs[..|xs| - 1]);
      ScheduleOffsets(xs[..|xs| - 1]);
      var rs := Schedule(xs).reroutes;
      assert rs[..|rs| - 1] == before.reroutes;
    }
  }

  /** Deciding a prefix of the records gives a prefix of the whole decision. */
  lemma {:induction false} SchedulePrefix(xs: seq<Survey>, k: nat)
    requires k <= |xs|
    ensures Schedule(xs).reroutes[..k] == Schedule(xs[..k]).reroutes
  {
    if k < |xs| {
      var init := xs[..|xs| - 1];
      SchedulePrefix(init, k);
      assert init[..k] == xs[..k];
      assert Schedule(xs).reroutes[..k] == Schedule(init).reroutes[..k];
    } else {
      assert xs[..k] == xs;
    }
  }

  /** Record i is routed with the offsets the records before it leave. */
  lemma ScheduleAt(xs: seq<Survey>, i: nat)
    requires i < |xs|
    ensures Schedule(xs).reroutes[i] == Route(xs[i], Schedule(xs[..i]).upOffset, Schedule(xs[..i]).downOffset)
  {
    SchedulePrefix(xs, i + 1);
    assert xs[..i + 1][..i] == xs[..i] && xs[..i + 1][i] == xs[i];
    assert Schedule(xs).reroutes[i] == Schedule(xs).reroutes[..i + 1][i];
  }

  /** Record i is routed with the first offset grown by one step per earlier reroute in the same direction. */
  lemma ScheduleAtOffsets(xs: seq<Survey>, i: nat)
    requires i < |xs|
    ensures Schedule(xs).reroutes[i] == Route(xs[i], OffsetAfter(Count(Schedule(xs).reroutes[..i], Up)),
                                                     OffsetAfter(Count(Schedule(xs).reroutes[..i], Down)))
  {
    ScheduleAt(xs, i);
    SchedulePrefix(xs, i);
    ScheduleOffsets(xs[..i]);
    var rs := Schedule(xs).reroutes;
    var p := Schedule(xs[..i]);
    assert Count(rs[..i], Up) == Count(p.reroutes, Up);
    assert Count(rs[..i], Down) == Count(p.reroutes, Down);
    var up, down := OffsetAfter(Count(rs[..i], Up)), OffsetAfter(Count(rs[..i], Down));
    assert p.upOffset == up && p.downOffset == down;
    assert rs[i] == Route(xs[i], up, down);
  }

  /** What one reroute holds: the extremes it read, both detour lengths, the shorter detour (down on a tie), the line one offset beyond the extreme on that side, and both waypoints on the line, inset from the link's ends. */
  lemma RouteFacts(x: Survey, upOffset: int, downOffset: int)
    ensures
      var r := Route(x, upOffset, downOffset);
      && r.overlap == x.overlap
      && r.highestTop == x.high.pos.y && r.highestId == x.high.id && r.highestKind == x.high.kind
      && r.lowestBottom == BottomOf(x.low) && r.lowestId == x.low.id && r.lowestKind == x.low.kind
      && r.upDistance == Max(0, Max(x.from.y, x.to.y) - r.highestTop)
      && r.downDistance == Max(0, r.lowestBottom - Min(x.from.y, x.to.y))
      && (r.direction == Up <==> r.upDistance < r.downDistance)
      && r.rerouteY == (if r.direction == Up then r.highestTop - upOffset else r.lowestBottom + downOffset)
      && r.waypoint1 == Pos(x.from.x + WaypointInset, r.rerouteY) && r.waypoint2 == Pos(x.to.x - WaypointInset, r.rerouteY)
  {
  }

  /** The survey of a record reads the first highest and the first lowest node its link passes. */
  lemma LocateFacts(nodes: seq<Node>, nodeMap: map<NodeId, Node>, links: seq<Link>, o: Overlap) returns (hi: nat, lo: nat)
    requires Decidable(nodes, nodeMap, links, o)
    ensures
      var x := Locate(nodes, nodeMap, links, o);
      && x.overlap == o && x.from == From(nodeMap, links, o) && x.to == To(nodeMap, links, o)
      && IsHighest(nodes, hi, o.origin, o.target, x.from, x.to) && x.high == nodes[hi]
      && IsLowest(nodes, lo, o.origin, o.target, x.from, x.to) && x.low == nodes[lo]
  {
    var a, b := From(nodeMap, links, o), To(nodeMap, links, o);
    SomePassed(nodes, o.origin, o.target, a, b);
    hi := HighestAt(nodes, o.origin, o.target, a, b);
    lo := LowestAt(nodes, o.origin, o.target, a, b);
  }

  datatype Message = NoLinksToAnalyze | FoundOverlapping(count: nat)

  /** The dictionary detect_link_overlaps returns, without its constant status. */
  datatype Report = Report(message: Message, overlaps: seq<Reroute>)

  /** The nodes detect_link_overlaps analyses: those some link touches. */
  function Kept(allNodes: seq<Node>, links: seq<Link>): seq<Node> {
    KeepNodes(allNodes, Endpoints(links))
  }

  /** Every record of the first pass can be surveyed by the second. */
  lemma FoundDecidable(nodes: seq<Node>, nodeMap: map<NodeId, Node>, links: seq<Link>)
    ensures forall o :: o in Found(nodes, nodeMap, links) ==> Decidable(nodes, nodeMap, links, o)
  {
    forall o | o in Found(nodes, nodeMap, links) ensures Decidable(nodes, nodeMap, links, o) {
      var i := FoundFrom(nodes, nodeMap, links, o);
      var l := links[i];
      OverlapOfFacts(nodes, nodeMap, l);
      var a, b := OutPort(nodeMap[l.origin], l.originSlot), InPort(nodeMap[l.target], l.targetSlot);
      var x := o.blockers[0];
      assert x in o.blockers;
      var n :| n in nodes && Passes(n, l.origin, l.target, a, b) && Blocks(n, a, b) && x == BlockerOf(n);
      assert Passes(n, o.origin, o.target, From(nodeMap, links, o), To(nodeMap, links, o));
      ExtremesExist(nodes, o.origin, o.target, From(nodeMap, links, o), To(nodeMap, links, o));
    }
  }

  /** detect_link_overlaps on the node and link lists of a graph. */
  function Detect(allNodes: seq<Node>, links: seq<Link>): Report {
    var nodes := Kept(allNodes, links);
    if links == [] || nodes == [] then Report(NoLinksToAnalyze, [])
    else
      var nodeMap := NodeMap(nodes);
      var found := Found(nodes, nodeMap, links);
      FoundDecidable(nodes, nodeMap, links);
      Report(FoundOverlapping(|found|), Schedule(Surveys(nodes, nodeMap, links, found)).reroutes)
  }

  /** The analysis stops early exactly when there are no links or no linked node; otherwise it counts its records. */
  lemma DetectNothing(allNodes: seq<Node>, links: seq<Link>)
    ensures Detect(allNodes, links).message == NoLinksToAnalyze <==> links == [] || IdSet(allNodes) * Endpoints(links) == {}
    ensures Detect(allNodes, links).message == NoLinksToAnalyze ==> Detect(allNodes, links).overlaps == []
    ensures Detect(allNodes, links).message.FoundOverlapping? ==>
      Detect(allNodes, links).message.count == |Detect(allNodes, links).overlaps|
  {
    var nodes := Kept(allNodes, links);
    KeepNodesIds(allNodes, Endpoints(links));
    if nodes != [] {
      assert nodes[0].id in IdSet(nodes);
    }
  }

  /** Report entry i routes record i of the first pass. */
  lemma DetectEntry(allNodes: seq<Node>, links: seq<Link>, i: nat)
    requires i < |Detect(allNodes, links).overlaps|
    ensures links != [] && Kept(allNodes, links) != []
    ensures
      var nodes := Kept(allNodes, links);
      var nodeMap := NodeMap(nodes);
      var found := Found(nodes, nodeMap, links);
      var rs := Detect(allNodes, links).overlaps;
      && i < |found| && Decidable(nodes, nodeMap, links, found[i])
      && rs[i] == Route(Locate(nodes, nodeMap, links, found[i]),
                        OffsetAfter(Count(rs[..i], Up)), OffsetAfter(Count(rs[..i], Down)))
  {
    var nodes := Kept(allNodes, links);
    var nodeMap := NodeMap(nodes);
    var found := Found(nodes, nodeMap, links);
    FoundDecidable(nodes, nodeMap, links);
    var xs := Surveys(nodes, nodeMap, links, found);
    assert Detect(allNodes, links).overlaps == Schedule(xs).reroutes;
    ScheduleAtOffsets(xs, i);
    assert found[i] in found;
  }

  /** Every reported link exists, joins two known nodes, and goes through at least one linked node other than its ends. */
  lemma DetectSound(allNodes: seq<Node>, links: seq<Link>, i: nat)
    requires i < |Detect(allNodes, links).overlaps|
    ensures
      var o := Detect(allNodes, links).overlaps[i].overlap;
      && (exists k :: 0 <= k < |links| && links[k].id == o.linkId && links[k].origin == o.origin && links[k].target == o.target)
      && o.origin in IdSet(allNodes) && o.target in IdSet(allNodes)
      && o.blockers != []
      && forall x :: x in o.blockers ==> x.id in IdSet(allNodes) * Endpoints(links) && x.id != o.origin && x.id != o.target
  {
    DetectEntry(allNodes, links, i);
    var nodes := Kept(allNodes, links);
    var nodeMap := NodeMap(nodes);
    var found := Found(nodes, nodeMap, links);
    KeepNodesIds(allNodes, Endpoints(links));
    var o := found[i];
    assert Detect(allNodes, links).overlaps[i].overlap == o;
    assert o in found;
    var k := FoundFrom(nodes, nodeMap, links, o);
    OverlapOfFacts(nodes, nodeMap, links[k]);
    forall x | x in o.blockers ensures x.id in IdSet(nodes) && x.id != o.origin && x.id != o.target {
      var n :| n in nodes && Passes(n, o.origin, o.target, OutPort(nodeMap[o.origin], links[k].originSlot), InPort(nodeMap[o.target], links[k].targetSlot))
        && x == BlockerOf(n);
    }
  }

  /** Every link the first pass keeps is reported. */
  lemma DetectComplete(allNodes: seq<Node>, links: seq<Link>, k: nat)
    requires k < |links| && OverlapOf(Kept(allNodes, links), NodeMap(Kept(allNodes, links)), links[k]).Some?
    ensures exists i :: (0 <= i < |Detect(allNodes, links).overlaps|
      && Detect(allNodes, links).overlaps[i].overlap == OverlapOf(Kept(allNodes, links), NodeMap(Kept(allNodes, links)), links[k]).value)
  {
    var nodes := Kept(allNodes, links);
    var nodeMap := NodeMap(nodes);
    var found := Found(nodes, nodeMap, links);
    var o := OverlapOf(nodes, nodeMap, links[k]).value;
    assert links[k].origin in IdSet(nodes);
    FoundHas(nodes, nodeMap, links, k);
    var i :| 0 <= i < |found| && found[i] == o;
    DetectEntry(allNodes, links, i);
  }

  /** Entry i is the route of its record past the first highest and the first lowest node its link passes, with each direction's offset grown by one step per earlier reroute in it. */
  lemma DetectRoute(allNodes: seq<Node>, links: seq<Link>, i: nat) returns (hi: nat, lo: nat)
    requires i < |Detect(allNodes, links).overlaps|
    ensures
      var nodes := Kept(allNodes, links);
      var nodeMap := NodeMap(nodes);
      var o := Detect(allNodes, links).overlaps[i].overlap;
      && o in Found(nodes, nodeMap, links) && Decidable(nodes, nodeMap, links, o)
      && IsHighest(nodes, hi, o.origin, o.target, From(nodeMap, links, o), To(nodeMap, links, o))
      && IsLowest(nodes, lo, o.origin, o.target, From(nodeMap, links, o), To(nodeMap, links, o))
    ensures
      var nodes := Kept(allNodes, links);
      var nodeMap := NodeMap(nodes);
      var rs := Detect(allNodes, links).overlaps;
      var o := rs[i].overlap;
      rs[i] == Route(Survey(o, From(nodeMap, links, o), To(nodeMap, links, o), nodes[hi], nodes[lo]),
                     OffsetAfter(Count(rs[..i], Up)), OffsetAfter(Count(rs[..i], Down)))
  {
    DetectEntry(allNodes, links, i);
    var nodes := Kept(allNodes, links);
    var nodeMap := NodeMap(nodes);
    var found := Found(nodes, nodeMap, links);
    assert found[i] in found;
    hi, lo := LocateFacts(nodes, nodeMap, links, found[i]);
  }

  /** The reroute line of entry i runs clear of every node its link passes, by at least the first offset. */
  lemma DetectClears(allNodes: seq<Node>, links: seq<Link>, i: nat)
    requires i < |Detect(allNodes, links).overlaps|
    ensures
      var nodes := Kept(allNodes, links);
      var nodeMap := NodeMap(nodes);
      var o := Detect(allNodes, links).overlaps[i].overlap;
      o in Found(nodes, nodeMap, links) && Decidable(nodes, nodeMap, links, o)
    ensures
      var nodes := Kept(allNodes, links);
      var nodeMap := NodeMap(nodes);
      var r := Detect(allNodes, links).overlaps[i];
      forall n :: n in nodes && Passes(n, r.overlap.origin, r.overlap.target, From(nodeMap, links, r.overlap), To(nodeMap, links, r.overlap)) ==>
        (r.direction == Up ==> r.rerouteY + FirstOffset <= n.pos.y)
        && (r.direction == Down ==> BottomOf(n) + FirstOffset <= r.rerouteY)
  {
    var hi, lo := DetectRoute(allNodes, links, i);
    var nodes := Kept(allNodes, links);
    var nodeMap := NodeMap(nodes);
    var rs := Detect(allNodes, links).overlaps;
    var o := rs[i].overlap;
    RouteFacts(Survey(o, From(nodeMap, links, o), To(nodeMap, links, o), nodes[hi], nodes[lo]),
               OffsetAfter(Count(rs[..i], Up)), OffsetAfter(Count(rs[..i], Down)));
    forall n | n in nodes ensures exists j :: 0 <= j < |nodes| && nodes[j] == n {
      var j :| 0 <= j < |nodes| && nodes[j] == n;
    }
  }

  /** The first pass of detect_link_overlaps: one record for each link that goes through a node. */
  method FirstPass(nodes: seq<Node>, nodeMap: map<NodeId, Node>, links: seq<Link>) returns (overlaps: seq<Overlap>)
    ensures overlaps == Found(nodes, nodeMap, links)
  {
    overlaps := [];
    var i := 0;
    while i < |links|
      invariant i <= |links|
      invariant overlaps == Found(nodes, nodeMap, links[..i])
    {
      var link := links[i];
      assert links[..i + 1][..i] == links[..i];
      if link.origin in nodeMap && link.target in nodeMap {
        var from, to := nodeMap[link.origin], nodeMap[link.target];
        var hits := FindBlockers(nodes, link.origin, link.target, OutPort(from, link.originSlot), InPort(to, link.targetSlot));
        if hits != [] {
          overlaps := overlaps + [Overlap(link.id, link.origin, from.kind, link.target, to.kind, hits)];
        }
      }
      i := i + 1;
    }
    assert links[..i] == links;
  }

  /** The second pass of detect_link_overlaps: a direction and two waypoints for each record, in order. */
  method SecondPass(nodes: seq<Node>, nodeMap: map<NodeId, Node>, links: seq<Link>, overlaps: seq<Overlap>) returns (decided: seq<Reroute>)
    requires forall o :: o in overlaps ==> Decidable(nodes, nodeMap, links, o)
    ensures decided == Schedule(Surveys(nodes, nodeMap, links, overlaps)).reroutes
  {
    ghost var xs := Surveys(nodes, nodeMap, links, overlaps);
    var upOffset, downOffset := FirstOffset, FirstOffset;
    decided := [];
    var k := 0;
    while k < |overlaps|
      invariant k <= |overlaps|
      invariant Plan(decided, upOffset, downOffset) == Schedule(xs[..k])
    {
      var o := overlaps[k];
      assert o in overlaps;
      var l := links[FirstWith(links, o.linkId, 0)];
      var a, b := OutPort(nodeMap[o.origin], l.originSlot), InPort(nodeMap[o.target], l.targetSlot);
      var high, low := FindExtremes(nodes, o.origin, o.target, a, b);
      var x := Survey(o, a, b, high.value, low.value);
      assert x == xs[k];
      var rr := Route(x, upOffset, downOffset);
      assert xs[..k + 1][..k] == xs[..k] && xs[..k + 1][k] == xs[k];
      if rr.direction == Up {
        upOffset := upOffset + OffsetStep;
      } else {
        downOffset := downOffset + OffsetStep;
      }
      decided := decided + [rr];
      k := k + 1;
    }
    assert xs[..k] == xs;
  }

  /** detect_link_overlaps on the node and link lists of a graph. */
  method DetectLinkOverlaps(allNodes: seq<Node>, links: seq<Link>) returns (r: Report)
    ensures r == Detect(allNodes, links)
  {
    var connectedIds := ConnectedNodeIds(links);
    var nodes := KeepNodes(allNodes, connectedIds);
    if links == [] || nodes == [] {
      return Report(NoLinksToAnalyze, []);
    }
    var nodeMap := NodeMap(nodes);
    var overlaps := FirstPass(nodes, nodeMap, links);
    FoundDecidable(nodes, nodeMap, links);
    var decided := SecondPass(nodes, nodeMap, links, overlaps);
    return Report(FoundOverlapping(|overlaps|), decided);
  }
}
