// Segment/rectangle intersection used by the overlap detector
// (tabularize.py, line_segment_intersects_rect). Coordinates are integers;
// the y axis points down, as on the editor canvas.
module Geometry {

  datatype Point = Point(x: int, y: int)

  /** Axis-aligned rectangle given by its top-left corner, width and height. */
  datatype Rect = Rect(x: int, y: int, w: int, h: int)

  datatype Segment = Segment(a: Point, b: Point)

  /** Closed containment: the border counts as inside. */
  predicate PointInRect(p: Point, r: Rect) {
    r.x <= p.x <= r.x + r.w && r.y <= p.y <= r.y + r.h
  }

  /** Strict orientation test of the triangle (a, b, c): collinear points give false. */
  predicate Ccw(a: Point, b: Point, c: Point) {
    (c.y - a.y) * (b.x - a.x) > (b.y - a.y) * (c.x - a.x)
  }

  /** The crossing test of two segments: each one's endpoints get different strict orientations. */
  predicate SegmentsCross(s: Segment, e: Segment) {
    Ccw(s.a, e.a, e.b) != Ccw(s.b, e.a, e.b) && Ccw(s.a, s.b, e.a) != Ccw(s.a, s.b, e.b)
  }

  /** The four borders in the order the source tests them: top, right, bottom, left. */
  function Edges(r: Rect): (es: seq<Segment>)
    ensures |es| == 4
  {
    [ Segment(Point(r.x, r.y), Point(r.x + r.w, r.y)),
      Segment(Point(r.x + r.w, r.y), Point(r.x + r.w, r.y + r.h)),
      Segment(Point(r.x, r.y + r.h), Point(r.x + r.w, r.y + r.h)),
      Segment(Point(r.x, r.y), Point(r.x, r.y + r.h)) ]
  }

  /** The early-return loop over the edges: true at the first edge the segment crosses. */
  function CrossesAnyEdge(s: Segment, edges: seq<Segment>): (b: bool)
    ensures b <==> exists k :: 0 <= k < |edges| && SegmentsCross(s, edges[k])
  {
    if edges == [] then false
    else if SegmentsCross(s, edges[0]) then true
    else
      var rest := CrossesAnyEdge(s, edges[1..]);
      assert forall k :: 1 <= k < |edges| ==> edges[k] == edges[1..][k - 1];
      rest
  }

  /** line_segment_intersects_rect: an endpoint inside the closed rectangle, or an edge crossing. */
  function SegmentIntersectsRect(s: Segment, r: Rect): (b: bool)
    ensures PointInRect(s.a, r) || PointInRect(s.b, r) ==> b
    ensures !PointInRect(s.a, r) && !PointInRect(s.b, r) ==>
              (b <==> exists k :: 0 <= k < 4 && SegmentsCross(s, Edges(r)[k]))
  {
    if PointInRect(s.a, r) || PointInRect(s.b, r) then true
    else CrossesAnyEdge(s, Edges(r))
  }

  // ----- arithmetic helpers for the orientation proofs -----

  lemma MulLe(a: int, b: int, c: int)
    requires a <= b && c >= 0
    ensures a * c <= b * c
  {
  }

  lemma MulLt(a: int, b: int, c: int)
    requires a < b && c > 0
    ensures a * c < b * c
  {
  }

  lemma MulSigns(a: int, b: int)
    ensures a > 0 && b > 0 ==> a * b > 0
    ensures a < 0 && b < 0 ==> a * b > 0
    ensures a > 0 && b < 0 ==> a * b < 0
    ensures a >= 0 && b <= 0 ==> a * b <= 0
    ensures a <= 0 && b >= 0 ==> a * b <= 0
    ensures a <= 0 && b <= 0 ==> a * b >= 0
    ensures a >= 0 && b >= 0 ==> a * b >= 0
  {
  }

  /**
   * A horizontal segment whose height lies strictly inside the rectangle and
   * which reaches the left border from outside is reported: the straight link
   * that passes through a node between its endpoints is detected.
   */
  lemma HorizontalSegmentThroughRect(s: Segment, r: Rect)
    requires s.a.y == s.b.y && r.y < s.a.y < r.y + r.h
    requires (s.a.x < r.x <= s.b.x) || (s.b.x < r.x <= s.a.x)
    ensures SegmentIntersectsRect(s, r)
  {
    if !PointInRect(s.a, r) && !PointInRect(s.b, r) {
      var y := s.a.y;
      var left := Edges(r)[3];
      MulSigns(r.h, r.x - s.a.x);
      MulSigns(r.h, r.x - s.b.x);
      MulSigns(r.y - y, s.b.x - s.a.x);
      MulSigns(r.y + r.h - y, s.b.x - s.a.x);
      assert (r.y + r.h - y) * (r.x - s.a.x) - (r.y - y) * (r.x - s.a.x) == r.h * (r.x - s.a.x);
      assert (r.y + r.h - y) * (r.x - s.b.x) - (r.y - y) * (r.x - s.b.x) == r.h * (r.x - s.b.x);
      assert SegmentsCross(s, left);
    }
  }

  /** Side(p1, p2, q) > 0 is Ccw(p1, p2, q): the side of the line p1 p2 on which q lies. */
  function Side(p1: Point, p2: Point, q: Point): int {
    (q.y - p1.y) * (p2.x - p1.x) - (p2.y - p1.y) * (q.x - p1.x)
  }

  /** Reversing the line flips the side. */
  lemma SideSwap(p1: Point, p2: Point, q: Point)
    ensures Side(p2, p1, q) == -Side(p1, p2, q)
  {
    var a, b := q.y - p1.y, p2.y - p1.y;
    var c, d := q.x - p1.x, p2.x - p1.x;
    assert q.y - p2.y == a - b && q.x - p2.x == c - d;
    assert (a - b) * (-d) == b * d - a * d;
    assert (-b) * (c - d) == b * d - b * c;
  }

  /** Right of a downward segment that spans its height, a point lies on the negative side. */
  lemma SideRightOfDownward(p1: Point, p2: Point, q: Point)
    requires p1.y <= q.y < p2.y && q.x > p1.x && q.x > p2.x
    ensures Side(p1, p2, q) < 0
  {
    var s, d := q.y - p1.y, p2.y - p1.y;
    var dx, qx := p2.x - p1.x, q.x - p1.x;
    if dx >= 0 {
      MulLe(s, d, dx);
      MulLt(dx, qx, d);
      assert d * dx < d * qx;
    } else {
      MulSigns(s, dx);
      MulSigns(d, qx);
    }
  }

  /** Left of a downward segment that spans its height, a point lies on the positive side. */
  lemma SideLeftOfDownward(p1: Point, p2: Point, q: Point)
    requires p1.y <= q.y < p2.y && q.x < p1.x && q.x < p2.x
    ensures Side(p1, p2, q) > 0
  {
    var s, d := q.y - p1.y, p2.y - p1.y;
    var dx, qx := p2.x - p1.x, q.x - p1.x;
    if dx >= 0 {
      MulSigns(s, dx);
      MulSigns(d, -qx);
    } else {
      MulLe(s, d, -dx);
      MulLt(qx, dx, d);
      assert d * qx < d * dx;
    }
  }

  /**
   * A point on a horizontal line that the segment crosses, lying entirely to one
   * side of the segment's horizontal extent, is strictly on one side of the
   * segment's line; which side depends only on the direction of the segment.
   */
  lemma SideOfCrossedLine(p1: Point, p2: Point, q: Point)
    requires p1.y <= q.y < p2.y || p2.y <= q.y < p1.y
    requires (q.x > p1.x && q.x > p2.x) || (q.x < p1.x && q.x < p2.x)
    ensures q.x > p1.x ==> (p2.y > p1.y ==> Side(p1, p2, q) < 0) && (p2.y < p1.y ==> Side(p1, p2, q) > 0)
    ensures q.x < p1.x ==> (p2.y > p1.y ==> Side(p1, p2, q) > 0) && (p2.y < p1.y ==> Side(p1, p2, q) < 0)
  {
    if p2.y > p1.y {
      if q.x > p1.x { SideRightOfDownward(p1, p2, q); } else { SideLeftOfDownward(p1, p2, q); }
    } else {
      SideSwap(p1, p2, q);
      if q.x > p1.x { SideRightOfDownward(p2, p1, q); } else { SideLeftOfDownward(p2, p1, q); }
    }
  }

  /** Against a horizontal border running rightwards, a point is counter-clockwise exactly when it lies below a non-degenerate border. */
  lemma CcwAgainstHorizontal(p: Point, e: Segment)
    requires e.a.y == e.b.y && e.a.x <= e.b.x
    ensures Ccw(p, e.a, e.b) <==> p.y > e.a.y && e.a.x < e.b.x
  {
    var d, w := e.a.y - p.y, e.b.x - e.a.x;
    assert d * (e.a.x - p.x) - d * (e.b.x - p.x) == -(d * w);
    MulSigns(d, w);
  }

  /** Against a vertical border running downwards, a point is counter-clockwise exactly when it lies left of a non-degenerate border. */
  lemma CcwAgainstVertical(p: Point, e: Segment)
    requires e.a.x == e.b.x && e.a.y <= e.b.y
    ensures Ccw(p, e.a, e.b) <==> p.x < e.a.x && e.a.y < e.b.y
  {
    var c, h := e.a.x - p.x, e.b.y - e.a.y;
    assert (e.b.y - p.y) * c - (e.a.y - p.y) * c == h * c;
    MulSigns(h, c);
  }

  /** A horizontal border (y constant, running rightwards) is never crossed by a segment beside it. */
  lemma HorizontalEdgeNotCrossed(s: Segment, e: Segment)
    requires e.a.y == e.b.y && e.a.x <= e.b.x
    requires (e.a.x > s.a.x && e.a.x > s.b.x) || (e.b.x < s.a.x && e.b.x < s.b.x)
    ensures !SegmentsCross(s, e)
  {
    CcwAgainstHorizontal(s.a, e);
    CcwAgainstHorizontal(s.b, e);
    if Ccw(s.a, e.a, e.b) != Ccw(s.b, e.a, e.b) {
      assert Ccw(s.a, s.b, e.a) == (Side(s.a, s.b, e.a) > 0);
      assert Ccw(s.a, s.b, e.b) == (Side(s.a, s.b, e.b) > 0);
      SideOfCrossedLine(s.a, s.b, e.a);
      SideOfCrossedLine(s.a, s.b, e.b);
    }
  }

  /** A vertical border (x constant, running downwards) is never crossed by a segment beside it. */
  lemma VerticalEdgeNotCrossed(s: Segment, e: Segment)
    requires e.a.x == e.b.x && e.a.y <= e.b.y
    requires (e.a.x > s.a.x && e.a.x > s.b.x) || (e.a.x < s.a.x && e.a.x < s.b.x)
    ensures !SegmentsCross(s, e)
  {
    CcwAgainstVertical(s.a, e);
    CcwAgainstVertical(s.b, e);
  }

  /**
   * The overlap detector skips a node whose box lies entirely left or right of
   * the link's horizontal span before calling the precise test. For boxes of
   * non-negative size this never drops a node the precise test would report.
   */
  lemma OutOfSpanNeverIntersects(s: Segment, r: Rect)
    requires r.w >= 0 && r.h >= 0
    requires (r.x + r.w < s.a.x && r.x + r.w < s.b.x) || (r.x > s.a.x && r.x > s.b.x)
    ensures !SegmentIntersectsRect(s, r)
  {
    var es := Edges(r);
    HorizontalEdgeNotCrossed(s, es[0]);
    VerticalEdgeNotCrossed(s, es[1]);
    HorizontalEdgeNotCrossed(s, es[2]);
    VerticalEdgeNotCrossed(s, es[3]);
  }

  /**
   * Collinear contact is not a crossing under the strict test, so a segment that
   * only grazes a corner is reported or not depending on its direction.
   */
  lemma CornerGrazeDependsOnDirection()
    ensures SegmentIntersectsRect(Segment(Point(-1, 1), Point(1, -1)), Rect(0, 0, 10, 10))
    ensures !SegmentIntersectsRect(Segment(Point(1, -1), Point(-1, 1)), Rect(0, 0, 10, 10))
  {
    var r := Rect(0, 0, 10, 10);
    var down := Segment(Point(1, -1), Point(-1, 1));
    assert SegmentsCross(Segment(Point(-1, 1), Point(1, -1)), Edges(r)[0]);
    assert !SegmentsCross(down, Edges(r)[0]);
    assert !SegmentsCross(down, Edges(r)[1]);
    assert !SegmentsCross(down, Edges(r)[2]);
    assert !SegmentsCross(down, Edges(r)[3]);
  }
}
