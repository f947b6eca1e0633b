/**
 * What `IntLineSegment3.IntersectsXY` decides, in terms of the orientations used by
 * `IntLineSegment2.Intersects`. The sign test accepts exactly two situations: the four
 * points are collinear (whether or not the segments overlap), or the segments cross
 * properly (every endpoint strictly on one side of the other segment's line). Touching
 * configurations, such as a T-junction or a shared endpoint of non-collinear segments,
 * are rejected.
 */
module SegmentsXY {
  import opened IntVectors
  import opened Segments
  import opened SegmentGeometry

  /** All four points are on one line (in the XY projection). */
  predicate AllCollinear(a: IntVector2, b: IntVector2, c: IntVector2, d: IntVector2)
  {
    Clockness(a, b, c) == 0 && Clockness(a, b, d) == 0 && Clockness(c, d, a) == 0 && Clockness(c, d, b) == 0
  }

  /** Each segment strictly separates the endpoints of the other. */
  predicate CrossesProperly(a: IntVector2, b: IntVector2, c: IntVector2, d: IntVector2)
  {
    Clockness(a, b, c) != 0 && Clockness(a, b, d) != 0 && Clockness(c, d, a) != 0 && Clockness(c, d, b) != 0
    && Clockness(a, b, c) != Clockness(a, b, d) && Clockness(c, d, a) != Clockness(c, d, b)
  }

  /** The four signs of the source are the orientations tl = o1, tr = o2, bl = o3, br = o4. */
  lemma IntersectsXYOrientations(s: IntLineSegment3, other: IntLineSegment3)
    ensures var a, b, c, d := XY(s.first), XY(s.second), XY(other.first), XY(other.second);
      IntersectsXY(s, other) <==> Clockness(a, b, c) == -Clockness(a, b, d) && Clockness(c, d, a) == -Clockness(c, d, b)
  {
    var a, b, c, d := XY(s.first), XY(s.second), XY(other.first), XY(other.second);
    assert Cross(To(a, b), To(a, c)) == (a.x - c.x) * (b.y - c.y) - (a.y - c.y) * (b.x - c.x);
    assert Cross(To(a, b), To(a, d)) == (a.x - d.x) * (b.y - d.y) - (a.y - d.y) * (b.x - d.x);
    assert Cross(To(c, d), To(c, a)) == (c.x - a.x) * (d.y - a.y) - (c.y - a.y) * (d.x - a.x);
    assert Cross(To(c, d), To(c, b)) == (c.x - b.x) * (d.y - b.y) - (c.y - b.y) * (d.x - b.x);
  }

  /** Both endpoints of cd on the line of a proper segment ab put a and b on the line of cd. */
  lemma OnLineCollinear(a: IntVector2, b: IntVector2, c: IntVector2, d: IntVector2)
    requires a != b && Clockness(a, b, c) == 0 && Clockness(a, b, d) == 0
    ensures Clockness(c, d, a) == 0 && Clockness(c, d, b) == 0
  {
    var r, u, v := Sub(b, a), Sub(c, a), Sub(d, a);
    assert Cross(r, u) == 0 && Cross(r, v) == 0;
    assert r != Zero by { assert b.x != a.x || b.y != a.y; }
    ParallelTransitive(r, u, v);
    assert Cross(Sub(d, c), Sub(a, c)) == Cross(u, v);
    assert Cross(Sub(d, c), Sub(b, c)) == Cross(v, r) - Cross(v, u) - Cross(u, r);
  }

  lemma DegenerateOrientation(a: IntVector2, q: IntVector2)
    ensures Clockness(a, a, q) == 0
  {
    assert Cross(Sub(a, a), Sub(q, a)) == 0;
  }

  /**
   * The characterization: the sign test holds exactly for collinear configurations and
   * for proper crossings.
   */
  lemma IntersectsXYCases(s: IntLineSegment3, other: IntLineSegment3)
    ensures var a, b, c, d := XY(s.first), XY(s.second), XY(other.first), XY(other.second);
      IntersectsXY(s, other) <==> AllCollinear(a, b, c, d) || CrossesProperly(a, b, c, d)
  {
    var a, b, c, d := XY(s.first), XY(s.second), XY(other.first), XY(other.second);
    IntersectsXYOrientations(s, other);
    DegenerateOrientation(a, c);
    DegenerateOrientation(c, a);
    var o1, o2, o3, o4 := Clockness(a, b, c), Clockness(a, b, d), Clockness(c, d, a), Clockness(c, d, b);
    if IntersectsXY(s, other) {
      if o1 == 0 {
        if a != b { OnLineCollinear(a, b, c, d); }
        assert AllCollinear(a, b, c, d);
      } else if o3 == 0 {
        if c != d { OnLineCollinear(c, d, a, b); }
      }
    }
  }

  /** A proper crossing is an intersection of two proper segments. */
  lemma CrossesProperlyMeets(a: IntVector2, b: IntVector2, c: IntVector2, d: IntVector2)
    requires CrossesProperly(a, b, c, d)
    ensures a != b && c != d
    ensures Intersects(a, b, c, d) && SegmentsMeet(a, b, c, d)
  {
    DegenerateOrientation(a, c);
    DegenerateOrientation(c, a);
    IntersectsIffSegmentsMeet(a, b, c, d);
  }

  lemma MulLess(u: int, v: int)
    requires 0 < u < v
    ensures u * u < u * v
  {
    MulPos(u, v - u);
  }

  lemma MulNegative(u: int, v: int)
    requires 0 < u && v < 0
    ensures u * v < 0
  {
    MulPos(u, -v);
  }

  /**
   * Collinear but disjoint segments pass the sign test: two segments one after the other
   * on a horizontal line have no common point, yet IntersectsXY holds.
   */
  lemma CollinearDisjointAccepted(s: IntLineSegment3, other: IntLineSegment3)
    requires s.first.y == s.second.y == other.first.y == other.second.y
    requires s.first.x < s.second.x < other.first.x < other.second.x
    ensures IntersectsXY(s, other)
    ensures !SegmentsMeet(XY(s.first), XY(s.second), XY(other.first), XY(other.second))
  {
    var a, b, c, d := XY(s.first), XY(s.second), XY(other.first), XY(other.second);
    var r, w, v, s', u, t := Sub(b, a), Sub(c, a), Sub(d, a), Sub(d, c), Sub(a, c), Sub(b, c);
    assert r.y == 0 && w.y == 0 && v.y == 0 && s'.y == 0 && u.y == 0 && t.y == 0;
    assert 0 < r.x < w.x < v.x && 0 < s'.x && u.x < t.x < 0;
    assert Cross(r, w) == 0 && Cross(r, v) == 0 && Cross(s', u) == 0 && Cross(s', t) == 0;
    assert AllCollinear(a, b, c, d);
    IntersectsXYCases(s, other);
    MulLess(r.x, w.x);
    MulLess(r.x, v.x);
    MulNegative(s'.x, u.x);
    MulNegative(s'.x, t.x);
    ContainsFacts(a, b, c);
    ContainsFacts(a, b, d);
    ContainsFacts(c, d, a);
    ContainsFacts(c, d, b);
    assert !Intersects(a, b, c, d);
    IntersectsIffSegmentsMeet(a, b, c, d);
  }

  /**
   * Touching segments fail the sign test: when an endpoint of one segment lies on the other
   * segment and the far endpoint is off its line (a T-junction, or a shared endpoint), the
   * segments meet, yet IntersectsXY does not hold.
   */
  lemma TouchingRejected(s: IntLineSegment3, other: IntLineSegment3)
    requires Contains(XY(s.first), XY(s.second), XY(other.first))
    requires Clockness(XY(s.first), XY(s.second), XY(other.second)) != 0
    ensures !IntersectsXY(s, other)
    ensures SegmentsMeet(XY(s.first), XY(s.second), XY(other.first), XY(other.second))
  {
    var a, b, c, d := XY(s.first), XY(s.second), XY(other.first), XY(other.second);
    IntersectsXYOrientations(s, other);
    ContainsFacts(a, b, c);
    DegenerateOrientation(a, d);
    assert a != b;
    assert c != d;
    EndpointOnOtherIntersects(a, b, c, d);
    IntersectsIffSegmentsMeet(a, b, c, d);
  }
}
