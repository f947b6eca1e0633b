/**
 * What the segment predicates mean geometrically. The reference definitions say that a
 * point is on a closed segment, or that two closed segments share a point, by exhibiting
 * rational parameters s/w in [0, 1] as integer pairs, so no division is needed.
 */
module SegmentGeometry {
  import opened CSharpInt
  import opened IntVectors
  import opened Segments

  /** w*p + s*(q - p): w times the point at parameter s/w along p -> q. */
  function Along(w: int, s: int, p: IntVector2, q: IntVector2): IntVector2
  {
    Add(MulLeft(w, p), MulLeft(s, Sub(q, p)))
  }

  /** The point q lies on the closed segment p1p2. */
  ghost predicate OnSegment(p1: IntVector2, p2: IntVector2, q: IntVector2)
  {
    exists w: int, s: int :: 0 < w && 0 <= s <= w && Along(w, s, p1, p2) == MulLeft(w, q)
  }

  /** The closed segments ab and cd have a point in common. */
  ghost predicate SegmentsMeet(a: IntVector2, b: IntVector2, c: IntVector2, d: IntVector2)
  {
    exists w: int, s: int, t: int ::
      0 < w && 0 <= s <= w && 0 <= t <= w && Along(w, s, a, b) == Along(w, t, c, d)
  }

  // ---------------------------------------------------------------------------
  // Arithmetic helpers

  lemma MulPos(a: int, b: int)
    requires a > 0 && b > 0
    ensures a * b > 0
  {
  }

  lemma CancelLe(w: int, a: int, b: int)
    requires w > 0 && w * a <= w * b
    ensures a <= b
  {
  }

  lemma CancelEq(w: int, a: int, b: int)
    requires w > 0 && w * a == w * b
    ensures a == b
  {
    CancelLe(w, a, b);
    CancelLe(w, b, a);
  }

  lemma MulMonotone(k: int, a: int, b: int)
    requires k >= 0 && a <= b
    ensures k * a <= k * b
  {
    assert k * b - k * a == k * (b - a);
  }

  /** With w and k positive, w*x == k*den forces x to have the sign of den. */
  lemma SignScaled(w: int, x: int, k: int, den: int)
    requires w > 0 && k > 0 && w * x == k * den
    ensures Sign(x) == Sign(den)
  {
    if den > 0 {
      MulPos(k, den);
      if x <= 0 { MulMonotone(w, x, 0); }
    } else if den < 0 {
      MulPos(k, -den);
      assert k * (-den) == -(k * den);
      if x >= 0 { MulMonotone(w, 0, x); }
    } else {
      CancelEq(w, x, 0);
    }
  }

  // ---------------------------------------------------------------------------
  // Vector identities

  lemma CrossLinearRight(u: IntVector2, k: int, v: IntVector2, m: int, z: IntVector2)
    ensures Cross(u, Sub(MulLeft(k, v), MulLeft(m, z))) == k * Cross(u, v) - m * Cross(u, z)
  {
    assert u.x * (k * v.y - m * z.y) == k * (u.x * v.y) - m * (u.x * z.y);
    assert u.y * (k * v.x - m * z.x) == k * (u.y * v.x) - m * (u.y * z.x);
  }

  lemma DotLinearRight(u: IntVector2, k: int, v: IntVector2, m: int, z: IntVector2)
    ensures Dot(u, Sub(MulLeft(k, v), MulLeft(m, z))) == k * Dot(u, v) - m * Dot(u, z)
  {
    assert u.x * (k * v.x - m * z.x) == k * (u.x * v.x) - m * (u.x * z.x);
    assert u.y * (k * v.y - m * z.y) == k * (u.y * v.y) - m * (u.y * z.y);
  }

  /** A vector v on the line of d satisfies |d|^2 * v == (d . v) * d. */
  lemma CollinearScale(d: IntVector2, v: IntVector2)
    requires Cross(d, v) == 0
    ensures MulLeft(SquaredNorm2(d), v) == MulLeft(Dot(d, v), d)
  {
    assert (d.x * d.x + d.y * d.y) * v.x - (d.x * v.x + d.y * v.y) * d.x == -d.y * Cross(d, v);
    assert (d.x * d.x + d.y * d.y) * v.y - (d.x * v.x + d.y * v.y) * d.y == d.x * Cross(d, v);
  }

  /** Two vectors both parallel to a non-zero r are parallel to each other. */
  lemma ParallelTransitive(r: IntVector2, u: IntVector2, v: IntVector2)
    requires r != Zero && Cross(r, u) == 0 && Cross(r, v) == 0
    ensures Cross(u, v) == 0
  {
    if r.x != 0 {
      assert r.x * Cross(u, v) == u.x * (r.x * v.y) - (r.x * u.y) * v.x;
      assert r.x * Cross(u, v) == u.x * (r.y * v.x) - (r.y * u.x) * v.x;
      CancelEq(if r.x > 0 then r.x else -r.x, if r.x > 0 then Cross(u, v) else -Cross(u, v), 0);
    } else {
      assert r.y * u.x == 0 && r.y * v.x == 0;
      CancelEq(if r.y > 0 then r.y else -r.y, if r.y > 0 then u.x else -u.x, 0);
      CancelEq(if r.y > 0 then r.y else -r.y, if r.y > 0 then v.x else -v.x, 0);
    }
  }

  /** Cramer's rule in two dimensions: cross(r, s) * w == cross(w, s) * r + cross(r, w) * s. */
  lemma CramerIdentity(r: IntVector2, s: IntVector2, w: IntVector2)
    ensures MulLeft(Cross(r, s), w) == Add(MulLeft(Cross(w, s), r), MulLeft(Cross(r, w), s))
  {
    assert (r.x * s.y - r.y * s.x) * w.x == (w.x * s.y - w.y * s.x) * r.x + (r.x * w.y - r.y * w.x) * s.x;
    assert (r.x * s.y - r.y * s.x) * w.y == (w.x * s.y - w.y * s.x) * r.y + (r.x * w.y - r.y * w.x) * s.y;
  }

  /** The four orientations of Intersects, written with r = b - a, s = d - c and w = c - a. */
  lemma OrientationForms(a: IntVector2, b: IntVector2, c: IntVector2, d: IntVector2)
    ensures Clockness(a, b, c) == Sign(Cross(Sub(b, a), Sub(c, a)))
    ensures Clockness(a, b, d) == Sign(Cross(Sub(b, a), Sub(c, a)) + Cross(Sub(b, a), Sub(d, c)))
    ensures Clockness(c, d, a) == Sign(Cross(Sub(c, a), Sub(d, c)))
    ensures Clockness(c, d, b) == Sign(Cross(Sub(c, a), Sub(d, c)) - Cross(Sub(b, a), Sub(d, c)))
  {
    var r, s, w := Sub(b, a), Sub(d, c), Sub(c, a);
    assert Cross(r, Sub(d, a)) == Cross(r, w) + Cross(r, s);
    assert Cross(s, Sub(a, c)) == Cross(w, s);
    assert Cross(s, Sub(b, c)) == Cross(w, s) - Cross(r, s);
  }

  /** The witness equation of SegmentsMeet, as one vector equation on r, s and w. */
  lemma AlongEquation(w: int, s: int, t: int, a: IntVector2, b: IntVector2, c: IntVector2, d: IntVector2)
    ensures Along(w, s, a, b) == Along(w, t, c, d)
        <==> MulLeft(w, Sub(c, a)) == Sub(MulLeft(s, Sub(b, a)), MulLeft(t, Sub(d, c)))
  {
    assert w * (c.x - a.x) == w * c.x - w * a.x;
    assert w * (c.y - a.y) == w * c.y - w * a.y;
  }

  // ---------------------------------------------------------------------------
  // Contains

  /** For a proper segment, Contains is exactly membership of the closed segment. */
  lemma ContainsIffOnSegment(p1: IntVector2, p2: IntVector2, q: IntVector2)
    requires p1 != p2
    ensures Contains(p1, p2, q) <==> OnSegment(p1, p2, q)
  {
    if Contains(p1, p2, q) { ContainsToOnSegment(p1, p2, q); }
    if OnSegment(p1, p2, q) { OnSegmentToContains(p1, p2, q); }
  }

  /** Contains, restated on d = p2 - p1 and v = q - p1. */
  lemma ContainsFacts(p1: IntVector2, p2: IntVector2, q: IntVector2)
    ensures Contains(p1, p2, q)
        <==> Cross(Sub(p2, p1), Sub(q, p1)) == 0 && 0 <= Dot(Sub(p2, p1), Sub(q, p1)) <= SquaredNorm2(Sub(p2, p1))
  {
  }

  lemma Distrib(k: int, a: int, b: int)
    ensures k * a + k * (b - a) == k * b
  {
  }

  /** If s*(q - p) == w*(z - p) then Along(w, s, p, q) is w*z. */
  lemma AlongReaches(w: int, s: int, p: IntVector2, q: IntVector2, z: IntVector2)
    requires MulLeft(s, Sub(q, p)) == MulLeft(w, Sub(z, p))
    ensures Along(w, s, p, q) == MulLeft(w, z)
  {
    Distrib(w, p.x, z.x);
    Distrib(w, p.y, z.y);
  }

  lemma ProperLength(p: IntVector2, q: IntVector2)
    requires p != q
    ensures SquaredNorm2(Sub(q, p)) > 0
  {
    assert q.x != p.x || q.y != p.y;
    assert Sub(q, p) != Zero;
  }

  lemma ContainsToOnSegment(p1: IntVector2, p2: IntVector2, q: IntVector2)
    requires p1 != p2 && Contains(p1, p2, q)
    ensures OnSegment(p1, p2, q)
  {
    var d, v := Sub(p2, p1), Sub(q, p1);
    ContainsFacts(p1, p2, q);
    var len := SquaredNorm2(d);
    var s := Dot(d, v);
    ProperLength(p1, p2);
    assert 0 < len && 0 <= s <= len;
    CollinearScale(d, v);
    assert MulLeft(s, d) == MulLeft(len, v);
    AlongReaches(len, s, p1, p2, q);
    assert Along(len, s, p1, p2) == MulLeft(len, q);
  }

  /** The converse of AlongReaches. */
  lemma AlongReachedBy(w: int, s: int, p: IntVector2, q: IntVector2, z: IntVector2)
    requires Along(w, s, p, q) == MulLeft(w, z)
    ensures MulLeft(s, Sub(q, p)) == MulLeft(w, Sub(z, p))
  {
    Distrib(w, p.x, z.x);
    Distrib(w, p.y, z.y);
  }

  /** w * v == s * d with 0 <= s <= w puts v on d's line, with projection between 0 and |d|^2. */
  lemma ScaledParallel(w: int, s: int, dx: int, dy: int, vx: int, vy: int)
    requires 0 < w && 0 <= s <= w && w * vx == s * dx && w * vy == s * dy
    ensures dx * vy - dy * vx == 0
    ensures 0 <= dx * vx + dy * vy <= dx * dx + dy * dy
  {
    assert w * (dx * vy - dy * vx) == dx * (w * vy) - dy * (w * vx);
    assert w * (dx * vy - dy * vx) == dx * (s * dy) - dy * (s * dx) == w * 0;
    CancelEq(w, dx * vy - dy * vx, 0);
    var n := dx * dx + dy * dy;
    assert w * (dx * vx + dy * vy) == dx * (w * vx) + dy * (w * vy);
    assert w * (dx * vx + dy * vy) == s * n;
    assert n >= 0;
    MulMonotone(n, 0, s);
    MulMonotone(n, s, w);
    CancelLe(w, 0, dx * vx + dy * vy);
    CancelLe(w, dx * vx + dy * vy, n);
  }

  lemma OnSegmentToContains(p1: IntVector2, p2: IntVector2, q: IntVector2)
    requires p1 != p2 && OnSegment(p1, p2, q)
    ensures Contains(p1, p2, q)
  {
    var w, s :| 0 < w && 0 <= s <= w && Along(w, s, p1, p2) == MulLeft(w, q);
    var d, v := Sub(p2, p1), Sub(q, p1);
    AlongReachedBy(w, s, p1, p2, q);
    ScaledParallel(w, s, d.x, d.y, v.x, v.y);
    ContainsFacts(p1, p2, q);
  }

  /** Both endpoints are on the segment. */
  lemma ContainsEndpoints(p1: IntVector2, p2: IntVector2)
    ensures Contains(p1, p2, p1) && Contains(p1, p2, p2)
  {
    assert Cross(Sub(p2, p1), Sub(p1, p1)) == 0 && Dot(Sub(p2, p1), Sub(p1, p1)) == 0;
    assert Cross(Sub(p2, p1), Sub(p2, p1)) == 0;
  }

  /**
   * On a zero-length segment every point passes, since the orientation, the dot product and
   * the squared length are all zero (the debug build refuses to build such a segment).
   */
  lemma ContainsOnDegenerateSegment(p: IntVector2, q: IntVector2)
    ensures Contains(p, p, q)
  {
  }

  // ---------------------------------------------------------------------------
  // Intersects

  /** Intersects is symmetric in its two segments. */
  lemma IntersectsSymmetric(a: IntVector2, b: IntVector2, c: IntVector2, d: IntVector2)
    ensures Intersects(a, b, c, d) == Intersects(c, d, a, b)
  {
  }

  /** An endpoint of either segment on the other segment is an intersection. */
  lemma EndpointOnOtherIntersects(a: IntVector2, b: IntVector2, c: IntVector2, d: IntVector2)
    ensures Contains(a, b, c) || Contains(a, b, d) || Contains(c, d, a) || Contains(c, d, b)
        ==> Intersects(a, b, c, d)
  {
  }

  /** Segments sharing an endpoint intersect. */
  lemma SharedEndpointIntersects(a: IntVector2, b: IntVector2, c: IntVector2, d: IntVector2)
    requires a == c || a == d || b == c || b == d
    ensures Intersects(a, b, c, d)
  {
    assert Cross(Sub(b, a), Sub(b, a)) == 0;
    assert Cross(Sub(d, c), Sub(d, c)) == 0;
  }

  /**
   * The main property: for two proper segments, Intersects holds exactly when the two
   * closed segments have a point in common, collinear and touching cases included.
   */
  lemma IntersectsIffSegmentsMeet(a: IntVector2, b: IntVector2, c: IntVector2, d: IntVector2)
    requires a != b && c != d
    ensures Intersects(a, b, c, d) <==> SegmentsMeet(a, b, c, d)
  {
    if Intersects(a, b, c, d) { IntersectsImpliesMeet(a, b, c, d); }
    if SegmentsMeet(a, b, c, d) { MeetImpliesIntersects(a, b, c, d); }
  }

  lemma IntersectsImpliesMeet(a: IntVector2, b: IntVector2, c: IntVector2, d: IntVector2)
    requires a != b && c != d && Intersects(a, b, c, d)
    ensures SegmentsMeet(a, b, c, d)
  {
    if Clockness(a, b, c) != Clockness(a, b, d) && Clockness(c, d, a) != Clockness(c, d, b) {
      CrossingMeets(a, b, c, d);
    } else {
      EndpointMeets(a, b, c, d);
    }
  }

  /** Where the orientations differ, the lines cross at parameter sn/den on ab and -x/den on cd. */
  lemma CrossingMeets(a: IntVector2, b: IntVector2, c: IntVector2, d: IntVector2)
    requires Clockness(a, b, c) != Clockness(a, b, d) && Clockness(c, d, a) != Clockness(c, d, b)
    ensures SegmentsMeet(a, b, c, d)
  {
    var r, s, w := Sub(b, a), Sub(d, c), Sub(c, a);
    var x, den, sn := Cross(r, w), Cross(r, s), Cross(w, s);
    OrientationForms(a, b, c, d);
    assert den != 0;
    CramerIdentity(r, s, w);
    var W, S, T := if den > 0 then den else -den, if den > 0 then sn else -sn, if den > 0 then -x else x;
    assert 0 <= S <= W && 0 <= T <= W;
    assert MulLeft(W, w) == Sub(MulLeft(S, r), MulLeft(T, s));
    AlongEquation(W, S, T, a, b, c, d);
    assert Along(W, S, a, b) == Along(W, T, c, d);
  }

  /** An endpoint of one proper segment on the other is a common point. */
  lemma EndpointMeets(a: IntVector2, b: IntVector2, c: IntVector2, d: IntVector2)
    requires a != b && c != d
    requires Contains(a, b, c) || Contains(a, b, d) || Contains(c, d, a) || Contains(c, d, b)
    ensures SegmentsMeet(a, b, c, d)
  {
    if Contains(a, b, c) {
      ContainsToOnSegment(a, b, c);
      var W, S :| 0 < W && 0 <= S <= W && Along(W, S, a, b) == MulLeft(W, c);
      AlongReaches(W, 0, c, d, c);
      assert Along(W, S, a, b) == Along(W, 0, c, d);
    } else if Contains(a, b, d) {
      ContainsToOnSegment(a, b, d);
      var W, S :| 0 < W && 0 <= S <= W && Along(W, S, a, b) == MulLeft(W, d);
      AlongReaches(W, W, c, d, d);
      assert Along(W, S, a, b) == Along(W, W, c, d);
    } else if Contains(c, d, a) {
      ContainsToOnSegment(c, d, a);
      var W, T :| 0 < W && 0 <= T <= W && Along(W, T, c, d) == MulLeft(W, a);
      AlongReaches(W, 0, a, b, a);
      assert Along(W, 0, a, b) == Along(W, T, c, d);
    } else {
      ContainsToOnSegment(c, d, b);
      var W, T :| 0 < W && 0 <= T <= W && Along(W, T, c, d) == MulLeft(W, b);
      AlongReaches(W, W, a, b, b);
      assert Along(W, W, a, b) == Along(W, T, c, d);
    }
  }

  lemma MeetImpliesIntersects(a: IntVector2, b: IntVector2, c: IntVector2, d: IntVector2)
    requires a != b && c != d && SegmentsMeet(a, b, c, d)
    ensures Intersects(a, b, c, d)
  {
    var W, S, T :| 0 < W && 0 <= S <= W && 0 <= T <= W && Along(W, S, a, b) == Along(W, T, c, d);
    var r, s, w := Sub(b, a), Sub(d, c), Sub(c, a);
    var x, den, sn := Cross(r, w), Cross(r, s), Cross(w, s);
    AlongEquation(W, S, T, a, b, c, d);
    MeetScalars(W, S, T, r, s, w);
    if T == 0 {
      AlongReaches(W, 0, c, d, c);
      OnSegmentToContains(a, b, c);
    } else if T == W {
      AlongReaches(W, W, c, d, d);
      OnSegmentToContains(a, b, d);
    } else if S == 0 {
      AlongReaches(W, 0, a, b, a);
      OnSegmentToContains(c, d, a);
    } else if S == W {
      AlongReaches(W, W, a, b, b);
      OnSegmentToContains(c, d, b);
    } else if den != 0 {
      ProperCrossing(W, S, T, x, den, sn);
      IntersectsFromOrientations(a, b, c, d);
    } else {
      CancelEq(W, x, 0);
      CollinearOverlap(a, b, c, d, W, S, T);
    }
    EndpointOnOtherIntersects(a, b, c, d);
  }

  /** Crossing the witness equation with r and with s. */
  lemma MeetScalars(W: int, S: int, T: int, r: IntVector2, s: IntVector2, w: IntVector2)
    requires MulLeft(W, w) == Sub(MulLeft(S, r), MulLeft(T, s))
    ensures W * Cross(r, w) == -(T * Cross(r, s))
    ensures W * Cross(w, s) == S * Cross(r, s)
  {
    CrossLinearRight(r, W, w, 0, w);
    CrossLinearRight(r, S, r, T, s);
    assert Sub(MulLeft(W, w), MulLeft(0, w)) == MulLeft(W, w);
    assert Cross(r, r) == 0;
    CrossLinearRight(s, W, w, 0, w);
    CrossLinearRight(s, S, r, T, s);
    assert Cross(s, s) == 0 && Cross(s, w) == -Cross(w, s) && Cross(s, r) == -Cross(r, s);
    assert W * (-Cross(w, s)) == S * (-Cross(r, s));
  }

  /** Parameters strictly inside both segments and non-parallel lines: a proper crossing. */
  lemma ProperCrossing(W: int, S: int, T: int, x: int, den: int, sn: int)
    requires 0 < S < W && 0 < T < W && den != 0
    requires W * x == -(T * den) && W * sn == S * den
    ensures Sign(x) != Sign(x + den) && Sign(sn) != Sign(sn - den)
  {
    SignScaled(W, -x, T, den);
    assert W * (x + den) == (W - T) * den;
    SignScaled(W, x + den, W - T, den);
    SignScaled(W, sn, S, den);
    assert W * (-(sn - den)) == (W - S) * den;
    SignScaled(W, -(sn - den), W - S, den);
  }

  lemma IntersectsFromOrientations(a: IntVector2, b: IntVector2, c: IntVector2, d: IntVector2)
    requires Sign(Cross(Sub(b, a), Sub(c, a))) != Sign(Cross(Sub(b, a), Sub(c, a)) + Cross(Sub(b, a), Sub(d, c)))
    requires Sign(Cross(Sub(c, a), Sub(d, c))) != Sign(Cross(Sub(c, a), Sub(d, c)) - Cross(Sub(b, a), Sub(d, c)))
    ensures Intersects(a, b, c, d)
  {
    OrientationForms(a, b, c, d);
  }

  /** Collinear case of MeetImpliesIntersects: one endpoint lies within the other segment. */
  lemma CollinearOverlap(a: IntVector2, b: IntVector2, c: IntVector2, d: IntVector2, W: int, S: int, T: int)
    requires a != b && c != d
    requires Cross(Sub(b, a), Sub(c, a)) == 0 && Cross(Sub(b, a), Sub(d, c)) == 0
    requires 0 < W && 0 <= S <= W && 0 <= T <= W
    requires MulLeft(W, Sub(c, a)) == Sub(MulLeft(S, Sub(b, a)), MulLeft(T, Sub(d, c)))
    ensures Contains(a, b, c) || Contains(a, b, d) || Contains(c, d, a)
  {
    var r, s, w := Sub(b, a), Sub(d, c), Sub(c, a);
    var len := SquaredNorm2(r);
    ProperLength(a, b);
    var fc, g := Dot(r, w), Dot(r, s);
    ThroughD(a, c, d, r);
    ContainsFacts(a, b, c);
    ContainsFacts(a, b, d);
    CollinearProjection(W, S, T, r, s, w);
    IntervalsOverlap(W, S, T, fc, fc + g, len);
    if !(0 <= fc <= len) && !(0 <= fc + g <= len) {
      // a lies strictly between c and d
      CollinearScale(r, w);
      CollinearScale(r, s);
      CollinearRatio(len, g, fc, r.x, r.y, w.x, w.y, s.x, s.y);
      var u := Sub(a, c);
      ScaleFlip(g, fc, w.x, s.x, u.x);
      ScaleFlip(g, fc, w.y, s.y, u.y);
      if fc < 0 {
        assert MulLeft(-fc, Sub(d, c)) == MulLeft(g, Sub(a, c));
        AlongReaches(g, -fc, c, d, a);
      } else {
        assert MulLeft(fc, Sub(d, c)) == MulLeft(-g, Sub(a, c));
        AlongReaches(-g, fc, c, d, a);
      }
      OnSegmentToContains(c, d, a);
    }
  }

  lemma ScaleFlip(g: int, fc: int, wx: int, sx: int, ux: int)
    requires g * wx == fc * sx && ux == -wx
    ensures (-fc) * sx == g * ux && fc * sx == (-g) * ux
  {
  }

  /** d - a is (c - a) + (d - c), seen through r. */
  lemma ThroughD(a: IntVector2, c: IntVector2, d: IntVector2, r: IntVector2)
    ensures Dot(r, Sub(d, a)) == Dot(r, Sub(c, a)) + Dot(r, Sub(d, c))
    ensures Cross(r, Sub(d, a)) == Cross(r, Sub(c, a)) + Cross(r, Sub(d, c))
  {
  }

  /** Projecting the witness equation onto r. */
  lemma CollinearProjection(W: int, S: int, T: int, r: IntVector2, s: IntVector2, w: IntVector2)
    requires MulLeft(W, w) == Sub(MulLeft(S, r), MulLeft(T, s))
    ensures (W - T) * Dot(r, w) + T * (Dot(r, w) + Dot(r, s)) == S * SquaredNorm2(r)
  {
    DotLinearRight(r, W, w, 0, w);
    DotLinearRight(r, S, r, T, s);
    assert Sub(MulLeft(W, w), MulLeft(0, w)) == MulLeft(W, w);
    assert W * Dot(r, w) == S * Dot(r, r) - T * Dot(r, s);
  }

  /** On the line, a common point of [0, len] and [fc, fd] puts an endpoint inside the other interval. */
  lemma IntervalsOverlap(W: int, S: int, T: int, fc: int, fd: int, len: int)
    requires 0 < W && 0 <= S <= W && 0 <= T <= W && 0 < len
    requires (W - T) * fc + T * fd == S * len
    ensures (0 <= fc <= len) || (0 <= fd <= len) || (fc < 0 && fd > len) || (fc > len && fd < 0)
  {
    MulMonotone(len, 0, S);
    MulMonotone(len, S, W);
    if fc < 0 && fd < 0 {
      MulMonotone(W - T, fc, 0);
      MulMonotone(T, fd, 0);
      if T > 0 { MulPos(T, -fd); } else { MulPos(W, -fc); }
    } else if fc > len && fd > len {
      MulMonotone(W - T, len, fc);
      MulMonotone(T, len, fd);
      if T > 0 { MulPos(T, fd - len); } else { MulPos(W, fc - len); }
    }
  }

  /** len*w == fc*r and len*s == g*r give g*w == fc*s. */
  lemma CollinearRatio(len: int, g: int, fc: int, rx: int, ry: int, wx: int, wy: int, sx: int, sy: int)
    requires 0 < len
    requires len * wx == fc * rx && len * wy == fc * ry && len * sx == g * rx && len * sy == g * ry
    ensures g * wx == fc * sx && g * wy == fc * sy
  {
    assert len * (g * wx) == g * (len * wx) == g * (fc * rx) == fc * (g * rx) == fc * (len * sx) == len * (fc * sx);
    assert len * (g * wy) == g * (len * wy) == g * (fc * ry) == fc * (g * ry) == fc * (len * sy) == len * (fc * sy);
    CancelEq(len, g * wx, fc * sx);
    CancelEq(len, g * wy, fc * sy);
  }

  /** Running along a segment from the other end. */
  lemma AlongReversed(W: int, S: int, a: IntVector2, b: IntVector2)
    ensures Along(W, W - S, b, a) == Along(W, S, a, b)
  {
    assert W * b.x + (W - S) * (a.x - b.x) == W * a.x + S * (b.x - a.x);
    assert W * b.y + (W - S) * (a.y - b.y) == W * a.y + S * (b.y - a.y);
  }

  lemma MeetReversed(a: IntVector2, b: IntVector2, c: IntVector2, d: IntVector2)
    requires SegmentsMeet(a, b, c, d)
    ensures SegmentsMeet(b, a, c, d)
  {
    var W, S, T :| 0 < W && 0 <= S <= W && 0 <= T <= W && Along(W, S, a, b) == Along(W, T, c, d);
    AlongReversed(W, S, a, b);
    assert 0 <= W - S <= W && Along(W, W - S, b, a) == Along(W, T, c, d);
  }

  /** Intersection of proper segments does not depend on the direction of a segment. */
  lemma IntersectsReversal(a: IntVector2, b: IntVector2, c: IntVector2, d: IntVector2)
    requires a != b && c != d
    ensures Intersects(a, b, c, d) == Intersects(b, a, c, d)
  {
    IntersectsIffSegmentsMeet(a, b, c, d);
    IntersectsIffSegmentsMeet(b, a, c, d);
    if SegmentsMeet(a, b, c, d) { MeetReversed(a, b, c, d); }
    if SegmentsMeet(b, a, c, d) { MeetReversed(b, a, c, d); }
  }
}
