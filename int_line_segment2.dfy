/**
 * Exact-integer segment predicates of the geometry kernel
 * (OpenMOBA/Geometry/IntLineSegment2.cs): containment, intersection, bounding box,
 * equality and midpoint of `IntLineSegment2`, and `IntLineSegment3.IntersectsXY`.
 *
 * `GeometryOperations.Clockness` is not part of this model. It is taken to be the sign
 * of the cross product (b - a) x (q - a), with 0 meaning `Clockness.Neither`; only whether
 * two orientations are equal and whether one is zero matters to the code, so either sign
 * convention gives the same results.
 */
module Segments {
  import opened CSharpInt
  import opened Wrappers
  import opened IntVectors

  datatype IntLineSegment2 = IntLineSegment2(first: IntVector2, second: IntVector2)

  /** `InvalidStateException`, thrown by the debug build for a zero-length segment. */
  datatype GeometryError = InvalidState

  /** `System.Drawing.Rectangle(x, y, width, height)` */
  datatype Rectangle = Rectangle(x: int, y: int, width: int, height: int)

  /**
   * `new IntLineSegment2(first, second)` (and `Create`) in the debug build:
   * a segment with equal endpoints is refused.
   */
  function NewSegment(first: IntVector2, second: IntVector2): (r: Result<IntLineSegment2, GeometryError>)
    ensures r.Success? <==> first != second
    ensures r.Success? ==> r.value.first == first && r.value.second == second
  {
    if Eq(first, second) then Failure(InvalidState) else Success(IntLineSegment2(first, second))
  }

  /** `new IntLineSegment2(ax, ay, bx, by)` in the debug build. */
  function NewSegmentXY(aX: int, aY: int, bX: int, bY: int): (r: Result<IntLineSegment2, GeometryError>)
    ensures r == NewSegment(IntVector2(aX, aY), IntVector2(bX, bY))
  {
    if aX == bX && aY == bY then Failure(InvalidState)
    else Success(IntLineSegment2(IntVector2(aX, aY), IntVector2(bX, bY)))
  }

  // ---------------------------------------------------------------------------
  // Orientation

  function Cross(u: IntVector2, v: IntVector2): int
  {
    u.x * v.y - u.y * v.x
  }

  function Sign(n: int): int
  {
    if n < 0 then -1 else if n > 0 then 1 else 0
  }

  /** `GeometryOperations.Clockness(u, v)` for two vectors (assumed, see the module comment). */
  function ClocknessV(u: IntVector2, v: IntVector2): int
  {
    Sign(Cross(u, v))
  }

  /** `GeometryOperations.Clockness(ax, ay, bx, by, qx, qy)`: which side of a->b the point q is on. */
  function Clockness(a: IntVector2, b: IntVector2, q: IntVector2): int
  {
    ClocknessV(To(a, b), To(a, q))
  }

  // ---------------------------------------------------------------------------
  // The operations

  /** Static `Contains(p1, p2, q)`: q is on the line p1p2 and its projection is between p1 and p2. */
  predicate Contains(p1: IntVector2, p2: IntVector2, q: IntVector2)
  {
    var p1p2 := To(p1, p2);
    var p1q := To(p1, q);
    if ClocknessV(p1p2, p1q) != 0 then false
    else
      var a := Dot(p1p2, p1q);
      var b := SquaredNorm2(p1p2);
      if a < 0 then false
      else if a > b then false
      else true
  }

  /** Instance `s.Contains(q)` */
  predicate SegmentContains(s: IntLineSegment2, q: IntVector2)
  {
    Contains(s.first, s.second, q)
  }

  /**
   * Static `Intersects(ax, ay, bx, by, cx, cy, dx, dy)`, the eight coordinates grouped into
   * the points a, b, c, d. This is what the release build computes; see IntersectsDebug.
   */
  predicate Intersects(a: IntVector2, b: IntVector2, c: IntVector2, d: IntVector2)
  {
    var o1 := Clockness(a, b, c);
    var o2 := Clockness(a, b, d);
    var o3 := Clockness(c, d, a);
    var o4 := Clockness(c, d, b);
    if o1 != o2 && o3 != o4 then true
    else if o1 == 0 && Contains(a, b, c) then true
    else if o2 == 0 && Contains(a, b, d) then true
    else if o3 == 0 && Contains(c, d, a) then true
    else if o4 == 0 && Contains(c, d, b) then true
    else false
  }

  /** Instance `s.Intersects(other)` */
  predicate SegmentIntersects(s: IntLineSegment2, other: IntLineSegment2)
  {
    Intersects(s.first, s.second, other.first, other.second)
  }

  /**
   * Static `Intersects` in the debug build, in the source's evaluation order: each of the
   * four endpoint tests that is reached constructs a segment, and constructing a zero-length
   * one throws. A zero-length first segment makes o1 and o2 both zero, so the crossing test
   * fails and the first endpoint test constructs it: that always throws. A zero-length second
   * segment is constructed, and throws, exactly when c is not on the first segment. Two
   * proper segments never throw, and whenever it answers, it answers what the release build
   * answers.
   */
  function IntersectsDebug(a: IntVector2, b: IntVector2, c: IntVector2, d: IntVector2): (r: Result<bool, GeometryError>)
    ensures r.Success? ==> r.value == Intersects(a, b, c, d)
    ensures a != b && c != d ==> r.Success?
    ensures a == b ==> r.Failure?
    ensures a != b && c == d ==> (r.Failure? <==> !Contains(a, b, c))
  {
    var o1 := Clockness(a, b, c);
    var o2 := Clockness(a, b, d);
    var o3 := Clockness(c, d, a);
    var o4 := Clockness(c, d, b);
    if o1 != o2 && o3 != o4 then Success(true)
    else if o1 == 0 && NewSegment(a, b).Failure? then Failure(InvalidState)
    else if o1 == 0 && Contains(a, b, c) then Success(true)
    else if o2 == 0 && NewSegment(a, b).Failure? then Failure(InvalidState)
    else if o2 == 0 && Contains(a, b, d) then Success(true)
    else if o3 == 0 && NewSegment(c, d).Failure? then Failure(InvalidState)
    else if o3 == 0 && Contains(c, d, a) then Success(true)
    else if o4 == 0 && NewSegment(c, d).Failure? then Failure(InvalidState)
    else if o4 == 0 && Contains(c, d, b) then Success(true)
    else Success(false)
  }

  function Min(a: int, b: int): int { if a < b then a else b }
  function Max(a: int, b: int): int { if a < b then b else a }

  /**
   * `ToBoundingBox()`: the smallest rectangle of whole cells holding both endpoints,
   * so it is at least one cell wide and high and each endpoint is in [x, x + width).
   */
  function ToBoundingBox(s: IntLineSegment2): (r: Rectangle)
    ensures r.width >= 1 && r.height >= 1
    ensures r.x <= s.first.x < r.x + r.width && r.x <= s.second.x < r.x + r.width
    ensures r.y <= s.first.y < r.y + r.height && r.y <= s.second.y < r.y + r.height
    ensures r.x in {s.first.x, s.second.x} && r.x + r.width - 1 in {s.first.x, s.second.x}
    ensures r.y in {s.first.y, s.second.y} && r.y + r.height - 1 in {s.first.y, s.second.y}
  {
    var minX := Min(s.first.x, s.second.x);
    var minY := Min(s.first.y, s.second.y);
    var width := Abs(s.first.x - s.second.x) + 1;
    var height := Abs(s.first.y - s.second.y) + 1;
    Rectangle(minX, minY, width, height)
  }

  /** `s == other`: equality by ordered endpoints, which is value equality. */
  function SegEq(s: IntLineSegment2, other: IntLineSegment2): (r: bool)
    ensures r <==> s == other
  {
    Eq(s.first, other.first) && Eq(s.second, other.second)
  }

  /** `s != other`: exactly the negation of `==`. */
  function SegNotEq(s: IntLineSegment2, other: IntLineSegment2): (r: bool)
    ensures r <==> !SegEq(s, other)
  {
    NotEq(s.first, other.first) || NotEq(s.second, other.second)
  }

  /** `s.Equals(other)` for an `IntLineSegment2` argument: agrees with `==`. */
  function SegEquals(s: IntLineSegment2, other: IntLineSegment2): (r: bool)
    ensures r == SegEq(s, other)
  {
    Eq(s.first, other.first) && Eq(s.second, other.second)
  }

  /**
   * `ComputeMidpoint()`: halves the coordinate sums with C#'s truncating division, so the
   * result lies in the bounding box and is the exact midpoint rounded toward zero.
   */
  function ComputeMidpoint(s: IntLineSegment2): (m: IntVector2)
    ensures Min(s.first.x, s.second.x) <= m.x <= Max(s.first.x, s.second.x)
    ensures Min(s.first.y, s.second.y) <= m.y <= Max(s.first.y, s.second.y)
    ensures Abs(2 * m.x - (s.first.x + s.second.x)) <= 1 && Abs(2 * m.x) <= Abs(s.first.x + s.second.x)
    ensures Abs(2 * m.y - (s.first.y + s.second.y)) <= 1 && Abs(2 * m.y) <= Abs(s.first.y + s.second.y)
  {
    IntVector2(TruncDiv(s.first.x + s.second.x, 2), TruncDiv(s.first.y + s.second.y, 2))
  }

  /** Equality is by ordered endpoints: a proper segment differs from its reversal. */
  lemma ReversedSegmentUnequal(s: IntLineSegment2)
    requires s.first != s.second
    ensures SegNotEq(s, IntLineSegment2(s.second, s.first))
  {
  }

  /** The midpoint does not depend on the direction of the segment. */
  lemma MidpointSymmetric(s: IntLineSegment2)
    ensures ComputeMidpoint(IntLineSegment2(s.second, s.first)) == ComputeMidpoint(s)
  {
    assert s.second.x + s.first.x == s.first.x + s.second.x;
    assert s.second.y + s.first.y == s.first.y + s.second.y;
  }

  /** Halving is exact when the coordinate sums are even: the midpoint of (p, p) is p. */
  lemma MidpointOfPoint(p: IntVector2)
    ensures ComputeMidpoint(IntLineSegment2(p, p)) == p
  {
    assert p.x + p.x == p.x * 2 && p.y + p.y == p.y * 2;
    TruncDivExact(p.x, 2);
    TruncDivExact(p.y, 2);
  }

  // ---------------------------------------------------------------------------
  // Where C#'s 32-bit arithmetic agrees with this model

  /** A point whose coordinates are below 2^14 in magnitude. */
  predicate Small(p: IntVector2)
  {
    Abs(p.x) < 0x4000 && Abs(p.y) < 0x4000
  }

  /**
   * Every intermediate value of `Contains(p1, p2, q)` lies in C#'s `int`: the two differences,
   * the cross product and its two products, the dot product and the squared length.
   */
  predicate ContainsNoWrap(p1: IntVector2, p2: IntVector2, q: IntVector2)
  {
    var u, v := To(p1, p2), To(p1, q);
    InInt32(u.x) && InInt32(u.y) && InInt32(v.x) && InInt32(v.y)
    && InInt32(u.x * v.y) && InInt32(u.y * v.x) && InInt32(Cross(u, v))
    && InInt32(u.x * v.x) && InInt32(u.y * v.y) && InInt32(Dot(u, v))
    && InInt32(u.x * u.x) && InInt32(u.y * u.y) && InInt32(SquaredNorm2(u))
  }

  /** With coordinates below 2^14, `Contains` does not wrap. */
  lemma ContainsFitsInt32(p1: IntVector2, p2: IntVector2, q: IntVector2)
    requires Small(p1) && Small(p2) && Small(q)
    ensures ContainsNoWrap(p1, p2, q)
  {
    var u, v := To(p1, p2), To(p1, q);
    MulBelow(u.x, v.y);
    MulBelow(u.y, v.x);
    DotFitsInt32(u, v);
    DotFitsInt32(u, u);
  }

  /**
   * With coordinates below 2^14, neither the four orientations of `Intersects` nor its four
   * endpoint tests wrap: each orientation is the cross product of one of the tests.
   */
  lemma IntersectsFitsInt32(a: IntVector2, b: IntVector2, c: IntVector2, d: IntVector2)
    requires Small(a) && Small(b) && Small(c) && Small(d)
    ensures ContainsNoWrap(a, b, c) && ContainsNoWrap(a, b, d)
    ensures ContainsNoWrap(c, d, a) && ContainsNoWrap(c, d, b)
  {
    ContainsFitsInt32(a, b, c);
    ContainsFitsInt32(a, b, d);
    ContainsFitsInt32(c, d, a);
    ContainsFitsInt32(c, d, b);
  }

  /**
   * The 2^14 bound is close to the limit: two endpoints 46341 or more apart in x, such as
   * (-23171, 0) and (23171, 0), have a squared length outside C#'s `int`. There the source's
   * `Contains(p1, p2, p2)` wraps and answers false, whereas ContainsEndpoints holds here.
   */
  lemma ContainsLengthOverflows(p1: IntVector2, p2: IntVector2)
    requires Abs(p2.x - p1.x) >= 46341
    ensures !InInt32(SquaredNorm2(To(p1, p2)))
  {
    var u := To(p1, p2);
    AbsMul(u.x, u.x);
    MulLeNat(46341, Abs(u.x), Abs(u.x));
    MulLeNat(46341, Abs(u.x), 46341);
    assert u.y * u.y >= 0;
  }

  /** `ToBoundingBox` does not wrap for coordinates below 2^30. */
  lemma ToBoundingBoxFitsInt32(s: IntLineSegment2)
    requires Abs(s.first.x) < 0x4000_0000 && Abs(s.second.x) < 0x4000_0000
    requires Abs(s.first.y) < 0x4000_0000 && Abs(s.second.y) < 0x4000_0000
    ensures InInt32(s.first.x - s.second.x) && InInt32(s.first.y - s.second.y)
    ensures InInt32(ToBoundingBox(s).width) && InInt32(ToBoundingBox(s).height)
  {
  }

  /** `ComputeMidpoint` does not wrap for coordinates below 2^30. */
  lemma MidpointFitsInt32(s: IntLineSegment2)
    requires Abs(s.first.x) < 0x4000_0000 && Abs(s.second.x) < 0x4000_0000
    requires Abs(s.first.y) < 0x4000_0000 && Abs(s.second.y) < 0x4000_0000
    ensures InInt32(s.first.x + s.second.x) && InInt32(s.first.y + s.second.y)
  {
  }

  // ---------------------------------------------------------------------------
  // IntLineSegment3

  datatype IntVector3 = IntVector3(x: int, y: int, z: int)

  datatype IntLineSegment3 = IntLineSegment3(first: IntVector3, second: IntVector3)

  /** `IntLineSegment3.IntersectsXY(other)`: the sign test, on X and Y only. */
  predicate IntersectsXY(s: IntLineSegment3, other: IntLineSegment3)
  {
    var aX, aY, bX, bY := s.first.x, s.first.y, s.second.x, s.second.y;
    var cX, cY, dX, dY := other.first.x, other.first.y, other.second.x, other.second.y;
    var tl := Sign((aX - cX) * (bY - cY) - (aY - cY) * (bX - cX));
    var tr := Sign((aX - dX) * (bY - dY) - (aY - dY) * (bX - dX));
    var bl := Sign((cX - aX) * (dY - aY) - (cY - aY) * (dX - aX));
    var br := Sign((cX - bX) * (dY - bY) - (cY - bY) * (dX - bX));
    tl == -tr && bl == -br
  }

  function XY(p: IntVector3): IntVector2
  {
    IntVector2(p.x, p.y)
  }

  /**
   * The sign term `(p.x - r.x) * (q.y - r.y) - (p.y - r.y) * (q.x - r.x)` of `IntersectsXY`
   * and each of its differences and products lie in C#'s `int`.
   */
  predicate SignTermNoWrap(p: IntVector2, q: IntVector2, r: IntVector2)
  {
    var u, v := Sub(p, r), Sub(q, r);
    InInt32(u.x) && InInt32(u.y) && InInt32(v.x) && InInt32(v.y)
    && InInt32(u.x * v.y) && InInt32(u.y * v.x) && InInt32(u.x * v.y - u.y * v.x)
  }

  /** With X and Y below 2^14, none of the four sign terms of `IntersectsXY` wraps. */
  lemma IntersectsXYFitsInt32(s: IntLineSegment3, other: IntLineSegment3)
    requires Small(XY(s.first)) && Small(XY(s.second)) && Small(XY(other.first)) && Small(XY(other.second))
    ensures var a, b, c, d := XY(s.first), XY(s.second), XY(other.first), XY(other.second);
      SignTermNoWrap(a, b, c) && SignTermNoWrap(a, b, d) && SignTermNoWrap(c, d, a) && SignTermNoWrap(c, d, b)
  {
    var a, b, c, d := XY(s.first), XY(s.second), XY(other.first), XY(other.second);
    SignTermFits(a, b, c);
    SignTermFits(a, b, d);
    SignTermFits(c, d, a);
    SignTermFits(c, d, b);
  }

  lemma SignTermFits(p: IntVector2, q: IntVector2, r: IntVector2)
    requires Small(p) && Small(q) && Small(r)
    ensures SignTermNoWrap(p, q, r)
  {
    var u, v := Sub(p, r), Sub(q, r);
    MulBelow(u.x, v.y);
    MulBelow(u.y, v.x);
  }
}
