/**
 * The exact-integer 2D vector of the geometry kernel (OpenMOBA/Geometry/IntVector2.cs).
 * Components are unbounded integers. DotFitsInt32 and LossyProjectOntoFitsInt32 give
 * ranges in which C#'s 32-bit arithmetic does not wrap, so that the two coincide.
 */
module IntVectors {
  import opened CSharpInt

  datatype IntVector2 = IntVector2(x: int, y: int)

  /** `IntVector2.Zero` */
  const Zero: IntVector2 := IntVector2(0, 0)

  /** `a.Dot(b)` */
  function Dot(a: IntVector2, b: IntVector2): int
  {
    a.x * b.x + a.y * b.y
  }

  /** `v.SquaredNorm2()`: never negative, and zero exactly for the zero vector. */
  function SquaredNorm2(v: IntVector2): (r: int)
    ensures r >= 0
    ensures r == 0 <==> v == Zero
  {
    assert v.x * v.x >= 0 && v.y * v.y >= 0;
    assert v.x != 0 ==> v.x * v.x > 0;
    assert v.y != 0 ==> v.y * v.y > 0;
    Dot(v, v)
  }

  /** `a + b` */
  function Add(a: IntVector2, b: IntVector2): IntVector2
  {
    IntVector2(a.x + b.x, a.y + b.y)
  }

  /** `a - b`. */
  function Sub(a: IntVector2, b: IntVector2): IntVector2
  {
    IntVector2(a.x - b.x, a.y - b.y)
  }

  /** `p.To(q)`, the vector from p to q (the extension method itself is not part of this model). */
  function To(p: IntVector2, q: IntVector2): IntVector2
  {
    Sub(q, p)
  }

  /** `a * b` with the integer on the left. */
  function MulLeft(a: int, b: IntVector2): IntVector2
  {
    IntVector2(a * b.x, a * b.y)
  }

  /** `a * b` with the integer on the right: the same vector as with it on the left. */
  function MulRight(a: IntVector2, b: int): (r: IntVector2)
    ensures r == MulLeft(b, a)
  {
    IntVector2(b * a.x, b * a.y)
  }

  /** `a == b`: componentwise, hence exactly value equality. */
  function Eq(a: IntVector2, b: IntVector2): (r: bool)
    ensures r <==> a == b
  {
    a.x == b.x && a.y == b.y
  }

  /** `a != b`: the negation of `==`. */
  function NotEq(a: IntVector2, b: IntVector2): (r: bool)
    ensures r <==> !Eq(a, b)
  {
    a.x != b.x || a.y != b.y
  }

  /** `a.Equals(b)` for an `IntVector2` argument: agrees with `==`. */
  function Equals(a: IntVector2, other: IntVector2): (r: bool)
    ensures r == Eq(a, other)
  {
    a.x == other.x && a.y == other.y
  }

  /**
   * `v.LossyProjectOnto(other)`: each component is other.c * Dot(other, v) / |other|^2
   * with C#'s truncating division, so it undershoots the exact projection by less than one.
   * A zero `other` divides by zero, which throws in C#.
   */
  function LossyProjectOnto(v: IntVector2, other: IntVector2): (r: IntVector2)
    requires other != Zero
    ensures Abs(r.x * SquaredNorm2(other)) <= Abs(other.x * Dot(other, v))
    ensures Abs(other.x * Dot(other, v) - r.x * SquaredNorm2(other)) < SquaredNorm2(other)
    ensures Abs(r.y * SquaredNorm2(other)) <= Abs(other.y * Dot(other, v))
    ensures Abs(other.y * Dot(other, v) - r.y * SquaredNorm2(other)) < SquaredNorm2(other)
  {
    var numerator := Dot(other, v);
    var denominator := SquaredNorm2(other);
    IntVector2(TruncDiv(other.x * numerator, denominator), TruncDiv(other.y * numerator, denominator))
  }

  lemma DotCommutative(a: IntVector2, b: IntVector2)
    ensures Dot(a, b) == Dot(b, a)
  {
  }

  lemma SquaredNorm2IsSelfDot(v: IntVector2)
    ensures SquaredNorm2(v) == Dot(v, v) >= 0
  {
  }

  /** Subtraction and addition undo each other; `p.To(q)` leads from p to q. */
  lemma AddSubCancel(a: IntVector2, b: IntVector2)
    ensures Sub(Add(a, b), b) == a && Add(Sub(a, b), b) == a
    ensures Add(b, To(b, a)) == a
    ensures Add(a, Zero) == a && Add(Zero, a) == a && Sub(a, Zero) == a
  {
  }

  lemma MulCommutes(k: int, v: IntVector2)
    ensures MulLeft(k, v) == MulRight(v, k)
    ensures MulLeft(k, v) == IntVector2(k * v.x, k * v.y)
  {
  }

  /** A non-zero vector projects onto itself exactly. */
  lemma LossyProjectOntoSelf(v: IntVector2)
    requires v != Zero
    ensures LossyProjectOnto(v, v) == v
  {
    var n := SquaredNorm2(v);
    TruncDivExact(v.x, n);
    TruncDivExact(v.y, n);
    assert v.x * Dot(v, v) == v.x * n;
  }

  /** A multiple of `other` projects onto `other` exactly: nothing is lost on the line itself. */
  lemma LossyProjectOntoMultiple(k: int, other: IntVector2)
    requires other != Zero
    ensures LossyProjectOnto(MulLeft(k, other), other) == MulLeft(k, other)
  {
    var n := SquaredNorm2(other);
    var v := MulLeft(k, other);
    assert Dot(other, v) == k * n;
    assert other.x * Dot(other, v) == (k * other.x) * n;
    assert other.y * Dot(other, v) == (k * other.y) * n;
    TruncDivExact(k * other.x, n);
    TruncDivExact(k * other.y, n);
  }

  /** A vector orthogonal to `other` projects onto the zero vector. */
  lemma LossyProjectOntoOrthogonal(v: IntVector2, other: IntVector2)
    requires other != Zero && Dot(other, v) == 0
    ensures LossyProjectOnto(v, other) == Zero
  {
    TruncDivExact(0, SquaredNorm2(other));
  }

  /**
   * With every component of magnitude below 2^15, each product of `Dot` and the sum
   * fit in C#'s `int`, so `Dot` and `SquaredNorm2` compute what the 32-bit source computes.
   */
  lemma DotFitsInt32(a: IntVector2, b: IntVector2)
    requires Abs(a.x) < 0x8000 && Abs(a.y) < 0x8000 && Abs(b.x) < 0x8000 && Abs(b.y) < 0x8000
    ensures InInt32(a.x * b.x) && InInt32(a.y * b.y) && InInt32(Dot(a, b))
  {
    MulBelow(a.x, b.x);
    MulBelow(a.y, b.y);
  }

  /**
   * `LossyProjectOnto` multiplies a component by a dot product, a cubic term. With every
   * component of magnitude below 2^10, the dot product, the squared norm, both products
   * `other.c * numerator` and both quotients fit in C#'s `int`.
   */
  lemma LossyProjectOntoFitsInt32(v: IntVector2, other: IntVector2)
    requires other != Zero
    requires Abs(v.x) < 0x400 && Abs(v.y) < 0x400 && Abs(other.x) < 0x400 && Abs(other.y) < 0x400
    ensures InInt32(Dot(other, v)) && InInt32(SquaredNorm2(other))
    ensures InInt32(other.x * Dot(other, v)) && InInt32(other.y * Dot(other, v))
    ensures InInt32(LossyProjectOnto(v, other).x) && InInt32(LossyProjectOnto(v, other).y)
  {
    var n := Dot(other, v);
    MulAtMost(other.x, v.x, 1023, 1023);
    MulAtMost(other.y, v.y, 1023, 1023);
    MulAtMost(other.x, other.x, 1023, 1023);
    MulAtMost(other.y, other.y, 1023, 1023);
    assert Abs(n) <= 2093058;
    MulAtMost(other.x, n, 1023, 2093058);
    MulAtMost(other.y, n, 1023, 2093058);
    var r := LossyProjectOnto(v, other);
    QuotientBelow(r.x, SquaredNorm2(other));
    QuotientBelow(r.y, SquaredNorm2(other));
  }

  /**
   * The 2^10 bound is close to the limit: from a component of 1291 on, projecting a vector
   * along the x axis onto itself makes `other.X * numerator` leave C#'s `int` (it wraps).
   */
  lemma LossyProjectOntoSelfOverflows(other: IntVector2)
    requires other.x >= 1291 && other.y == 0
    ensures !InInt32(other.x * Dot(other, other))
  {
    MulLeNat(1291, other.x, other.x);
    MulLeNat(1291, other.x, 1291);
    assert other.x * other.x >= 1291 * 1291;
    MulLeNat(1291, other.x, other.x * other.x);
    MulLeNat(1291 * 1291, other.x * other.x, 1291);
    assert other.x * (other.x * other.x) >= 1291 * (1291 * 1291);
  }

  lemma MulAtMost(u: int, v: int, bu: nat, bv: nat)
    requires Abs(u) <= bu && Abs(v) <= bv
    ensures Abs(u * v) <= bu * bv
  {
    AbsMul(u, v);
    MulLeNat(Abs(u), bu, Abs(v));
    MulLeNat(Abs(v), bv, bu);
  }

  lemma QuotientBelow(q: int, d: int)
    requires d >= 1
    ensures Abs(q) <= Abs(q * d)
  {
    AbsMul(q, d);
    MulLeNat(1, d, Abs(q));
  }

  lemma MulBelow(u: int, v: int)
    requires Abs(u) < 0x8000 && Abs(v) < 0x8000
    ensures Abs(u * v) < 0x4000_0000
  {
    AbsMul(u, v);
    MulLeNat(Abs(u), 0x7fff, Abs(v));
    MulLeNat(Abs(v), 0x7fff, 0x7fff);
  }

  lemma AbsMul(u: int, v: int)
    ensures Abs(u * v) == Abs(u) * Abs(v)
  {
    if u < 0 && v < 0 {
      assert u * v == (-u) * (-v);
    } else if u < 0 {
      assert u * v == -((-u) * v);
    } else if v < 0 {
      assert u * v == -(u * (-v));
    }
  }

  lemma MulLeNat(a: nat, c: nat, b: nat)
    requires a <= c
    ensures a * b <= c * b
  {
    assert c * b - a * b == (c - a) * b;
  }
}
