/** C# integer division: the quotient is truncated toward zero. */
module CSharpInt {

  function Abs(a: int): (r: nat)
    ensures r == a || r == -a
  {
    if a < 0 then -a else a
  }

  /** `a / b` on C# integers (Dafny's own `/` is Euclidean). Division by zero throws in C#. */
  function TruncDiv(a: int, b: int): (q: int)
    requires b != 0
    ensures Abs(a - q * b) < Abs(b)
    ensures a - q * b == 0 || (a - q * b > 0 <==> a > 0)
    ensures Abs(q * b) <= Abs(a)
  {
    var n, d := Abs(a), Abs(b);
    var m := n / d;
    EuclidNat(n, d);
    MulByAbs(m, b);
    MulByAbs(-m, b);
    RemainderFacts(a, n, m * d, d);
    if (a >= 0) == (b > 0) then m else -m
  }

  lemma MulByAbs(m: int, b: int)
    ensures m * b == (if b > 0 then m * Abs(b) else -(m * Abs(b)))
  {
  }

  /** With md the largest multiple of d not above |a|, signed like a: the remainder facts. */
  lemma RemainderFacts(a: int, n: int, md: int, d: int)
    requires n == Abs(a) && 0 <= md <= n < md + d
    ensures var t := if a >= 0 then md else -md;
      Abs(a - t) < d && (a - t == 0 || (a - t > 0 <==> a > 0)) && Abs(t) <= Abs(a)
  {
  }

  lemma EuclidNat(n: nat, d: nat)
    requires d > 0
    ensures 0 <= n / d
    ensures (n / d) * d <= n < (n / d) * d + d
  {
  }

  /** Division with no remainder is exact. */
  lemma TruncDivExact(k: int, b: int)
    requires b != 0
    ensures TruncDiv(k * b, b) == k
  {
    var q := TruncDiv(k * b, b);
    SubMul(k, q, b);
    if k - q != 0 {
      AbsMulAtLeast(k - q, b);
    }
  }

  lemma SubMul(k: int, q: int, b: int)
    ensures (k - q) * b == k * b - q * b
  {
  }

  lemma AbsMulAtLeast(m: int, b: int)
    requires m != 0
    ensures Abs(m * b) >= Abs(b)
  {
    if m > 0 {
      if b >= 0 { assert m * b >= b; } else { assert m * b <= b; }
    } else {
      if b >= 0 { assert m * b <= -b; } else { assert m * b >= -b; }
    }
  }

  /** The range of C#'s `int` (System.Int32). */
  predicate InInt32(a: int)
  {
    -0x8000_0000 <= a < 0x8000_0000
  }
}
