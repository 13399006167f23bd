/** Facts about multiplication and division that the address computations need. */
module Arith {

  lemma MulBound(d: int, c: int)
    requires c > 0
    ensures d >= 1 ==> d * c >= c
    ensures d <= -1 ==> d * c <= -c
  {
  }

  lemma QuotientUnique(q: int, c: int, m: int, r: int)
    requires 0 <= r < c && q == m * c + r
    ensures q / c == m
  {
    var d := q / c - m;
    assert d * c == r - q % c;
    MulBound(d, c);
  }

  lemma RemainderUnique(q: int, c: int, m: int, r: int)
    requires 0 <= r < c && q == m * c + r
    ensures q % c == r
  {
    QuotientUnique(q, c, m, r);
    assert q == c * (q / c) + q % c;
  }

  /** Adding less than the modulus wraps at most once. */
  lemma RemainderAdd(x: nat, d: nat, c: nat)
    requires d < c
    ensures (x + d) % c == if x % c + d < c then x % c + d else x % c + d - c
  {
    var m, r := x / c, x % c;
    assert x == m * c + r;
    if r + d < c {
      RemainderUnique(x + d, c, m, r + d);
    } else {
      assert (m + 1) * c == m * c + c;
      RemainderUnique(x + d, c, m + 1, r + d - c);
    }
  }

  lemma Regroup(m: int, b: int, t: int, a: int, r: int)
    ensures (m * b + t) * a + r == m * (a * b) + (t * a + r)
  {
  }

  lemma DigitsBounded(t: int, a: int, b: int, r: int)
    requires 0 <= t < b && 0 <= r < a
    ensures 0 <= t * a + r < a * b
  {
    MulBound(b - t, a);
    assert (b - t) * a == a * b - t * a;
  }

  lemma DivDiv(x: nat, a: nat, b: nat)
    requires a > 0 && b > 0
    ensures a * b > 0 && x / (a * b) == x / a / b
  {
    var q, r := x / a, x % a;
    var m, t := q / b, q % b;
    Regroup(m, b, t, a, r);
    DigitsBounded(t, a, b, r);
    QuotientUnique(x, a * b, m, t * a + r);
  }

  ghost function Pow2(n: nat): (p: nat)
    ensures p >= 1
  {
    if n == 0 then 1 else 2 * Pow2(n - 1)
  }

  lemma {:induction false} Pow2Monotone(m: nat, n: nat)
    requires m <= n
    ensures Pow2(m) <= Pow2(n)
  {
    if m < n { Pow2Monotone(m, n - 1); }
  }

  lemma {:induction false} Pow2Double(n: nat)
    ensures Pow2(2 * n) == Pow2(n) * Pow2(n)
  {
    if n > 0 {
      Pow2Double(n - 1);
      var q := Pow2(n - 1);
      assert Pow2(2 * n) == 2 * Pow2(2 * n - 1) == 4 * (q * q);
      assert (2 * q) * (2 * q) == 4 * (q * q);
    }
  }
}
