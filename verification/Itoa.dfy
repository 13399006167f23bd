/** Integers to text in any base from 2 to 36 (lib/itoa.c).  Text is NUL-terminated in a character
    array; the 64-bit conversions between signed and unsigned are explicit. */
module Itoa {
  const LIMIT_64: nat := 0x1_0000_0000_0000_0000
  const LLONG_MAX: int := 0x7fff_ffff_ffff_ffff
  const LLONG_MIN: int := -0x8000_0000_0000_0000
  const NUL: char := '\0'

  // ----- Text of a number -----

  function DigitChar(d: nat): (c: char)
    requires d < 36
    ensures c != NUL && c != '-'
  {
    if d < 10 then '0' + d as char else 'a' + (d - 10) as char
  }

  /** The digits of v, highest first. */
  function Digits(v: nat, base: nat): (s: string)
    requires 2 <= base <= 36
    ensures |s| > 0 && forall i :: 0 <= i < |s| ==> s[i] != NUL && s[i] != '-'
  {
    if v < base then [DigitChar(v)] else Digits(v / base, base) + [DigitChar(v % base)]
  }

  function Text(v: int, base: nat): (s: string)
    requires 2 <= base <= 36
    ensures |s| > 0 && forall i :: 0 <= i < |s| ==> s[i] != NUL
  {
    if v < 0 then "-" + Digits(-v, base) else Digits(v, base)
  }

  function Pow(b: nat, k: nat): nat {
    if k == 0 then 1 else b * Pow(b, k - 1)
  }

  lemma QuotientBelow(v: nat, b: nat, p: nat)
    requires b > 0 && v < b * p
    ensures v / b < p
  {
    var q := v / b;
    assert b * q <= v;
    if q >= p { MulMonotone(b, p, q); }
  }

  lemma MulMonotone(b: nat, p: nat, q: nat)
    requires p <= q
    ensures b * p <= b * q
  {
  }

  lemma QuotientShrinks(v: nat, b: nat)
    requires v > 0 && b >= 2
    ensures v / b < v
  {
    MulMonotone(v, 2, b);
    QuotientBelow(v, b, v);
  }

  /** All but the last digit. */
  lemma DropDigit(v: nat, base: nat, k: nat) returns (q: nat)
    requires 2 <= base <= 36 && k > 0 && base <= v < Pow(base, k)
    ensures k > 1 && q < v && q < Pow(base, k - 1) && |Digits(v, base)| == |Digits(q, base)| + 1
  {
    q := v / base;
    QuotientBelow(v, base, Pow(base, k - 1));
    QuotientShrinks(v, base);
    SmallQuotient(v, base);
  }

  lemma {:induction false} DigitsLength(v: nat, base: nat, k: nat)
    requires 2 <= base <= 36 && k > 0 && v < Pow(base, k)
    ensures |Digits(v, base)| <= k
    decreases k
  {
    if v >= base {
      var q := DropDigit(v, base, k);
      DigitsLength(q, base, k - 1);
    }
  }

  lemma {:induction false} PowAdd(b: nat, m: nat, n: nat)
    ensures Pow(b, m + n) == Pow(b, m) * Pow(b, n)
  {
    if m > 0 {
      PowAdd(b, m - 1, n);
      Associate(b, Pow(b, m - 1), Pow(b, n));
    }
  }

  lemma Associate(x: nat, y: nat, z: nat)
    ensures x * (y * z) == x * y * z
  {
  }

  lemma Powers()
    ensures Pow(10, 20) == 100000000000000000000 && Pow(16, 16) == LIMIT_64
  {
    assert Pow(10, 2) == 100 && Pow(16, 2) == 256;
    PowAdd(10, 2, 2);
    PowAdd(10, 4, 4);
    PowAdd(10, 8, 8);
    PowAdd(10, 16, 4);
    PowAdd(16, 2, 2);
    PowAdd(16, 4, 4);
    PowAdd(16, 8, 8);
  }

  /** Decimal and hexadecimal text of any 64-bit number fits 21 characters. */
  lemma TextFits(v: int, base: nat)
    requires (base == 10 || base == 16) && LLONG_MIN <= v < LIMIT_64
    ensures |Text(v, base)| <= 21
  {
    Powers();
    DigitsLength(if v < 0 then -v else v, base, if base == 10 then 20 else 16);
  }

  // ----- C strings -----

  /** The array holds s and a terminator. */
  ghost predicate Holds(a: array<char>, s: string)
    reads a
  {
    |s| < a.Length && a[..|s|] == s && a[|s|] == NUL
  }

  function Reversed(s: string): (r: string)
    ensures |r| == |s| && forall i :: 0 <= i < |s| ==> r[i] == s[|s| - 1 - i]
  {
    seq(|s|, i requires 0 <= i < |s| => s[|s| - 1 - i])
  }

  method Reverse(a: array<char>, len: nat)
    requires len <= a.Length
    modifies a
    ensures a[..len] == Reversed(old(a[..len])) && a[len..] == old(a[len..])
  {
    var i := 0;
    while i < len / 2
      invariant 0 <= i <= len / 2
      invariant forall k :: 0 <= k < i ==> a[k] == old(a[len - 1 - k]) && a[len - 1 - k] == old(a[k])
      invariant forall k :: i <= k < len - i || len <= k < a.Length ==> a[k] == old(a[k])
    {
      var tmp := a[i];
      a[i] := a[len - 1 - i];
      a[len - 1 - i] := tmp;
      i := i + 1;
    }
  }

  lemma ReversedSnoc(s: string, c: char)
    ensures Reversed(s + [c]) == [c] + Reversed(s)
  {
  }

  /** What the digit loop has still to write. */
  ghost function Rest(v: nat, base: nat): string
    requires 2 <= base <= 36
  {
    if v == 0 then "" else Reversed(Digits(v, base))
  }

  /** Writing the digits lowest first gives them in reverse. */
  lemma RestStep(v: nat, base: nat, q: nat, d: nat)
    requires 2 <= base <= 36 && v > 0 && q == v / base && d == v % base
    ensures q < v && d < base && Rest(v, base) == [DigitChar(d)] + Rest(q, base)
  {
    QuotientShrinks(v, base);
    SmallQuotient(v, base);
    if v >= base { ReversedSnoc(Digits(q, base), DigitChar(d)); }
  }

  lemma SmallQuotient(v: nat, base: nat)
    requires base > 0
    ensures v / base == 0 <==> v < base
    ensures v < base ==> v % base == v
  {
  }

  /** The magnitude the code divides down. */
  function Magnitude(value: int, isUnsigned: bool): (u: nat)
    requires LLONG_MIN <= value <= LLONG_MAX
    ensures u < LIMIT_64
  {
    if !isUnsigned && value < 0 then -(value + 1) + 1 else value % LIMIT_64
  }

  /** The value the arguments stand for. */
  function Meant(value: int, isUnsigned: bool): int
    requires LLONG_MIN <= value <= LLONG_MAX
  {
    if isUnsigned then value % LIMIT_64 else value
  }

  /** The digit loop: what is in the buffer and what is left make up the number. */
  method PutDigits(u: nat, str: array<char>, base: nat) returns (n: nat)
    requires 2 <= base <= 36 && |Digits(u, base)| <= str.Length
    modifies str
    ensures n == |Digits(u, base)| && str[..n] == Reversed(Digits(u, base))
  {
    if u == 0 {
      str[0] := '0';
      n := 1;
      assert str[..1] == Reversed(Digits(0, base));
    } else {
      n := PutLoop(u, str, base, Rest(u, base));
    }
  }

  method PutLoop(u: nat, str: array<char>, base: nat, ghost all: string) returns (n: nat)
    requires 2 <= base <= 36 && all == Rest(u, base) && |all| <= str.Length
    modifies str
    ensures n == |all| && str[..n] == all
  {
    var uval: nat := u;
    n := 0;
    ghost var rest := all;
    while uval != 0
      invariant 0 <= n <= str.Length && rest == Rest(uval, base) && str[..n] + rest == all
      decreases uval
    {
      var digit, q := TakeDigit(uval, base);
      n := PutOne(str, n, digit, rest, rest[1..]);
      rest := rest[1..];
      uval := q;
    }
  }

  method TakeDigit(v: nat, base: nat) returns (digit: nat, q: nat)
    requires 2 <= base <= 36 && v > 0
    ensures digit < base && q < v && Rest(v, base) == [DigitChar(digit)] + Rest(q, base)
  {
    digit, q := v % base, v / base;
    RestStep(v, base, q, digit);
  }

  method PutOne(str: array<char>, n: nat, digit: nat, ghost rest: string, ghost after: string) returns (m: nat)
    requires digit < 36 && n + |rest| <= str.Length && rest == [DigitChar(digit)] + after
    modifies str
    ensures m == n + 1 && str[..m] + after == old(str[..n]) + rest
  {
    str[n] := if digit < 10 then '0' + digit as char else 'a' + (digit - 10) as char;
    m := n + 1;
    assert str[..m] == old(str[..n]) + [DigitChar(digit)];
  }

  /** int_to_str_internal */
  method ToText(value: int, str: array<char>, base: int, isUnsigned: bool)
    requires LLONG_MIN <= value <= LLONG_MAX && str.Length > 0
    requires 2 <= base <= 36 ==> |Text(Meant(value, isUnsigned), base)| < str.Length
    modifies str
    ensures Holds(str, if 2 <= base <= 36 then Text(Meant(value, isUnsigned), base) else "")
  {
    if base < 2 || base > 36 {
      str[0] := NUL;
      return;
    }
    var negative := !isUnsigned && value < 0;
    var uval := Magnitude(value, isUnsigned);
    ghost var text := Text(Meant(value, isUnsigned), base);
    var n := PutDigits(uval, str, base);
    n := PutSign(str, n, negative, Digits(uval, base), text);
    Finish(str, n, text);
  }

  method PutSign(str: array<char>, n: nat, negative: bool, ghost digits: string, ghost text: string) returns (m: nat)
    requires n == |digits| && |text| < str.Length && text == if negative then "-" + digits else digits
    requires str[..n] == Reversed(digits)
    modifies str
    ensures m == |text| && str[..m] == Reversed(text)
  {
    m := n;
    if negative {
      str[n] := '-';
      m := n + 1;
      assert str[..m] == Reversed(digits) + ['-'];
    }
  }

  method Finish(str: array<char>, n: nat, ghost text: string)
    requires n == |text| < str.Length && str[..n] == Reversed(text)
    modifies str
    ensures Holds(str, text)
  {
    str[n] := NUL;
    Reverse(str, n);
    assert str[..n] == text;
    assert str[n..][0] == NUL;
  }

  method Lltoa(value: int, str: array<char>, base: int)
    requires LLONG_MIN <= value <= LLONG_MAX && str.Length > 0
    requires 2 <= base <= 36 ==> |Text(value, base)| < str.Length
    modifies str
    ensures Holds(str, if 2 <= base <= 36 then Text(value, base) else "")
  {
    ToText(value, str, base, false);
  }

  /** The argument passes through a signed long long. */
  function AsSigned(v: nat): (s: int)
    requires v < LIMIT_64
    ensures LLONG_MIN <= s <= LLONG_MAX && s % LIMIT_64 == v
  {
    if v <= LLONG_MAX then v else v - LIMIT_64
  }

  method Ulltoa(value: nat, str: array<char>, base: int)
    requires value < LIMIT_64 && str.Length > 0
    requires 2 <= base <= 36 ==> |Text(value, base)| < str.Length
    modifies str
    ensures Holds(str, if 2 <= base <= 36 then Text(value, base) else "")
  {
    ToText(AsSigned(value), str, base, true);
  }

  method ItoaInt(value: int, str: array<char>, base: int)
    requires -0x8000_0000 <= value < 0x8000_0000 && str.Length > 0
    requires 2 <= base <= 36 ==> |Text(value, base)| < str.Length
    modifies str
    ensures Holds(str, if 2 <= base <= 36 then Text(value, base) else "")
  {
    ToText(value, str, base, false);
  }

  method Utoa(value: nat, str: array<char>, base: int)
    requires value < 0x1_0000_0000 && str.Length > 0
    requires 2 <= base <= 36 ==> |Text(value, base)| < str.Length
    modifies str
    ensures Holds(str, if 2 <= base <= 36 then Text(value, base) else "")
  {
    ToText(value, str, base, true);
  }
}
