/** Text to integers (lib/strtol.c), and the round trip through lib/itoa.c.

    The argument is memory from the string's start on, holding a terminator somewhere; endptr is
    the index where parsing stopped. */
module Strtol {
  import opened Itoa

  // ----- Scanning -----

  predicate IsSpace(c: char) {
    c == ' ' || c == '\t' || c == '\n' || c == '\r' || c == '\U{0c}' || c == '\U{0b}'
  }

  /** digit_value: -1 if c is no digit of the base. */
  function DigitValue(c: char, base: int): (v: int)
    ensures v == -1 || 0 <= v < base
    ensures c == NUL ==> v == -1
  {
    var v := if '0' <= c <= '9' then c as int - '0' as int
             else if 'a' <= c <= 'z' then c as int - 'a' as int + 10
             else if 'A' <= c <= 'Z' then c as int - 'A' as int + 10
             else -1;
    if 0 <= v < base then v else -1
  }

  ghost predicate Terminated(m: string) {
    NUL in m
  }

  /** No terminator before i. */
  ghost predicate Within(m: string, i: nat) {
    Terminated(m) && i <= |m| && forall k :: 0 <= k < i ==> m[k] != NUL
  }

  lemma InBounds(m: string, i: nat)
    requires Within(m, i)
    ensures i < |m|
  {
    var k :| 0 <= k < |m| && m[k] == NUL;
  }

  /** s is a run of digits of the base. */
  ghost predicate AllDigits(s: string, base: int) {
    forall k :: 0 <= k < |s| ==> DigitValue(s[k], base) >= 0
  }

  ghost function ValueOf(s: string, base: int): (v: nat)
    requires AllDigits(s, base)
  {
    if s == [] then 0
    else
      var last := s[|s| - 1];
      assert 0 <= DigitValue(last, base) < base;
      NonNegative(ValueOf(s[..|s| - 1], base), base);
      ValueOf(s[..|s| - 1], base) * base + DigitValue(last, base)
  }

  lemma NonNegative(x: nat, y: int)
    requires y > 0
    ensures x * y >= x
  {
  }

  /** The values met on the way are no greater than the last: where the last fits, none overflows. */
  lemma {:induction false} PrefixBounded(s: string, base: int, j: nat)
    requires AllDigits(s, base) && j <= |s|
    ensures ValueOf(s[..j], base) <= ValueOf(s, base)
    decreases |s|
  {
    if j == |s| {
      assert s[..j] == s;
    } else {
      var t := s[..|s| - 1];
      PrefixBounded(t, base, j);
      assert t[..j] == s[..j];
      assert 0 <= DigitValue(s[|s| - 1], base) < base;
      NonNegative(ValueOf(t, base), base);
    }
  }

  /** e is where the digits of the base that start at i end. */
  ghost predicate RunEnds(m: string, i: nat, base: int, e: nat) {
    i <= e < |m| && AllDigits(m[i..e], base) && DigitValue(m[e], base) < 0
  }

  // ----- Reading -----

  function FirstNonSpace(m: string, i: nat): (k: nat)
    decreases |m| - i
  {
    if i < |m| && IsSpace(m[i]) then FirstNonSpace(m, i + 1) else i
  }

  method SkipSpace(m: string) returns (i: nat)
    requires Terminated(m)
    ensures i == FirstNonSpace(m, 0) && Within(m, i)
  {
    i := 0;
    InBounds(m, 0);
    while IsSpace(m[i])
      invariant Within(m, i) && i < |m| && FirstNonSpace(m, i) == FirstNonSpace(m, 0)
      decreases |m| - i
    {
      InBounds(m, i + 1);
      i := i + 1;
    }
  }

  function Peek(m: string, i: nat): char {
    if i < |m| then m[i] else NUL
  }

  predicate HexPrefix(m: string, i: nat) {
    Peek(m, i) == '0' && (Peek(m, i + 1) == 'x' || Peek(m, i + 1) == 'X')
  }

  /** What "base 0" stands for at i, and where the digits start. */
  function AutoBase(m: string, i: nat): (int, nat) {
    if HexPrefix(m, i) then (16, i + 2) else if Peek(m, i) == '0' then (8, i + 1) else (10, i)
  }

  /** Where strtoul's digits start, and in what base. */
  function UnsignedStart(m: string, base: int): (int, nat) {
    var i := FirstNonSpace(m, 0);
    var j := if Peek(m, i) == '+' then i + 1 else i;
    if base == 0 then AutoBase(m, j) else (base, j)
  }

  /** The sign strtol reads, the base, and where the digits start. */
  function SignedStart(m: string, base: int): (bool, int, nat) {
    var i := FirstNonSpace(m, 0);
    var negative := Peek(m, i) == '-';
    var j := if negative || Peek(m, i) == '+' then i + 1 else i;
    if base == 0 then (negative, AutoBase(m, j).0, AutoBase(m, j).1)
    else (negative, base, if base == 16 && HexPrefix(m, j) then j + 2 else j)
  }

  /** The digit loop on unsigned long, which wraps. */
  method ReadUnsigned(m: string, i: nat, base: int) returns (r: nat, e: nat)
    requires Within(m, i)
    ensures RunEnds(m, i, base, e) && Within(m, e) && r == ValueOf(m[i..e], base) % LIMIT_64
  {
    r, e := 0, i;
    InBounds(m, i);
    while m[e] != NUL
      invariant i <= e && Within(m, e) && e < |m| && AllDigits(m[i..e], base)
      invariant r == ValueOf(m[i..e], base) % LIMIT_64
      decreases |m| - e
    {
      var digit := DigitValue(m[e], base);
      if digit < 0 { return; }
      InBounds(m, e + 1);
      RunGrows(m, i, base, e);
      WrapStep(ValueOf(m[i..e], base), base, digit);
      r := (r * base + digit) % LIMIT_64;
      e := e + 1;
    }
  }

  lemma RunGrows(m: string, i: nat, base: int, e: nat)
    requires i <= e < |m| && AllDigits(m[i..e], base) && DigitValue(m[e], base) >= 0
    ensures AllDigits(m[i..e + 1], base)
    ensures ValueOf(m[i..e + 1], base) == ValueOf(m[i..e], base) * base + DigitValue(m[e], base)
  {
    assert m[i..e + 1] == m[i..e] + [m[e]];
    assert m[i..e + 1][..|m[i..e + 1]| - 1] == m[i..e];
  }

  lemma WrapStep(v: nat, base: nat, digit: nat)
    ensures (v % LIMIT_64 * base + digit) % LIMIT_64 == (v * base + digit) % LIMIT_64
  {
    var q, r := v / LIMIT_64, v % LIMIT_64;
    assert v * base + digit == (r * base + digit) + LIMIT_64 * (q * base);
    WrapMultiple(r * base + digit, q * base);
  }

  lemma WrapMultiple(x: int, k: int)
    ensures (x + LIMIT_64 * k) % LIMIT_64 == x % LIMIT_64
  {
  }

  /** The digit loop on signed long: where the value fits, no step overflows. */
  method ReadSigned(m: string, i: nat, base: int, ghost end: nat) returns (r: nat, e: nat)
    requires Within(m, i) && RunEnds(m, i, base, end) && ValueOf(m[i..end], base) <= LLONG_MAX
    ensures e == end && r == ValueOf(m[i..end], base)
  {
    r, e := 0, i;
    while m[e] != NUL
      invariant i <= e <= end && Within(m, e) && AllDigits(m[i..e], base)
      invariant r == ValueOf(m[i..e], base) <= LLONG_MAX
      decreases |m| - e
    {
      var digit := DigitValue(m[e], base);
      if digit < 0 {
        RunEndsOnce(m, i, base, e, end);
        return;
      }
      SignedStep(m, i, base, e, end);
      r := r * base + digit;
      e := e + 1;
    }
    RunEndsOnce(m, i, base, e, end);
  }

  lemma SignedStep(m: string, i: nat, base: int, e: nat, end: nat)
    requires RunEnds(m, i, base, end) && i <= e <= end && AllDigits(m[i..e], base) && DigitValue(m[e], base) >= 0
    ensures e < end && AllDigits(m[i..e + 1], base)
    ensures ValueOf(m[i..e + 1], base) == ValueOf(m[i..e], base) * base + DigitValue(m[e], base)
    ensures ValueOf(m[i..e + 1], base) <= ValueOf(m[i..end], base)
  {
    RunGrows(m, i, base, e);
    assert m[i..end][..e + 1 - i] == m[i..e + 1];
    PrefixBounded(m[i..end], base, e + 1 - i);
  }

  lemma RunEndsOnce(m: string, i: nat, base: int, e: nat, end: nat)
    requires i <= e <= end && RunEnds(m, i, base, end) && DigitValue(m[e], base) < 0
    ensures e == end
  {
    if e < end { RunDigit(m, i, base, end, e); }
  }

  lemma RunDigit(m: string, i: nat, base: int, end: nat, e: nat)
    requires RunEnds(m, i, base, end) && i <= e < end
    ensures DigitValue(m[e], base) >= 0
  {
    assert m[i..end][e - i] == m[e];
  }

  function Signed(negative: bool, x: int): int {
    if negative then -x else x
  }

  method Strtoul(m: string, base: int) returns (r: nat, end: nat)
    requires Terminated(m)
    ensures var (b, i) := UnsignedStart(m, base);
            RunEnds(m, i, b, end) && r == ValueOf(m[i..end], b) % LIMIT_64
  {
    var i := SkipSpace(m);
    var b := base;
    InBounds(m, i);
    if m[i] == '+' { i := i + 1; }
    if base == 0 {
      b, i := DetectBase(m, i);
    }
    r, end := ReadUnsigned(m, i, b);
  }

  method DetectBase(m: string, i: nat) returns (b: int, j: nat)
    requires Within(m, i)
    ensures (b, j) == AutoBase(m, i) && Within(m, j)
  {
    InBounds(m, i);
    if m[i] != NUL { InBounds(m, i + 1); }
    if m[i] == '0' && (m[i + 1] == 'x' || m[i + 1] == 'X') {
      return 16, i + 2;
    } else if m[i] == '0' {
      return 8, i + 1;
    }
    return 10, i;
  }

  /** strtol, for text whose magnitude a long can hold; beyond that its signed arithmetic overflows. */
  method Strtol(m: string, base: int, ghost last: nat) returns (r: int, end: nat)
    requires Terminated(m)
    requires var (_, b, i) := SignedStart(m, base); RunEnds(m, i, b, last) && ValueOf(m[i..last], b) <= LLONG_MAX
    ensures var (negative, b, i) := SignedStart(m, base);
            end == last && r == Signed(negative, ValueOf(m[i..last], b))
  {
    var negative, b, i := FindDigits(m, base);
    var magnitude: nat;
    magnitude, end := ReadSigned(m, i, b, last);
    r := Signed(negative, magnitude);
  }

  /** What strtol does before its digit loop. */
  method FindDigits(m: string, base: int) returns (negative: bool, b: int, i: nat)
    requires Terminated(m)
    ensures (negative, b, i) == SignedStart(m, base) && Within(m, i)
  {
    i := SkipSpace(m);
    b, negative := base, false;
    InBounds(m, i);
    if m[i] == '-' {
      negative := true;
      i := i + 1;
    } else if m[i] == '+' {
      i := i + 1;
    }
    InBounds(m, i);
    if m[i] != NUL { InBounds(m, i + 1); }
    if base == 0 {
      b, i := DetectBase(m, i);
    } else if base == 16 && m[i] == '0' && (m[i + 1] == 'x' || m[i + 1] == 'X') {
      i := i + 2;
    }
  }

  // ----- Round trips -----

  lemma DigitRoundTrip(d: nat, base: nat)
    requires d < base <= 36
    ensures DigitValue(DigitChar(d), base) == d
  {
  }

  function UpperCase(c: char): char {
    if 'a' <= c <= 'z' then (c as int - 0x20) as char else c
  }

  /** The digits of a base are the first so many of 0 to 9 and a to z, in either case. */
  lemma DigitExactly(c: char, d: nat, base: nat)
    requires d < base <= 36
    ensures DigitValue(c, base) == d <==> c == DigitChar(d) || c == UpperCase(DigitChar(d))
  {
  }

  lemma PlainDigit(d: nat, base: nat)
    requires d < base <= 36
    ensures !IsSpace(DigitChar(d)) && DigitChar(d) != '+' && (base == 16 ==> DigitChar(d) != 'x' && DigitChar(d) != 'X')
  {
  }

  lemma LastDigit(v: nat, base: nat) returns (q: nat, d: nat)
    requires 2 <= base <= 36 && v >= base
    ensures q < v && d < base && v == q * base + d && Digits(v, base) == Digits(q, base) + [DigitChar(d)]
  {
    q, d := v / base, v % base;
    QuotientShrinks(v, base);
  }

  lemma ValueSnoc(s: string, c: char, base: int)
    requires AllDigits(s, base) && DigitValue(c, base) >= 0
    ensures AllDigits(s + [c], base) && ValueOf(s + [c], base) == ValueOf(s, base) * base + DigitValue(c, base)
  {
    assert (s + [c])[..|s|] == s;
  }

  /** Reading the digits of v gives v. */
  lemma {:induction false} DigitsRead(v: nat, base: nat)
    requires 2 <= base <= 36
    ensures AllDigits(Digits(v, base), base) && ValueOf(Digits(v, base), base) == v
    decreases v
  {
    if v < base {
      DigitRoundTrip(v, base);
      ValueSnoc([], DigitChar(v), base);
      assert [] + [DigitChar(v)] == Digits(v, base);
    } else {
      var q, d := LastDigit(v, base);
      DigitRoundTrip(d, base);
      DigitsRead(q, base);
      ValueSnoc(Digits(q, base), DigitChar(d), base);
    }
  }

  // ----- The text of a number, without reference to how it is made -----

  ghost predicate LowerCase(d: string) {
    forall k :: 0 <= k < |d| ==> '0' <= d[k] <= '9' || 'a' <= d[k] <= 'z'
  }

  /** d is how v is written in a base: lower-case digits that stand for v, without leading zeros. */
  ghost predicate Numeral(d: string, v: nat, base: nat) {
    d != "" && LowerCase(d) && AllDigits(d, base) && ValueOf(d, base) == v && (|d| > 1 ==> d[0] != '0')
  }

  /** The same with a sign. */
  ghost predicate SignedNumeral(s: string, v: int, base: nat) {
    if v < 0 then s != "" && s[0] == '-' && Numeral(s[1..], -v, base) else Numeral(s, v, base)
  }

  lemma {:induction false} DigitsAreNumeral(v: nat, base: nat)
    requires 2 <= base <= 36
    ensures Numeral(Digits(v, base), v, base) && (v > 0 ==> Digits(v, base)[0] != '0')
    decreases v
  {
    DigitsRead(v, base);
    if v < base {
      DigitCode(v);
    } else {
      var q, d := LastDigit(v, base);
      var s := Digits(q, base);
      DigitsAreNumeral(q, base);
      DigitCode(d);
      LowerCaseSnoc(s, DigitChar(d));
      QuotientPositive(v, base, q, d);
      assert Digits(v, base)[0] == s[0];
    }
  }

  lemma QuotientPositive(v: nat, base: nat, q: nat, d: nat)
    requires v >= base > d && v == q * base + d
    ensures q > 0
  {
  }

  /** The characters of the digits, in ASCII. */
  lemma DigitCode(d: nat)
    requires d < 36
    ensures DigitChar(d) as int == if d < 10 then 0x30 + d else 0x61 + (d - 10)
    ensures LowerCase([DigitChar(d)]) && (d > 0 ==> DigitChar(d) != '0')
  {
  }

  lemma LowerCaseSnoc(s: string, c: char)
    requires LowerCase(s) && LowerCase([c])
    ensures LowerCase(s + [c])
  {
    assert [c][0] == c;
  }

  /** itoa writes the numeral of its argument, */
  lemma TextIsNumeral(v: int, base: nat)
    requires 2 <= base <= 36
    ensures SignedNumeral(Text(v, base), v, base)
  {
    DigitsAreNumeral(if v < 0 then -v else v, base);
    if v < 0 { assert Text(v, base)[1..] == Digits(-v, base); }
  }

  lemma LongIsLarge(d: string, v: nat, base: nat)
    requires Numeral(d, v, base) && base > 0
    ensures |d| > 1 <==> v >= base
  {
    var p := ValueOf(d[..|d| - 1], base);
    var last := DigitValue(d[|d| - 1], base);
    assert v == p * base + last && 0 <= last < base;
    if |d| > 1 { FirstDigitCounts(d[..|d| - 1], base); } else { assert d[..0] == [] && p == 0; }
    AtLeastBase(p, base, last);
  }

  lemma AtLeastBase(p: nat, base: nat, last: nat)
    requires last < base
    ensures p * base + last >= base <==> p >= 1
  {
    if p >= 1 { MulMonotone(base, 1, p); }
  }

  lemma FirstDigitCounts(d: string, base: nat)
    requires AllDigits(d, base) && LowerCase(d) && d != "" && d[0] != '0'
    ensures ValueOf(d, base) >= 1
  {
    PrefixBounded(d, base, 1);
    assert d[..1] == [d[0]] && [d[0]][..0] == [];
    assert DigitValue(d[0], base) >= 1;
  }

  /** Its last digit, and the numeral of the rest. */
  lemma NumeralSplits(d: string, v: nat, base: nat)
    requires Numeral(d, v, base) && v >= base && base > 0
    ensures |d| > 1 && DigitValue(d[|d| - 1], base) == v % base && Numeral(d[..|d| - 1], v / base, base)
  {
    LongIsLarge(d, v, base);
    var q, r := ValueOf(d[..|d| - 1], base), DigitValue(d[|d| - 1], base);
    assert v == q * base + r && 0 <= r < base;
    QuotientIs(v, base, q, r);
  }

  lemma QuotientIs(v: nat, base: nat, q: nat, r: nat)
    requires v == q * base + r && r < base
    ensures v / base == q && v % base == r
  {
    var q', r' := v / base, v % base;
    assert v == q' * base + r' && 0 <= r' < base;
    if q < q' { MulMonotone(base, q + 1, q'); } else if q' < q { MulMonotone(base, q' + 1, q); }
  }

  lemma SameDigit(c: char, d: char, base: nat)
    requires DigitValue(c, base) == DigitValue(d, base) >= 0 && LowerCase([c]) && LowerCase([d])
    ensures c == d
  {
    assert [c][0] == c && [d][0] == d;
  }

  /** and there is no other. */
  lemma {:induction false} NumeralUnique(d: string, e: string, v: nat, base: nat)
    requires 2 <= base <= 36 && Numeral(d, v, base) && Numeral(e, v, base)
    ensures d == e
    decreases v
  {
    LongIsLarge(d, v, base);
    LongIsLarge(e, v, base);
    if v >= base {
      NumeralSplits(d, v, base);
      NumeralSplits(e, v, base);
      QuotientShrinks(v, base);
      NumeralUnique(d[..|d| - 1], e[..|e| - 1], v / base, base);
      assert d == d[..|d| - 1] + [d[|d| - 1]] && e == e[..|e| - 1] + [e[|e| - 1]];
    } else {
      assert d[..0] == [] && e[..0] == [];
    }
    SameDigit(d[|d| - 1], e[|e| - 1], base);
  }

  lemma SignedNumeralUnique(s: string, t: string, v: int, base: nat)
    requires 2 <= base <= 36 && SignedNumeral(s, v, base) && SignedNumeral(t, v, base)
    ensures s == t
  {
    if v < 0 {
      NumeralUnique(s[1..], t[1..], -v, base);
      assert s == ['-'] + s[1..] && t == ['-'] + t[1..];
    } else {
      NumeralUnique(s, t, v, base);
    }
  }

  /** Digits are no spaces, signs or prefix letters. */
  lemma {:induction false} DigitsPlain(v: nat, base: nat)
    requires 2 <= base <= 36
    ensures forall k :: 0 <= k < |Digits(v, base)| ==>
              var c := Digits(v, base)[k];
              !IsSpace(c) && c != '+' && (base == 16 ==> c != 'x' && c != 'X')
  {
    if v < base {
      PlainDigit(v, base);
    } else {
      var q, d := LastDigit(v, base);
      PlainDigit(d, base);
      DigitsPlain(q, base);
    }
  }

  /** Memory that starts with s and a terminator. */
  ghost predicate StartsWith(m: string, s: string) {
    |s| < |m| && m[..|s|] == s && m[|s|] == NUL
  }

  lemma DigitsEnd(m: string, i: nat, v: nat, base: nat)
    requires 2 <= base <= 36 && i <= |m| && StartsWith(m[i..], Digits(v, base))
    ensures RunEnds(m, i, base, i + |Digits(v, base)|)
    ensures ValueOf(m[i..i + |Digits(v, base)|], base) == v
  {
    var s := Digits(v, base);
    DigitsRead(v, base);
    assert m[i..i + |s|] == s && m[i + |s|] == NUL;
  }

  /** strtoul inverts ulltoa for every 64-bit number and base, and consumes the whole text. */
  lemma UnsignedRoundTrip(m: string, v: nat, base: nat, r: nat, end: nat)
    requires v < LIMIT_64 && 2 <= base <= 36 && StartsWith(m, Text(v, base))
    requires var (b, i) := UnsignedStart(m, base);
             RunEnds(m, i, b, end) && r == ValueOf(m[i..end], b) % LIMIT_64
    ensures r == v && end == |Text(v, base)|
  {
    UnsignedPlain(m, v, base);
    assert m[0..] == m;
    ReadsOnly(m, 0, v, base, end);
    assert v % LIMIT_64 == v;
  }

  /** A run of digits that starts where v is written ends where v does, and stands for v. */
  lemma ReadsOnly(m: string, i: nat, v: nat, base: nat, end: nat)
    requires 2 <= base <= 36 && i <= |m| && StartsWith(m[i..], Digits(v, base)) && RunEnds(m, i, base, end)
    ensures end == i + |Digits(v, base)| && ValueOf(m[i..end], base) == v
  {
    DigitsEnd(m, i, v, base);
    EndsAgree(m, i, base, end, i + |Digits(v, base)|);
  }

  lemma UnsignedPlain(m: string, v: nat, base: nat)
    requires 2 <= base <= 36 && StartsWith(m, Digits(v, base))
    ensures UnsignedStart(m, base) == (base, 0)
  {
    DigitsPlain(v, base);
    assert m[0] == Digits(v, base)[0];
  }

  lemma EndsAgree(m: string, i: nat, base: int, e: nat, f: nat)
    requires RunEnds(m, i, base, e) && RunEnds(m, i, base, f)
    ensures e == f
  {
    if e < f {
      RunEndsOnce(m, i, base, e, f);
    } else {
      RunEndsOnce(m, i, base, f, e);
    }
  }

  /** strtol reads back the digits that lltoa prints of every 64-bit number, and it can hold what
      they stand for exactly if the number is not the least one. */
  lemma SignedRoundTrip(m: string, v: int, base: nat)
    requires LLONG_MIN <= v <= LLONG_MAX && 2 <= base <= 36 && StartsWith(m, Text(v, base))
    ensures var (negative, b, i) := SignedStart(m, base);
            var end := |Text(v, base)|;
            && RunEnds(m, i, b, end) && v == Signed(negative, ValueOf(m[i..end], b))
            && (ValueOf(m[i..end], b) <= LLONG_MAX <==> v > LLONG_MIN)
  {
    var u := if v < 0 then -v else v;
    var s, t := Digits(u, base), Text(v, base);
    var i := if v < 0 then 1 else 0;
    DigitsPlain(u, base);
    assert t[i..] == s && m[..|t|][i..] == m[i..|t|];
    assert m[i] == s[0] && m[0] == t[0];
    assert m[i..][..|s|] == m[i..|t|];
    assert |s| > 1 ==> m[i + 1] == s[1];
    assert SignedStart(m, base) == (v < 0, base, i);
    DigitsEnd(m, i, u, base);
  }

  // ----- What may stand in front of the digits -----

  /** The white space of isspace: the blank, and tab to carriage return. */
  lemma SpacesAre(c: char)
    ensures IsSpace(c) <==> c == ' ' || 0x09 <= c as int <= 0x0D
  {
  }

  ghost predicate AllSpace(m: string, i: nat, n: nat) {
    n <= |m| && forall k :: i <= k < n ==> m[k] == ' ' || 0x09 <= m[k] as int <= 0x0D
  }

  lemma {:induction false} SkipsTo(m: string, i: nat, n: nat)
    requires i <= n < |m| && AllSpace(m, i, n) && !IsSpace(m[n])
    ensures FirstNonSpace(m, i) == n
    decreases n - i
  {
    if i < n {
      SpacesAre(m[i]);
      SkipsTo(m, i + 1, n);
    }
  }

  /** The prefixes of the C language: with base 0 "0x" announces 16 and "0" announces 8, and anything
      else is decimal; with base 16 "0x" may be given. */
  predicate Announces(prefix: string, given: int, base: int, v: nat) {
    if given == 0 then
      || ((prefix == "0x" || prefix == "0X") && base == 16)
      || (prefix == "0" && base == 8)
      || (prefix == "" && base == 10 && v > 0)
    else base == given && (prefix == "" || (given == 16 && (prefix == "0x" || prefix == "0X")))
  }

  /** Memory holds white space up to n, a sign, a prefix and the digits of v. */
  ghost predicate Written(m: string, n: nat, sign: string, prefix: string, v: nat, base: nat)
    requires 2 <= base <= 36
  {
    && n <= |m| && AllSpace(m, 0, n) && (sign == "" || sign == "+" || sign == "-")
    && StartsWith(m[n..], sign + prefix + Digits(v, base))
  }

  /** The text, character by character. */
  lemma WrittenAt(m: string, n: nat, sign: string, prefix: string, d: string)
    requires n <= |m| && StartsWith(m[n..], sign + prefix + d)
    ensures n + |sign| + |prefix| + |d| < |m|
    ensures forall k :: 0 <= k < |sign| ==> m[n + k] == sign[k]
    ensures forall k :: 0 <= k < |prefix| ==> m[n + |sign| + k] == prefix[k]
    ensures forall k :: 0 <= k < |d| ==> m[n + |sign| + |prefix| + k] == d[k]
    ensures StartsWith(m[n + |sign| + |prefix|..], d)
  {
    var t, i := sign + prefix + d, n + |sign| + |prefix|;
    forall k | 0 <= k < |t| ensures m[n + k] == t[k] { assert m[n..][..|t|][k] == m[n + k]; }
    forall k | 0 <= k < |d| ensures m[i + k] == d[k] { assert t[|sign| + |prefix| + k] == d[k]; }
    forall k | 0 <= k < |prefix| ensures m[n + |sign| + k] == prefix[k] { assert t[|sign| + k] == prefix[k]; }
    assert m[n..][|t|] == m[n + |t|];
  }

  /** The prefix is seen for what it is. */
  lemma PrefixSeen(m: string, j: nat, prefix: string, v: nat, given: int, base: nat)
    requires 2 <= base <= 36 && Announces(prefix, given, base, v) && j + |prefix| + |Digits(v, base)| < |m|
    requires forall k :: 0 <= k < |prefix| ==> m[j + k] == prefix[k]
    requires StartsWith(m[j + |prefix|..], Digits(v, base))
    ensures given == 0 ==> AutoBase(m, j) == (base, j + |prefix|)
    ensures given == 16 ==> (HexPrefix(m, j) <==> prefix != "")
  {
    var i := j + |prefix|;
    FirstDigits(m, i, v, base);
    if prefix != "" { assert m[j] == prefix[0]; }
    if |prefix| > 1 { assert m[j + 1] == prefix[1]; }
  }

  /** The digits do not look like a prefix. */
  lemma FirstDigits(m: string, i: nat, v: nat, base: nat)
    requires 2 <= base <= 36 && i + |Digits(v, base)| < |m| && StartsWith(m[i..], Digits(v, base))
    ensures v > 0 ==> m[i] != '0'
    ensures base == 8 || base == 10 || base == 16 ==> m[i] != 'x' && m[i] != 'X' && m[i + 1] != 'x' && m[i + 1] != 'X'
  {
    var d := Digits(v, base);
    DigitsPlain(v, base);
    DigitsAreNumeral(v, base);
    assert m[i..][..|d|][0] == m[i] == d[0];
    assert m[i..][|d|] == m[i + |d|];
    assert DigitValue(d[0], base) >= 0;
    if |d| > 1 { assert m[i..][..|d|][1] == m[i + 1] == d[1] && DigitValue(d[1], base) >= 0; }
  }

  /** strtol reads such text as the C language has it. */
  lemma SignedReads(m: string, n: nat, sign: string, prefix: string, v: nat, given: int, base: nat)
    requires 2 <= base <= 36 && Announces(prefix, given, base, v) && Written(m, n, sign, prefix, v, base)
    ensures var i := n + |sign| + |prefix|; var end := i + |Digits(v, base)|;
            && SignedStart(m, given) == (sign == "-", base, i)
            && RunEnds(m, i, base, end) && ValueOf(m[i..end], base) == v
  {
    StartSeen(m, n, sign, prefix, v, given, base);
    DigitsSeen(m, n, sign, prefix, v, base, n + |sign| + |prefix|);
  }

  lemma DigitsSeen(m: string, n: nat, sign: string, prefix: string, v: nat, base: nat, i: nat)
    requires 2 <= base <= 36 && Written(m, n, sign, prefix, v, base) && i == n + |sign| + |prefix|
    ensures RunEnds(m, i, base, i + |Digits(v, base)|) && ValueOf(m[i..i + |Digits(v, base)|], base) == v
  {
    WrittenAt(m, n, sign, prefix, Digits(v, base));
    DigitsEnd(m, i, v, base);
  }

  lemma StartSeen(m: string, n: nat, sign: string, prefix: string, v: nat, given: int, base: nat)
    requires 2 <= base <= 36 && Announces(prefix, given, base, v) && Written(m, n, sign, prefix, v, base)
    ensures SignedStart(m, given) == (sign == "-", base, n + |sign| + |prefix|)
  {
    WrittenAt(m, n, sign, prefix, Digits(v, base));
    var j := n + |sign|;
    PrefixSeen(m, j, prefix, v, given, base);
    FirstSeen(m, n, sign, prefix, v, base);
    SkipsTo(m, 0, n);
    assert j == if m[n] == '-' || m[n] == '+' then n + 1 else n;
    assert |prefix| == 2 || given != 16 || prefix == "";
  }

  /** What follows the white space is the sign, if there is one, and else neither a sign nor white
      space. */
  lemma FirstSeen(m: string, n: nat, sign: string, prefix: string, v: nat, base: nat)
    requires 2 <= base <= 36 && Written(m, n, sign, prefix, v, base)
    requires prefix == "" || prefix == "0" || prefix == "0x" || prefix == "0X"
    ensures n < |m| && !IsSpace(m[n]) && (m[n] == '-' <==> sign == "-") && (m[n] == '+' <==> sign == "+")
  {
    WrittenAt(m, n, sign, prefix, Digits(v, base));
    DigitsPlain(v, base);
    if sign != "" {
      assert m[n] == sign[0];
    } else if prefix != "" {
      assert m[n] == prefix[0];
    } else {
      assert m[n] == Digits(v, base)[0];
    }
  }

  /** strtoul does the same, but takes no minus sign, and no prefix where base 16 is given. */
  lemma UnsignedReads(m: string, n: nat, sign: string, prefix: string, v: nat, given: int, base: nat)
    requires 2 <= base <= 36 && Announces(prefix, given, base, v) && Written(m, n, sign, prefix, v, base)
    requires sign != "-" && (given != 0 ==> prefix == "")
    ensures var i := n + |sign| + |prefix|; var end := i + |Digits(v, base)|;
            && UnsignedStart(m, given) == (base, i)
            && RunEnds(m, i, base, end) && ValueOf(m[i..end], base) == v
  {
    SignedReads(m, n, sign, prefix, v, given, base);
    WrittenAt(m, n, sign, prefix, Digits(v, base));
    PrefixSeen(m, n + |sign|, prefix, v, given, base);
    FirstSeen(m, n, sign, prefix, v, base);
    SkipsTo(m, 0, n);
  }

  /** Given base 16 and a prefix, strtoul reads the zero of the prefix and stops at its letter. */
  lemma UnsignedStopsAtPrefix(m: string, n: nat, v: nat, prefix: string)
    requires Written(m, n, "", prefix, v, 16) && (prefix == "0x" || prefix == "0X")
    ensures UnsignedStart(m, 16) == (16, n) && RunEnds(m, n, 16, n + 1) && ValueOf(m[n..n + 1], 16) == 0
  {
    WrittenAt(m, n, "", prefix, Digits(v, 16));
    assert m[n] == prefix[0] && m[n + 1] == prefix[1];
    SkipsTo(m, 0, n);
    assert m[n..n + 1] == ['0'] && ['0'][..0] == [];
  }

  /** Of the least number the digits stand for 2^63, in every base, and the sum strtol keeps
      overflows. */
  lemma LeastOverflows(m: string, base: nat)
    requires 2 <= base <= 36 && StartsWith(m, Text(LLONG_MIN, base))
    ensures var (negative, b, i) := SignedStart(m, base);
            var end := |Text(LLONG_MIN, base)|;
            negative && RunEnds(m, i, b, end) && ValueOf(m[i..end], b) == LLONG_MAX + 1
  {
    SignedRoundTrip(m, LLONG_MIN, base);
  }

  method PrintAndRead(v: nat, base: nat, buf: array<char>) returns (r: nat, end: nat)
    requires v < LIMIT_64 && 2 <= base <= 36 && |Text(v, base)| < buf.Length
    modifies buf
    ensures r == v && end == |Text(v, base)|
  {
    Ulltoa(v, buf, base);
    assert buf[|Text(v, base)|] in buf[..];
    r, end := Strtoul(buf[..], base);
    UnsignedRoundTrip(buf[..], v, base, r, end);
  }

  method PrintAndReadSigned(v: int, base: nat, buf: array<char>) returns (r: int, end: nat)
    requires LLONG_MIN < v <= LLONG_MAX && 2 <= base <= 36 && |Text(v, base)| < buf.Length
    modifies buf
    ensures r == v && end == |Text(v, base)|
  {
    Lltoa(v, buf, base);
    assert buf[|Text(v, base)|] in buf[..];
    SignedRoundTrip(buf[..], v, base);
    r, end := Strtol(buf[..], base, |Text(v, base)|);
  }
}
