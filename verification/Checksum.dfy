/** The Internet checksum (net/checksum.c, and ip_checksum of net/ip.c) as sections 1 and 2 of RFC 1071
    describe it.  Words are read in the machine's order, low byte first; the 32-bit sum wraps. */
module Checksum {
  type Byte = x: int | 0 <= x < 256

  const WORD_LIMIT: nat := 0x1_0000
  const SUM_LIMIT: nat := 0x1_0000_0000

  // ----- Specification -----

  function WordOf(lo: int, hi: int): int {
    lo + 256 * hi
  }

  /** The sum of the 16-bit words, an odd last byte being a word of its own. */
  function Sum(data: seq<Byte>): nat {
    if |data| == 0 then 0
    else if |data| == 1 then data[0]
    else WordOf(data[0], data[1]) + Sum(data[2..])
  }

  /** The one's complement residue: congruent to s modulo 65535, and 0 only for 0. */
  function Residue(s: nat): (r: nat)
    ensures r < WORD_LIMIT && (r == 0 <==> s == 0) && r <= s && (s - r) % 65535 == 0
  {
    if s == 0 then 0 else (s - 1) % 65535 + 1
  }

  function Checksum(data: seq<Byte>, init: nat): (c: nat)
    ensures c < WORD_LIMIT
  {
    65535 - Residue((init + Sum(data)) % SUM_LIMIT)
  }

  /** Words are read low byte first, and an odd last byte is a low byte. */
  lemma LowByteFirst(a: Byte, b: Byte)
    ensures Checksum([a, b], 0) == 0xFFFF - a - 0x100 * b && Checksum([a], 0) == 0xFFFF - a
  {
    var s: nat := a + 0x100 * b;
    assert [a, b][2..] == [] && Sum([]) == 0;
    assert Sum([a, b]) == s && Sum([a]) == a;
    ResidueUnique(s, s, 0);
    ResidueUnique(a, a, 0);
  }

  lemma ResidueUnique(s: nat, r: nat, k: nat)
    requires s == r + 65535 * k && r < WORD_LIMIT && (r == 0 ==> s == 0)
    ensures Residue(s) == r
  {
  }

  // ----- The code -----

  lemma FoldOnce(s: nat)
    ensures Residue(s % WORD_LIMIT + s / WORD_LIMIT) == Residue(s)
  {
    var t := s % WORD_LIMIT + s / WORD_LIMIT;
    var r := Residue(t);
    ResidueUnique(s, r, (t - r) / 65535 + s / WORD_LIMIT);
  }

  /** net_checksum_fold ends with the complement of the residue. */
  method Fold(init: nat) returns (c: nat)
    requires init < SUM_LIMIT
    ensures c == 65535 - Residue(init)
  {
    var sum: nat := init;
    while sum / WORD_LIMIT != 0
      invariant 0 <= sum < SUM_LIMIT && Residue(sum) == Residue(init)
      decreases sum
    {
      FoldOnce(sum);
      sum := sum % WORD_LIMIT + sum / WORD_LIMIT;
    }
    ResidueUnique(sum, sum, 0);
    c := (SUM_LIMIT - 1 - sum) % WORD_LIMIT;
  }

  lemma WrapUnique(t: nat, s: nat, k: int)
    requires t == s + SUM_LIMIT * k && s < SUM_LIMIT
    ensures t % SUM_LIMIT == s
  {
  }

  /** net_checksum_add, for any length and start value. */
  method NetChecksum(data: seq<Byte>, init: nat) returns (c: nat)
    requires init < SUM_LIMIT
    ensures c == Checksum(data, init)
  {
    var sum: nat, i := init, 0;
    ghost var carries := 0;
    while |data| - i > 1
      invariant 0 <= i <= |data| && 0 <= sum < SUM_LIMIT
      invariant sum + SUM_LIMIT * carries + Sum(data[i..]) == init + Sum(data)
    {
      assert data[i..][2..] == data[i + 2..];
      ghost var total := sum + WordOf(data[i], data[i + 1]);
      sum := (sum + WordOf(data[i], data[i + 1])) % SUM_LIMIT;
      carries := carries + total / SUM_LIMIT;
      i := i + 2;
    }
    if |data| - i == 1 {
      ghost var total := sum + data[i] as int;
      sum := (sum + data[i] as int) % SUM_LIMIT;
      carries := carries + total / SUM_LIMIT;
    }
    WrapUnique(init + Sum(data), sum, carries);
    c := Fold(sum);
  }

  /** ip_checksum: the same sum and the same fold, written out. */
  method IpChecksum(data: seq<Byte>) returns (c: nat)
    ensures c == Checksum(data, 0)
  {
    var sum: nat, i := 0, 0;
    ghost var carries := 0;
    while |data| - i > 1
      invariant 0 <= i <= |data| && 0 <= sum < SUM_LIMIT
      invariant sum + SUM_LIMIT * carries + Sum(data[i..]) == Sum(data)
    {
      assert data[i..][2..] == data[i + 2..];
      ghost var total := sum + WordOf(data[i], data[i + 1]);
      sum := (sum + WordOf(data[i], data[i + 1])) % SUM_LIMIT;
      carries := carries + total / SUM_LIMIT;
      i := i + 2;
    }
    if |data| - i == 1 {
      ghost var total := sum + data[i] as int;
      sum := (sum + data[i] as int) % SUM_LIMIT;
      carries := carries + total / SUM_LIMIT;
    }
    WrapUnique(Sum(data), sum, carries);
    ghost var folded := sum;
    while sum / WORD_LIMIT != 0
      invariant 0 <= sum < SUM_LIMIT && Residue(sum) == Residue(folded)
      decreases sum
    {
      FoldOnce(sum);
      sum := sum % WORD_LIMIT + sum / WORD_LIMIT;
    }
    ResidueUnique(sum, sum, 0);
    c := (SUM_LIMIT - 1 - sum) % WORD_LIMIT;
  }

  // ----- No overflow -----

  lemma {:induction false} SumBounded(data: seq<Byte>)
    ensures 2 * Sum(data) <= 65535 * (|data| + 1)
  {
    if |data| >= 2 { SumBounded(data[2..]); }
  }

  /** Up to 131072 bytes the 32-bit sum is the true sum. */
  lemma NoOverflow(data: seq<Byte>)
    requires |data| <= 131072
    ensures Sum(data) < SUM_LIMIT && Checksum(data, 0) == 65535 - Residue(Sum(data))
  {
    if |data| == 131072 {
      EvenSumBounded(data);
    } else {
      SumBounded(data);
    }
  }

  lemma {:induction false} EvenSumBounded(data: seq<Byte>)
    requires |data| % 2 == 0
    ensures 2 * Sum(data) <= 65535 * |data|
  {
    if |data| >= 2 { EvenSumBounded(data[2..]); }
  }

  // ----- Laws -----

  lemma {:induction false} SumAppends(a: seq<Byte>, b: seq<Byte>)
    requires |a| % 2 == 0
    ensures Sum(a + b) == Sum(a) + Sum(b)
  {
    if a == [] {
      assert a + b == b;
    } else {
      assert (a + b)[2..] == a[2..] + b;
      SumAppends(a[2..], b);
    }
  }

  lemma ResidueAdd(s: nat, t: nat)
    ensures Residue(Residue(s) + t) == Residue(s + t)
  {
    var r := Residue(s);
    var u := Residue(r + t);
    ResidueUnique(s + t, u, (s - r) / 65535 + (r + t - u) / 65535);
  }

  /** A message can be summed in chunks of even length, each starting from the folded sum of those
      before it. */
  lemma ChunksCompose(a: seq<Byte>, b: seq<Byte>, init: nat)
    requires |a| % 2 == 0 && init + Sum(a + b) < SUM_LIMIT
    requires 65535 + Sum(b) < SUM_LIMIT
    ensures Checksum(b, 65535 - Checksum(a, init)) == Checksum(a + b, init)
  {
    SumAppends(a, b);
    var s, r := init + Sum(a), Residue(init + Sum(a));
    WrapUnique(s, s, 0);
    WrapUnique(s + Sum(b), s + Sum(b), 0);
    WrapUnique(r + Sum(b), r + Sum(b), 0);
    ResidueAdd(s, Sum(b));
  }

  lemma SumSplit(data: seq<Byte>, k: nat)
    requires k % 2 == 0 && k + 1 < |data|
    ensures Sum(data) == Sum(data[..k]) + WordOf(data[k], data[k + 1]) + Sum(data[k + 2..])
  {
    assert data == data[..k] + data[k..] && data[k..][2..] == data[k + 2..];
    SumAppends(data[..k], data[k..]);
  }

  /** data with the word c stored at k, low byte first. */
  function Stored(data: seq<Byte>, k: nat, c: nat): seq<Byte>
    requires k + 1 < |data| && c < WORD_LIMIT
  {
    data[k := c % 256][k + 1 := c / 256]
  }

  /** A message verifies, with checksum 0, exactly if its sum is a positive multiple of 65535. */
  lemma VerifiesIff(data: seq<Byte>)
    requires Sum(data) < SUM_LIMIT
    ensures Checksum(data, 0) == 0 <==> Sum(data) > 0 && Sum(data) % 65535 == 0
  {
    WrapUnique(Sum(data), Sum(data), 0);
    FullResidue(Sum(data));
  }

  lemma FullResidue(s: nat)
    ensures Residue(s) == 65535 <==> s > 0 && s % 65535 == 0
  {
  }

  lemma MultiplesApart(s: nat, t: nat, c: nat, d: nat)
    requires s % 65535 == 0 && t % 65535 == 0 && s - t == c - d && c < WORD_LIMIT && d < WORD_LIMIT
    ensures c == d || c + 65535 == d || d + 65535 == c
  {
    assert s - t == 65535 * (s / 65535 - t / 65535);
  }

  lemma ComplementVerifies(s: nat)
    ensures (s + 65535 - Residue(s)) % 65535 == 0 && s + 65535 - Residue(s) > 0
  {
  }

  /** Storing the checksum in a zeroed aligned field makes the whole verify to 0. */
  lemma StoredVerifies(data: seq<Byte>, k: nat)
    requires |data| <= 131072 && k % 2 == 0 && k + 1 < |data| && data[k] == 0 && data[k + 1] == 0
    ensures Checksum(Stored(data, k, Checksum(data, 0)), 0) == 0
  {
    var c := Checksum(data, 0);
    var data' := Stored(data, k, c);
    NoOverflow(data);
    NoOverflow(data');
    SumSplit(data, k);
    SumSplit(data', k);
    assert data'[..k] == data[..k] && data'[k + 2..] == data[k + 2..];
    assert WordOf(data'[k], data'[k + 1]) == c;
    ComplementVerifies(Sum(data));
    VerifiesIff(data');
  }

  /** A stored word is the only one at its place with which the message verifies, but for 0 and
      65535, which count the same. */
  lemma WrongWordDetected(data: seq<Byte>, k: nat, c: nat, d: nat)
    requires |data| <= 131072 && k % 2 == 0 && k + 1 < |data| && c < WORD_LIMIT && d < WORD_LIMIT
    requires Checksum(Stored(data, k, c), 0) == 0
    requires Checksum(Stored(data, k, d), 0) == 0
    ensures c == d || c + 65535 == d || d + 65535 == c
  {
    var x, y := Stored(data, k, c), Stored(data, k, d);
    SumSplit(x, k);
    SumSplit(y, k);
    assert x[..k] == y[..k] && x[k + 2..] == y[k + 2..];
    assert WordOf(x[k], x[k + 1]) == c && WordOf(y[k], y[k + 1]) == d;
    NoOverflow(x);
    NoOverflow(y);
    VerifiesIff(x);
    VerifiesIff(y);
    MultiplesApart(Sum(x), Sum(y), c, d);
  }

  // ----- Byte order -----

  /** The bytes with an odd one completed to a word. */
  function Padded(data: seq<Byte>): (p: seq<Byte>)
    ensures |p| % 2 == 0
  {
    if |data| % 2 == 0 then data else data + [0]
  }

  function SwapAll(data: seq<Byte>): seq<Byte>
    requires |data| % 2 == 0
  {
    if data == [] then [] else [data[1], data[0]] + SwapAll(data[2..])
  }

  function Swap(w: nat): (v: nat)
    requires w < WORD_LIMIT
    ensures v < WORD_LIMIT
  {
    256 * (w % 256) + w / 256
  }

  lemma {:induction false} SumPadded(data: seq<Byte>)
    ensures Sum(Padded(data)) == Sum(data)
  {
    if |data| >= 2 {
      SumPadded(data[2..]);
      assert Padded(data)[2..] == Padded(data[2..]);
    } else if |data| == 1 {
      assert Padded(data)[2..] == [];
    }
  }

  /** Swapping multiplies by 256 modulo 65535. */
  lemma {:induction false} SumSwapped(data: seq<Byte>) returns (k: int)
    requires |data| % 2 == 0
    ensures 256 * Sum(data) == Sum(SwapAll(data)) + 65535 * k
    ensures Sum(data) == 0 <==> Sum(SwapAll(data)) == 0
  {
    if data == [] {
      k := 0;
    } else {
      var rest := SumSwapped(data[2..]);
      assert SwapAll(data)[2..] == SwapAll(data[2..]);
      k := rest + data[1];
    }
  }

  lemma ResidueSwapped(s: nat, t: nat, k: int)
    requires 256 * s == t + 65535 * k && (s == 0 <==> t == 0)
    ensures Residue(t) == Swap(Residue(s))
  {
    var r := Residue(s);
    var v := Swap(r);
    var q := (s - r) / 65535;
    assert s == r + 65535 * q;
    assert 256 * r == v + 65535 * (r / 256);
    SwapUnique(t, v, 256 * q + r / 256 - k);
  }

  lemma SwapUnique(t: nat, v: nat, m: int)
    requires t == v + 65535 * m && v < WORD_LIMIT && (v == 0 <==> t == 0)
    ensures Residue(t) == v
  {
  }

  /** On a machine of the other byte order the checksum comes out with its bytes swapped, and so
      reads the same in memory. */
  lemma ByteOrderIndependent(data: seq<Byte>)
    requires |data| <= 131072
    ensures Checksum(SwapAll(Padded(data)), 0) == Swap(Checksum(data, 0))
  {
    var p := Padded(data);
    SumPadded(data);
    var k := SumSwapped(p);
    SwapLength(p);
    NoOverflow(data);
    NoOverflow(SwapAll(p));
    ResidueSwapped(Sum(data), Sum(SwapAll(p)), k);
    SwapComplement(Residue(Sum(data)));
  }

  lemma {:induction false} SwapLength(data: seq<Byte>)
    requires |data| % 2 == 0
    ensures |SwapAll(data)| == |data|
  {
    if data != [] { SwapLength(data[2..]); }
  }

  lemma SwapComplement(r: nat)
    requires r < WORD_LIMIT
    ensures Swap(65535 - r) == 65535 - Swap(r)
  {
  }
}
