/** CRC-32 (lib/crc32.c): the table-driven update against bit-serial polynomial division, as the
    frame check sequence of section 3.2.9 of IEEE Std 802.3-2018 is defined.

    A polynomial over GF(2) is the sequence of its coefficients, highest power first.  The register
    holds the coefficient of x^31 in bit 0, and bytes enter lowest bit first. */
module Crc32 {
  // ----- The table -----

  /** g_crc32_table, sixteen entries to a row: entry x is in row x >> 4. */
  function Row(h: bv8): (row: seq<bv32>)
    ensures |row| == 16
  {
    match h
    case 0 => [
      0x00000000, 0x77073096, 0xee0e612c, 0x990951ba, 0x076dc419, 0x706af48f, 0xe963a535, 0x9e6495a3,
      0x0edb8832, 0x79dcb8a4, 0xe0d5e91e, 0x97d2d988, 0x09b64c2b, 0x7eb17cbd, 0xe7b82d07, 0x90bf1d91]
    case 1 => [
      0x1db71064, 0x6ab020f2, 0xf3b97148, 0x84be41de, 0x1adad47d, 0x6ddde4eb, 0xf4d4b551, 0x83d385c7,
      0x136c9856, 0x646ba8c0, 0xfd62f97a, 0x8a65c9ec, 0x14015c4f, 0x63066cd9, 0xfa0f3d63, 0x8d080df5]
    case 2 => [
      0x3b6e20c8, 0x4c69105e, 0xd56041e4, 0xa2677172, 0x3c03e4d1, 0x4b04d447, 0xd20d85fd, 0xa50ab56b,
      0x35b5a8fa, 0x42b2986c, 0xdbbbc9d6, 0xacbcf940, 0x32d86ce3, 0x45df5c75, 0xdcd60dcf, 0xabd13d59]
    case 3 => [
      0x26d930ac, 0x51de003a, 0xc8d75180, 0xbfd06116, 0x21b4f4b5, 0x56b3c423, 0xcfba9599, 0xb8bda50f,
      0x2802b89e, 0x5f058808, 0xc60cd9b2, 0xb10be924, 0x2f6f7c87, 0x58684c11, 0xc1611dab, 0xb6662d3d]
    case 4 => [
      0x76dc4190, 0x01db7106, 0x98d220bc, 0xefd5102a, 0x71b18589, 0x06b6b51f, 0x9fbfe4a5, 0xe8b8d433,
      0x7807c9a2, 0x0f00f934, 0x9609a88e, 0xe10e9818, 0x7f6a0dbb, 0x086d3d2d, 0x91646c97, 0xe6635c01]
    case 5 => [
      0x6b6b51f4, 0x1c6c6162, 0x856530d8, 0xf262004e, 0x6c0695ed, 0x1b01a57b, 0x8208f4c1, 0xf50fc457,
      0x65b0d9c6, 0x12b7e950, 0x8bbeb8ea, 0xfcb9887c, 0x62dd1ddf, 0x15da2d49, 0x8cd37cf3, 0xfbd44c65]
    case 6 => [
      0x4db26158, 0x3ab551ce, 0xa3bc0074, 0xd4bb30e2, 0x4adfa541, 0x3dd895d7, 0xa4d1c46d, 0xd3d6f4fb,
      0x4369e96a, 0x346ed9fc, 0xad678846, 0xda60b8d0, 0x44042d73, 0x33031de5, 0xaa0a4c5f, 0xdd0d7cc9]
    case 7 => [
      0x5005713c, 0x270241aa, 0xbe0b1010, 0xc90c2086, 0x5768b525, 0x206f85b3, 0xb966d409, 0xce61e49f,
      0x5edef90e, 0x29d9c998, 0xb0d09822, 0xc7d7a8b4, 0x59b33d17, 0x2eb40d81, 0xb7bd5c3b, 0xc0ba6cad]
    case 8 => [
      0xedb88320, 0x9abfb3b6, 0x03b6e20c, 0x74b1d29a, 0xead54739, 0x9dd277af, 0x04db2615, 0x73dc1683,
      0xe3630b12, 0x94643b84, 0x0d6d6a3e, 0x7a6a5aa8, 0xe40ecf0b, 0x9309ff9d, 0x0a00ae27, 0x7d079eb1]
    case 9 => [
      0xf00f9344, 0x8708a3d2, 0x1e01f268, 0x6906c2fe, 0xf762575d, 0x806567cb, 0x196c3671, 0x6e6b06e7,
      0xfed41b76, 0x89d32be0, 0x10da7a5a, 0x67dd4acc, 0xf9b9df6f, 0x8ebeeff9, 0x17b7be43, 0x60b08ed5]
    case 10 => [
      0xd6d6a3e8, 0xa1d1937e, 0x38d8c2c4, 0x4fdff252, 0xd1bb67f1, 0xa6bc5767, 0x3fb506dd, 0x48b2364b,
      0xd80d2bda, 0xaf0a1b4c, 0x36034af6, 0x41047a60, 0xdf60efc3, 0xa867df55, 0x316e8eef, 0x4669be79]
    case 11 => [
      0xcb61b38c, 0xbc66831a, 0x256fd2a0, 0x5268e236, 0xcc0c7795, 0xbb0b4703, 0x220216b9, 0x5505262f,
      0xc5ba3bbe, 0xb2bd0b28, 0x2bb45a92, 0x5cb36a04, 0xc2d7ffa7, 0xb5d0cf31, 0x2cd99e8b, 0x5bdeae1d]
    case 12 => [
      0x9b64c2b0, 0xec63f226, 0x756aa39c, 0x026d930a, 0x9c0906a9, 0xeb0e363f, 0x72076785, 0x05005713,
      0x95bf4a82, 0xe2b87a14, 0x7bb12bae, 0x0cb61b38, 0x92d28e9b, 0xe5d5be0d, 0x7cdcefb7, 0x0bdbdf21]
    case 13 => [
      0x86d3d2d4, 0xf1d4e242, 0x68ddb3f8, 0x1fda836e, 0x81be16cd, 0xf6b9265b, 0x6fb077e1, 0x18b74777,
      0x88085ae6, 0xff0f6a70, 0x66063bca, 0x11010b5c, 0x8f659eff, 0xf862ae69, 0x616bffd3, 0x166ccf45]
    case 14 => [
      0xa00ae278, 0xd70dd2ee, 0x4e048354, 0x3903b3c2, 0xa7672661, 0xd06016f7, 0x4969474d, 0x3e6e77db,
      0xaed16a4a, 0xd9d65adc, 0x40df0b66, 0x37d83bf0, 0xa9bcae53, 0xdebb9ec5, 0x47b2cf7f, 0x30b5ffe9]
    case _ => [
      0xbdbdf21c, 0xcabac28a, 0x53b39330, 0x24b4a3a6, 0xbad03605, 0xcdd70693, 0x54de5729, 0x23d967bf,
      0xb3667a2e, 0xc4614ab8, 0x5d681b02, 0x2a6f2b94, 0xb40bbe37, 0xc30c8ea1, 0x5a05df1b, 0x2d02ef8d]
  }

  function Entry(x: bv8): bv32 {
    NibbleInRange(x);
    Row(x >> 4)[(x & 15) as int]
  }

  lemma NibbleInRange(x: bv8)
    ensures (x & 15) as int < 16
  {
    var l := x & 15;
    assert l < 16;
  }

  // ----- Polynomials over GF(2) -----

  type Bits = seq<bool>

  function Xor(x: Bits, y: Bits): (z: Bits)
    requires |x| == |y|
    ensures |z| == |x|
  {
    seq(|x|, i requires 0 <= i < |x| => x[i] != y[i])
  }

  function Not(x: Bits): (z: Bits)
    ensures |z| == |x|
  {
    seq(|x|, i requires 0 <= i < |x| => !x[i])
  }

  function Zeros(n: nat): (z: Bits)
    ensures |z| == n
  {
    seq(n, i => false)
  }

  /** The 32 coefficients of x^32 + x^26 + ... + 1 below the first. */
  function Generator(): (g: Bits)
    ensures |g| == 32 && g[31]
  {
    seq(32, i => 31 - i in {26, 23, 22, 16, 12, 11, 10, 8, 7, 5, 4, 2, 1, 0})
  }

  /** p with the polynomial r added to its leading 32 coefficients. */
  function Lead(p: Bits, r: Bits): (q: Bits)
    requires |r| == 32 <= |p|
    ensures |q| == |p|
  {
    Xor(p[..32], r) + p[32..]
  }

  /** Long division: the remainder of p modulo the generator. */
  function Remainder(p: Bits): (r: Bits)
    requires |p| >= 32
    ensures |r| == 32
    decreases |p|
  {
    if |p| == 32 then p else Remainder(if p[0] then Lead(p[1..], Generator()) else p[1..])
  }

  // ----- The register, one bit at a time -----

  function Step(r: Bits): (t: Bits)
    requires |r| == 32
    ensures |t| == 32
  {
    var shifted := r[1..] + [false];
    if r[0] then Xor(shifted, Generator()) else shifted
  }

  function Feed(r: Bits, bits: Bits): (t: Bits)
    requires |r| == 32
    ensures |t| == 32
    decreases |bits|
  {
    if bits == [] then r else Feed(Step(r[0 := r[0] != bits[0]]), bits[1..])
  }

  lemma StepLinear(r: Bits, s: Bits)
    requires |r| == |s| == 32
    ensures Step(Xor(r, s)) == Xor(Step(r), Step(s))
  {
  }

  lemma {:induction false} FeedLinear(r: Bits, s: Bits, p: Bits, q: Bits)
    requires |r| == |s| == 32 && |p| == |q|
    ensures Feed(Xor(r, s), Xor(p, q)) == Xor(Feed(r, p), Feed(s, q))
    decreases |p|
  {
    if p != [] {
      var r', s' := r[0 := r[0] != p[0]], s[0 := s[0] != q[0]];
      StepLinear(r', s');
      assert Xor(r, s)[0 := Xor(r, s)[0] != Xor(p, q)[0]] == Xor(r', s');
      assert Xor(p, q)[1..] == Xor(p[1..], q[1..]);
      FeedLinear(Step(r'), Step(s'), p[1..], q[1..]);
    }
  }

  lemma {:induction false} FeedAppends(r: Bits, p: Bits, q: Bits)
    requires |r| == 32
    ensures Feed(r, p + q) == Feed(Feed(r, p), q)
    decreases |p|
  {
    if p == [] {
      assert p + q == q;
    } else {
      assert (p + q)[1..] == p[1..] + q;
      FeedAppends(Step(r[0 := r[0] != p[0]]), p[1..], q);
    }
  }

  /** One round of the division is one step of the register. */
  lemma DivisionStep(r: Bits, bits: Bits)
    requires |r| == 32 && |bits| > 0
    ensures var p := Lead(bits + Zeros(32), r);
            (if p[0] then Lead(p[1..], Generator()) else p[1..]) ==
            Lead(bits[1..] + Zeros(32), Step(r[0 := r[0] != bits[0]]))
  {
    var z, z', s := bits + Zeros(32), bits[1..] + Zeros(32), r[0 := r[0] != bits[0]];
    var p, q := Lead(z, r), Lead(z', Step(s));
    var p' := if p[0] then Lead(p[1..], Generator()) else p[1..];
    assert z[1..] == z';
    forall i | 0 <= i < |q| ensures p'[i] == q[i] {
      assert p[1..][i] == p[i + 1];
      if i < 32 {
        assert q[i] == (z'[i] != Step(s)[i]);
        assert p[i + 1] == if i < 31 then z[i + 1] != r[i + 1] else z[i + 1];
      }
    }
  }

  /** The register after some bits is the remainder of those bits times x^32, with what the register
      held added to the leading coefficients. */
  lemma {:induction false} FeedDivides(r: Bits, bits: Bits)
    requires |r| == 32
    ensures Feed(r, bits) == Remainder(Lead(bits + Zeros(32), r))
    decreases |bits|
  {
    if bits == [] {
      assert Lead(bits + Zeros(32), r) == r;
    } else {
      DivisionStep(r, bits);
      FeedDivides(Step(r[0 := r[0] != bits[0]]), bits[1..]);
    }
  }

  function Steps(r: Bits, n: nat): (t: Bits)
    requires |r| == 32
    ensures |t| == 32
    decreases n, r
  {
    if n == 0 then r else Steps(Step(r), n - 1)
  }

  lemma {:induction false} StepsLinear(r: Bits, s: Bits, n: nat)
    requires |r| == |s| == 32
    ensures Steps(Xor(r, s), n) == Xor(Steps(r, n), Steps(s, n))
    decreases n
  {
    if n > 0 {
      StepLinear(r, s);
      StepsLinear(Step(r), Step(s), n - 1);
    }
  }

  /** Feeding up to 32 bits is adding them to the register first and stepping after. */
  lemma {:induction false} FeedIsSteps(r: Bits, p: Bits)
    requires |r| == 32 && |p| <= 32
    ensures Feed(r, p) == Steps(Xor(r, p + Zeros(32 - |p|)), |p|)
    decreases |p|
  {
    if p == [] {
      assert Xor(r, p + Zeros(32)) == r;
    } else {
      var r', p' := r[0 := r[0] != p[0]], p[1..];
      var waiting := [false] + p' + Zeros(32 - |p|);
      assert Xor(r, p + Zeros(32 - |p|)) == Xor(r', waiting);
      StepLinear(r', waiting);
      assert Step(waiting) == p' + Zeros(32 - |p'|);
      FeedIsSteps(Step(r'), p');
    }
  }

  // ----- Machine words -----

  const POLY: bv32 := 0xedb88320

  /** The n lowest bits, lowest first. */
  function LowBits(c: bv32, n: nat): (bits: Bits)
    ensures |bits| == n
    decreases n, c
  {
    if n == 0 then [] else [c & 1 == 1] + LowBits(c >> 1, n - 1)
  }

  function Word(c: bv32): Bits {
    LowBits(c, 32)
  }

  function Shr(c: bv32, n: nat): bv32
    decreases n, c
  {
    if n == 0 then c else Shr(c >> 1, n - 1)
  }

  lemma HalveXor(a: bv32, b: bv32, c: bv32) returns (x: bv32, y: bv32, z: bv32)
    requires c == a ^ b
    ensures x == a >> 1 && y == b >> 1 && z == c >> 1 && z == x ^ y
    ensures c & 1 == 1 <==> (a & 1 == 1) != (b & 1 == 1)
  {
    x, y, z := a >> 1, b >> 1, c >> 1;
  }

  lemma XorCons(x: bool, y: bool, p: Bits, q: Bits)
    requires |p| == |q|
    ensures Xor([x] + p, [y] + q) == [x != y] + Xor(p, q)
  {
  }

  lemma {:induction false} LowBitsXor(a: bv32, b: bv32, c: bv32, n: nat)
    requires c == a ^ b
    ensures LowBits(c, n) == Xor(LowBits(a, n), LowBits(b, n))
    decreases n
  {
    if n > 0 {
      var x, y, z := HalveXor(a, b, c);
      LowBitsXor(x, y, z, n - 1);
      XorCons(a & 1 == 1, b & 1 == 1, LowBits(x, n - 1), LowBits(y, n - 1));
    }
  }

  lemma {:induction false} LowBitsSplit(c: bv32, m: nat, n: nat)
    ensures LowBits(c, m + n) == LowBits(c, m) + LowBits(Shr(c, m), n)
    decreases m
  {
    if m > 0 { LowBitsSplit(c >> 1, m - 1, n); }
  }

  lemma {:induction false} ShrAdd(c: bv32, m: nat, n: nat)
    ensures Shr(c, m + n) == Shr(Shr(c, m), n)
    decreases m
  {
    if m > 0 { ShrAdd(c >> 1, m - 1, n); }
  }

  lemma ShiftOne(c: bv32, d: bv32, n: nat)
    requires d == c >> 1
    ensures Shr(c, n + 1) == Shr(d, n) && LowBits(c, n + 1) == [c & 1 == 1] + LowBits(d, n)
  {
  }

  lemma ShiftEight(c0: bv32, c1: bv32, c2: bv32, c3: bv32, c4: bv32, c5: bv32, c6: bv32, c7: bv32, c8: bv32)
    requires c1 == c0 >> 1 && c2 == c1 >> 1 && c3 == c2 >> 1 && c4 == c3 >> 1
    requires c5 == c4 >> 1 && c6 == c5 >> 1 && c7 == c6 >> 1 && c8 == c7 >> 1
    ensures Shr(c0, 8) == c8
    ensures LowBits(c0, 8) == [c0 & 1 == 1] + ([c1 & 1 == 1] + ([c2 & 1 == 1] + ([c3 & 1 == 1] +
                              ([c4 & 1 == 1] + ([c5 & 1 == 1] + ([c6 & 1 == 1] + ([c7 & 1 == 1] + [])))))))
  {
    ShiftOne(c0, c1, 7);
    ShiftOne(c1, c2, 6);
    ShiftOne(c2, c3, 5);
    ShiftOne(c3, c4, 4);
    ShiftOne(c4, c5, 3);
    ShiftOne(c5, c6, 2);
    ShiftOne(c6, c7, 1);
    ShiftOne(c7, c8, 0);
  }

  lemma EightShifts(c: bv32)
    ensures (((((((c >> 1) >> 1) >> 1) >> 1) >> 1) >> 1) >> 1) >> 1 == c >> 8
  {
  }

  lemma ShrEight(c: bv32)
    ensures Shr(c, 8) == c >> 8
  {
    var c1 := c >> 1;
    var c2 := c1 >> 1;
    var c3 := c2 >> 1;
    var c4 := c3 >> 1;
    var c5 := c4 >> 1;
    var c6 := c5 >> 1;
    var c7 := c6 >> 1;
    ShiftEight(c, c1, c2, c3, c4, c5, c6, c7, c7 >> 1);
    EightShifts(c);
  }

  lemma ShrAll(c: bv32)
    ensures Shr(c, 32) == 0
  {
    var d := c >> 8;
    var e := d >> 8;
    var f := e >> 8;
    ShrEight(c);
    ShrEight(d);
    ShrEight(e);
    ShrEight(f);
    ShrAdd(c, 8, 24);
    ShrAdd(d, 8, 16);
    ShrAdd(e, 8, 8);
    assert f >> 8 == 0;
  }

  lemma {:induction false} LowBitsZero(n: nat)
    ensures LowBits(0, n) == Zeros(n)
  {
    if n > 0 {
      LowBitsZero(n - 1);
      assert Zeros(n) == [false] + Zeros(n - 1);
    }
  }

  lemma WordHalf(c: bv32)
    ensures Word(c >> 1) == Word(c)[1..] + [false] && Word(c)[0] == (c & 1 == 1)
  {
    var d := c >> 1;
    LowBitsSplit(d, 31, 1);
    assert Shr(c, 32) == Shr(d, 31);
    ShrAll(c);
    LowBitsZero(1);
    assert LowBits(Shr(d, 31), 1) == [false];
  }

  lemma GeneratorOctets()
    ensures Generator() == [false, false, false, false, false, true, false, false]
                         + [true, true, false, false, false, false, false, true]
                         + [false, false, false, true, true, true, false, true]
                         + [true, false, true, true, false, true, true, true]
  {
  }

  /** A word is its four bytes. */
  lemma WordOctets(c: bv32, d: bv32, e: bv32, f: bv32)
    requires d == c >> 8 && e == d >> 8 && f == e >> 8
    ensures Word(c) == LowBits(c, 8) + LowBits(d, 8) + LowBits(e, 8) + LowBits(f, 8)
  {
    ShrEight(c);
    ShrEight(d);
    ShrEight(e);
    LowBitsSplit(c, 8, 24);
    LowBitsSplit(d, 8, 16);
    LowBitsSplit(e, 8, 8);
    Regroup(LowBits(c, 8), LowBits(d, 8), LowBits(e, 8), LowBits(f, 8));
  }

  lemma Regroup(p: Bits, q: Bits, r: Bits, s: Bits)
    ensures p + (q + (r + s)) == p + q + r + s
  {
  }

  lemma PolyIsGenerator()
    ensures Word(POLY) == Generator()
  {
    GeneratorOctets();
    WordOctets(POLY, 0xedb883, 0xedb8, 0xed);
    ShiftEight(0xedb88320, 0x76dc4190, 0x3b6e20c8, 0x1db71064, 0xedb8832, 0x76dc419, 0x3b6e20c, 0x1db7106, 0xedb883);
    ShiftEight(0xedb883, 0x76dc41, 0x3b6e20, 0x1db710, 0xedb88, 0x76dc4, 0x3b6e2, 0x1db71, 0xedb8);
    ShiftEight(0xedb8, 0x76dc, 0x3b6e, 0x1db7, 0xedb, 0x76d, 0x3b6, 0x1db, 0xed);
    ShiftEight(0xed, 0x76, 0x3b, 0x1d, 0xe, 0x7, 0x3, 0x1, 0x0);
  }

  // ----- The table divides -----

  /** The step of the register on machine words. */
  function WordStep(c: bv32): bv32 {
    if c & 1 == 1 then (c >> 1) ^ POLY else c >> 1
  }

  function Residue(c: bv32): bv32 {
    WordStep(WordStep(WordStep(WordStep(WordStep(WordStep(WordStep(WordStep(c))))))))
  }

  lemma Rows0Divide(h: bv8, l: bv8)
    requires h < 4 && l < 16
    ensures (l as int) < 16 && Row(h)[l as int] == Residue(((h << 4) ^ l) as bv32)
  {
    match h {
      case 0 => match l {
        case 0 => case 1 => case 2 => case 3 => case 4 => case 5 => case 6 => case 7 =>
        case 8 => case 9 => case 10 => case 11 => case 12 => case 13 => case 14 => case _ => }
      case 1 => match l {
        case 0 => case 1 => case 2 => case 3 => case 4 => case 5 => case 6 => case 7 =>
        case 8 => case 9 => case 10 => case 11 => case 12 => case 13 => case 14 => case _ => }
      case 2 => match l {
        case 0 => case 1 => case 2 => case 3 => case 4 => case 5 => case 6 => case 7 =>
        case 8 => case 9 => case 10 => case 11 => case 12 => case 13 => case 14 => case _ => }
      case _ => match l {
        case 0 => case 1 => case 2 => case 3 => case 4 => case 5 => case 6 => case 7 =>
        case 8 => case 9 => case 10 => case 11 => case 12 => case 13 => case 14 => case _ => }
    }
  }

  lemma Rows4Divide(h: bv8, l: bv8)
    requires 4 <= h < 8 && l < 16
    ensures (l as int) < 16 && Row(h)[l as int] == Residue(((h << 4) ^ l) as bv32)
  {
    match h {
      case 4 => match l {
        case 0 => case 1 => case 2 => case 3 => case 4 => case 5 => case 6 => case 7 =>
        case 8 => case 9 => case 10 => case 11 => case 12 => case 13 => case 14 => case _ => }
      case 5 => match l {
        case 0 => case 1 => case 2 => case 3 => case 4 => case 5 => case 6 => case 7 =>
        case 8 => case 9 => case 10 => case 11 => case 12 => case 13 => case 14 => case _ => }
      case 6 => match l {
        case 0 => case 1 => case 2 => case 3 => case 4 => case 5 => case 6 => case 7 =>
        case 8 => case 9 => case 10 => case 11 => case 12 => case 13 => case 14 => case _ => }
      case _ => match l {
        case 0 => case 1 => case 2 => case 3 => case 4 => case 5 => case 6 => case 7 =>
        case 8 => case 9 => case 10 => case 11 => case 12 => case 13 => case 14 => case _ => }
    }
  }

  lemma Rows8Divide(h: bv8, l: bv8)
    requires 8 <= h < 12 && l < 16
    ensures (l as int) < 16 && Row(h)[l as int] == Residue(((h << 4) ^ l) as bv32)
  {
    match h {
      case 8 => match l {
        case 0 => case 1 => case 2 => case 3 => case 4 => case 5 => case 6 => case 7 =>
        case 8 => case 9 => case 10 => case 11 => case 12 => case 13 => case 14 => case _ => }
      case 9 => match l {
        case 0 => case 1 => case 2 => case 3 => case 4 => case 5 => case 6 => case 7 =>
        case 8 => case 9 => case 10 => case 11 => case 12 => case 13 => case 14 => case _ => }
      case 10 => match l {
        case 0 => case 1 => case 2 => case 3 => case 4 => case 5 => case 6 => case 7 =>
        case 8 => case 9 => case 10 => case 11 => case 12 => case 13 => case 14 => case _ => }
      case _ => match l {
        case 0 => case 1 => case 2 => case 3 => case 4 => case 5 => case 6 => case 7 =>
        case 8 => case 9 => case 10 => case 11 => case 12 => case 13 => case 14 => case _ => }
    }
  }

  lemma Rows12Divide(h: bv8, l: bv8)
    requires 12 <= h < 16 && l < 16
    ensures (l as int) < 16 && Row(h)[l as int] == Residue(((h << 4) ^ l) as bv32)
  {
    match h {
      case 12 => match l {
        case 0 => case 1 => case 2 => case 3 => case 4 => case 5 => case 6 => case 7 =>
        case 8 => case 9 => case 10 => case 11 => case 12 => case 13 => case 14 => case _ => }
      case 13 => match l {
        case 0 => case 1 => case 2 => case 3 => case 4 => case 5 => case 6 => case 7 =>
        case 8 => case 9 => case 10 => case 11 => case 12 => case 13 => case 14 => case _ => }
      case 14 => match l {
        case 0 => case 1 => case 2 => case 3 => case 4 => case 5 => case 6 => case 7 =>
        case 8 => case 9 => case 10 => case 11 => case 12 => case 13 => case 14 => case _ => }
      case _ => match l {
        case 0 => case 1 => case 2 => case 3 => case 4 => case 5 => case 6 => case 7 =>
        case 8 => case 9 => case 10 => case 11 => case 12 => case 13 => case 14 => case _ => }
    }
  }

  lemma Nibbles(x: bv8)
    ensures x >> 4 < 16 && x & 15 < 16 && ((x >> 4) << 4) ^ (x & 15) == x
  {
  }

  /** Every entry of the table is the residue of its index after eight steps. */
  lemma EntryDivides(x: bv8)
    ensures Entry(x) == Residue(x as bv32)
  {
    var h, l := x >> 4, x & 15;
    Nibbles(x);
    if h < 4 {
      Rows0Divide(h, l);
    } else if h < 8 {
      Rows4Divide(h, l);
    } else if h < 12 {
      Rows8Divide(h, l);
    } else {
      Rows12Divide(h, l);
    }
  }

  lemma WordXor(a: bv32, b: bv32)
    ensures Word(a ^ b) == Xor(Word(a), Word(b))
  {
    LowBitsXor(a, b, a ^ b, 32);
  }

  lemma WordStepIsStep(c: bv32)
    ensures Word(WordStep(c)) == Step(Word(c))
  {
    WordHalf(c);
    if c & 1 == 1 {
      PolyIsGenerator();
      WordXor(c >> 1, POLY);
    }
  }

  function WordSteps(c: bv32, n: nat): bv32
    decreases n, c
  {
    if n == 0 then c else WordSteps(WordStep(c), n - 1)
  }

  lemma {:induction false} WordStepsAreSteps(c: bv32, n: nat)
    ensures Word(WordSteps(c, n)) == Steps(Word(c), n)
    decreases n
  {
    if n > 0 {
      WordStepIsStep(c);
      WordStepsAreSteps(WordStep(c), n - 1);
    }
  }

  lemma WordStepsTwo(c: bv32, n: nat)
    ensures WordSteps(c, n + 2) == WordSteps(WordStep(WordStep(c)), n)
  {
    assert WordSteps(c, n + 2) == WordSteps(WordStep(c), n + 1);
  }

  lemma ResidueIsSteps(c: bv32)
    ensures Word(Residue(c)) == Steps(Word(c), 8)
  {
    WordStepsAreSteps(c, 8);
    var c2 := WordStep(WordStep(c));
    var c4 := WordStep(WordStep(c2));
    var c6 := WordStep(WordStep(c4));
    WordStepsTwo(c, 6);
    WordStepsTwo(c2, 4);
    WordStepsTwo(c4, 2);
    WordStepsTwo(c6, 0);
  }

  // ----- The update -----

  /** The bits of a byte string, in the order they enter. */
  function AllBits(data: seq<bv8>): Bits {
    if data == [] then [] else AllBits(data[..|data| - 1]) + LowBits(data[|data| - 1] as bv32, 8)
  }

  /** g_crc32_table[x], for what it is worth: eight steps of the register holding x. */
  method Lookup(x: bv8, ghost lo: bv32) returns (e: bv32)
    requires lo == x as bv32
    ensures Word(e) == Steps(Word(lo), 8)
  {
    EntryDivides(x);
    ResidueIsSteps(lo);
    e := Entry(x);
  }

  lemma HighBits(y: bv32)
    ensures Residue(y & 0xffffff00) == y >> 8
  {
  }

  lemma HighSteps(y: bv32, hi: bv32, d: bv32)
    requires hi == y & 0xffffff00 && d == y >> 8
    ensures Steps(Word(hi), 8) == Word(d)
  {
    HighBits(y);
    ResidueIsSteps(hi);
  }

  lemma SplitSteps(y: bv32, lo: bv32, hi: bv32, e: bv32, d: bv32)
    requires y == lo ^ hi && Word(e) == Steps(Word(lo), 8) && Word(d) == Steps(Word(hi), 8)
    ensures Word(e ^ d) == Steps(Word(y), 8)
  {
    LowBitsXor(lo, hi, y, 32);
    StepsLinear(Word(lo), Word(hi), 8);
    WordXor(e, d);
  }

  lemma MaskSplits(y: bv32)
    ensures y == (y & 0xff) ^ (y & 0xffffff00)
  {
  }

  lemma HighUnchanged(c: bv32, w: bv32, y: bv32, d: bv32)
    requires w >> 8 == 0 && y == c ^ w && d == c >> 8
    ensures d == y >> 8
  {
  }

  lemma ByteIsLow(b: bv8, w: bv32)
    requires w == b as bv32
    ensures w >> 8 == 0
  {
  }

  lemma IndexIsLow(y: bv32, x: bv8, lo: bv32)
    requires lo == y & 0xff && x == (y & 0xff) as bv8
    ensures lo == x as bv32
  {
  }

  lemma ByteWord(w: bv32)
    requires w >> 8 == 0
    ensures Word(w) == LowBits(w, 8) + Zeros(24)
  {
    LowBitsSplit(w, 8, 24);
    ShrEight(w);
    LowBitsZero(24);
  }

  lemma FeedByte(c: bv32, w: bv32, y: bv32)
    requires y == c ^ w && w >> 8 == 0
    ensures Feed(Word(c), LowBits(w, 8)) == Steps(Word(y), 8)
  {
    ByteWord(w);
    LowBitsXor(c, w, y, 32);
    FeedIsSteps(Word(c), LowBits(w, 8));
  }

  lemma StepPieces(c: bv32, w: bv32, y: bv32, lo: bv32, hi: bv32, d: bv32, e: bv32)
    requires y == c ^ w && w >> 8 == 0 && y == lo ^ hi && hi == y & 0xffffff00 && d == y >> 8
    requires Word(e) == Steps(Word(lo), 8)
    ensures Word(e ^ d) == Feed(Word(c), LowBits(w, 8))
  {
    HighSteps(y, hi, d);
    SplitSteps(y, lo, hi, e, d);
    FeedByte(c, w, y);
  }

  /** A table step is eight bits of division. */
  lemma TableStepFeeds(c: bv32, w: bv32, y: bv32, lo: bv32, hi: bv32, d: bv32, e: bv32)
    requires w >> 8 == 0 && y == c ^ w && lo == y & 0xff && hi == y & 0xffffff00 && d == c >> 8
    requires Word(e) == Steps(Word(lo), 8)
    ensures Word(e ^ d) == Feed(Word(c), LowBits(w, 8))
  {
    MaskSplits(y);
    HighUnchanged(c, w, y, d);
    StepPieces(c, w, y, lo, hi, d, e);
  }

  lemma Pieces(c: bv32, w: bv32) returns (y: bv32, lo: bv32, hi: bv32, d: bv32)
    ensures y == c ^ w && lo == y & 0xff && hi == y & 0xffffff00 && d == c >> 8
  {
    y := c ^ w;
    lo, hi, d := y & 0xff, y & 0xffffff00, c >> 8;
  }

  /** One round of crc32_update. */
  method TableStep(c: bv32, b: bv8, ghost w: bv32) returns (r: bv32)
    requires w == b as bv32
    ensures Word(r) == Feed(Word(c), LowBits(w, 8))
  {
    ghost var y, lo, hi, d := Pieces(c, w);
    var x := ((c ^ (b as bv32)) & 0xff) as bv8;
    ByteIsLow(b, w);
    IndexIsLow(y, x, lo);
    var e := Lookup(x, lo);
    TableStepFeeds(c, w, y, lo, hi, d, e);
    r := e ^ (c >> 8);
  }

  lemma FeedNext(r: Bits, data: seq<bv8>, i: nat)
    requires |r| == 32 && i < |data|
    ensures Feed(r, AllBits(data[..i + 1])) == Feed(Feed(r, AllBits(data[..i])), LowBits(data[i] as bv32, 8))
  {
    assert data[..i + 1][..i] == data[..i];
    FeedAppends(r, AllBits(data[..i]), LowBits(data[i] as bv32, 8));
  }

  /** The specification of crc32_update on the 32 bits of its first argument. */
  function Updated(crc: Bits, data: seq<bv8>): (r: Bits)
    requires |crc| == 32
    ensures |r| == 32
  {
    Not(Feed(Not(crc), AllBits(data)))
  }

  lemma WordNot(c: bv32)
    ensures Word(!c) == Not(Word(c))
  {
    AllOnes();
    assert !c == c ^ 0xffffffff;
    LowBitsXor(c, 0xffffffff, !c, 32);
    NotIsXor(Word(c));
  }

  lemma NotIsXor(x: Bits)
    ensures Not(x) == Xor(x, Not(Zeros(|x|)))
  {
  }

  lemma AllOnes()
    ensures Word(0xffffffff) == Not(Zeros(32))
  {
    WordOctets(0xffffffff, 0xffffff, 0xffff, 0xff);
    ShiftEight(0xffffffff, 0x7fffffff, 0x3fffffff, 0x1fffffff, 0xfffffff, 0x7ffffff, 0x3ffffff, 0x1ffffff, 0xffffff);
    ShiftEight(0xffffff, 0x7fffff, 0x3fffff, 0x1fffff, 0xfffff, 0x7ffff, 0x3ffff, 0x1ffff, 0xffff);
    ShiftEight(0xffff, 0x7fff, 0x3fff, 0x1fff, 0xfff, 0x7ff, 0x3ff, 0x1ff, 0xff);
    ShiftEight(0xff, 0x7f, 0x3f, 0x1f, 0xf, 0x7, 0x3, 0x1, 0x0);
  }

  method Update(crc: bv32, data: seq<bv8>) returns (r: bv32)
    ensures Word(r) == Updated(Word(crc), data)
  {
    ghost var start := Not(Word(crc));
    WordNot(crc);
    var c := !crc;
    assert data[..0] == [];
    var i := 0;
    while i < |data|
      invariant 0 <= i <= |data| && Word(c) == Feed(start, AllBits(data[..i]))
    {
      FeedNext(start, data, i);
      c := TableStep(c, data[i], data[i] as bv32);
      i := i + 1;
    }
    assert data[..i] == data;
    WordNot(c);
    r := !c;
  }

  /** The frame check sequence: the complement of the remainder of the message times x^32, its first
      32 bits complemented. */
  function Fcs(data: seq<bv8>): Bits {
    Not(Remainder(Lead(AllBits(data) + Zeros(32), Not(Zeros(32)))))
  }

  method Crc(data: seq<bv8>) returns (r: bv32)
    ensures Word(r) == Fcs(data)
  {
    r := Update(0, data);
    LowBitsZero(32);
    FeedDivides(Not(Zeros(32)), AllBits(data));
  }

  lemma {:induction false} AllBitsAppend(a: seq<bv8>, b: seq<bv8>)
    ensures AllBits(a + b) == AllBits(a) + AllBits(b)
    decreases |b|
  {
    if b == [] {
      assert a + b == a && AllBits(a) + [] == AllBits(a);
    } else {
      var b' := b[..|b| - 1];
      assert (a + b)[..|a + b| - 1] == a + b';
      AllBitsAppend(a, b');
    }
  }

  lemma XorSelf(x: Bits)
    ensures Xor(x, x) == Zeros(|x|)
  {
  }

  lemma NotTwice(x: Bits)
    ensures Not(Not(x)) == x
  {
  }

  /** Updating over a and then b is one update over a + b. */
  lemma UpdateComposes(crc: Bits, a: seq<bv8>, b: seq<bv8>)
    requires |crc| == 32
    ensures Updated(Updated(crc, a), b) == Updated(crc, a + b)
  {
    var r := Feed(Not(crc), AllBits(a));
    NotTwice(r);
    AllBitsAppend(a, b);
    FeedAppends(Not(crc), AllBits(a), AllBits(b));
  }

  /** The 32 bits determine the word, so equal bits are equal results. */
  lemma WordInjective(x: bv32, y: bv32)
    requires Word(x) == Word(y)
    ensures x == y
  {
    ShrAll(x);
    ShrAll(y);
    LowBitsInjective(x, y, 32);
  }

  lemma {:induction false} LowBitsInjective(x: bv32, y: bv32, n: nat)
    requires LowBits(x, n) == LowBits(y, n) && Shr(x, n) == Shr(y, n)
    ensures x == y
    decreases n
  {
    if n > 0 {
      var p, q := Peel(x, y, n);
      LowBitsInjective(p, q, n - 1);
      HalvesDetermine(x, y, p);
    }
  }

  lemma Peel(x: bv32, y: bv32, n: nat) returns (p: bv32, q: bv32)
    requires n > 0 && LowBits(x, n) == LowBits(y, n) && Shr(x, n) == Shr(y, n)
    ensures p == x >> 1 && q == y >> 1 && (x & 1 == 1 <==> y & 1 == 1)
    ensures LowBits(p, n - 1) == LowBits(q, n - 1) && Shr(p, n - 1) == Shr(q, n - 1)
  {
    p, q := x >> 1, y >> 1;
    ConsInjective(x & 1 == 1, y & 1 == 1, LowBits(p, n - 1), LowBits(q, n - 1));
  }

  lemma ConsInjective(x: bool, y: bool, p: Bits, q: Bits)
    requires [x] + p == [y] + q
    ensures x == y && p == q
  {
    assert ([x] + p)[1..] == p && ([y] + q)[1..] == q;
    assert ([x] + p)[0] == x && ([y] + q)[0] == y;
  }

  lemma HalvesDetermine(x: bv32, y: bv32, p: bv32)
    requires x >> 1 == p && y >> 1 == p && (x & 1 == 1 <==> y & 1 == 1)
    ensures x == y
  {
  }

  // ----- What the check detects -----

  lemma {:induction false} FeedZeros(n: nat)
    ensures Feed(Zeros(32), Zeros(n)) == Zeros(32)
  {
    if n > 0 {
      assert Zeros(32)[0 := false] == Zeros(32) && Step(Zeros(32)) == Zeros(32);
      assert Zeros(n)[1..] == Zeros(n - 1);
      FeedZeros(n - 1);
    }
  }

  /** A register that n <= 32 bits clear has nothing but in its first n places. */
  lemma {:induction false} ClearedByFew(r: Bits, bits: Bits)
    requires |r| == 32 && |bits| <= 32 && Feed(r, bits) == Zeros(32)
    ensures forall i :: |bits| <= i < 32 ==> !r[i]
    decreases |bits|
  {
    if bits == [] {
      assert r == Zeros(32);
    } else {
      var s := r[0 := r[0] != bits[0]];
      ClearedByFew(Step(s), bits[1..]);
      assert !Step(s)[31];
      assert Step(s)[31] == s[0];
      forall i | |bits| <= i < 32 ensures !r[i] {
        assert Step(s)[i - 1] == s[i];
      }
    }
  }

  /** Zeros never clear a register that is not clear. */
  lemma {:induction false} ZerosKeepNonzero(r: Bits, n: nat)
    requires |r| == 32 && r != Zeros(32)
    ensures Feed(r, Zeros(n)) != Zeros(32)
    decreases n
  {
    if n > 0 {
      assert r[0 := r[0] != false] == r && Zeros(n)[1..] == Zeros(n - 1);
      StepNonzero(r);
      ZerosKeepNonzero(Step(r), n - 1);
    }
  }

  lemma StepNonzero(r: Bits)
    requires |r| == 32 && r != Zeros(32)
    ensures Step(r) != Zeros(32)
  {
    if r[0] {
      assert Step(r)[31];
    } else {
      var i :| 0 <= i < 32 && r[i] != Zeros(32)[i];
      assert Step(r)[i - 1];
    }
  }

  /** An error pattern: a burst of at most 32 bits, the first of them wrong, among right ones. */
  ghost predicate IsBurst(e: Bits, burst: Bits, before: nat, after: nat) {
    0 < |burst| <= 32 && burst[0] && e == Zeros(before) + burst + Zeros(after)
  }

  lemma BurstLeavesTrace(e: Bits, burst: Bits, before: nat, after: nat)
    requires IsBurst(e, burst, before, after)
    ensures Feed(Zeros(32), e) != Zeros(32)
  {
    var r := Feed(Zeros(32), burst);
    assert e == Zeros(before) + (burst + Zeros(after));
    FeedAppends(Zeros(32), Zeros(before), burst + Zeros(after));
    FeedZeros(before);
    FeedAppends(Zeros(32), burst, Zeros(after));
    BurstSets(burst);
    ZerosKeepNonzero(r, after);
  }

  lemma BurstSets(burst: Bits)
    requires 0 < |burst| <= 32 && burst[0]
    ensures Feed(Zeros(32), burst) != Zeros(32)
  {
    var s := Zeros(32)[0 := true];
    assert Step(s)[31];
    if Feed(Zeros(32), burst) == Zeros(32) {
      ClearedByFew(Step(s), burst[1..]);
    }
  }

  /** Two messages that differ in a burst of at most 32 bits have different checksums. */
  lemma BurstsDetected(a: seq<bv8>, b: seq<bv8>, burst: Bits, before: nat, after: nat)
    requires |AllBits(a)| == |AllBits(b)| && IsBurst(Xor(AllBits(a), AllBits(b)), burst, before, after)
    ensures Fcs(a) != Fcs(b)
  {
    var p, q, ones := AllBits(a), AllBits(b), Not(Zeros(32));
    FeedDivides(ones, p);
    FeedDivides(ones, q);
    FeedLinear(ones, ones, p, q);
    assert Xor(ones, ones) == Zeros(32);
    BurstLeavesTrace(Xor(p, q), burst, before, after);
    var x, y := Feed(ones, p), Feed(ones, q);
    XorSelf(x);
    NotTwice(x);
    NotTwice(y);
  }

  /** A message followed by its checksum, lowest bit first, always leaves the same register. */
  lemma ReceiverResidue(data: seq<bv8>)
    ensures Feed(Not(Zeros(32)), AllBits(data) + Fcs(data)) == Word(0xdebb20e3)
  {
    var ones := Not(Zeros(32));
    var r := Feed(ones, AllBits(data));
    FeedDivides(ones, AllBits(data));
    FeedAppends(ones, AllBits(data), Not(r));
    FeedIsSteps(r, Not(r));
    assert Xor(r, Not(r) + Zeros(0)) == ones;
    MagicResidue();
  }

  lemma MagicResidue()
    ensures Steps(Not(Zeros(32)), 32) == Word(0xdebb20e3)
  {
    AllOnes();
    var r := Word(0xffffffff);
    ResidueIsSteps(0xffffffff);
    ResidueIsSteps(0x2dfd1072);
    ResidueIsSteps(0xbe26ed00);
    ResidueIsSteps(0x00be26ed);
    MagicSteps();
    StepsAppend(r, 8, 24);
    StepsAppend(Steps(r, 8), 8, 16);
    StepsAppend(Steps(Steps(r, 8), 8), 8, 8);
  }

  lemma MagicSteps()
    ensures Residue(0xffffffff) == 0x2dfd1072 && Residue(0x2dfd1072) == 0xbe26ed00
    ensures Residue(0xbe26ed00) == 0x00be26ed && Residue(0x00be26ed) == 0xdebb20e3
  {
  }

  lemma {:induction false} StepsAppend(r: Bits, m: nat, n: nat)
    requires |r| == 32
    ensures Steps(r, m + n) == Steps(Steps(r, m), n)
    decreases m
  {
    if m > 0 { StepsAppend(Step(r), m - 1, n); }
  }
}
