/** Bounded formatting (lib/vsnprintf.c).  The specification renders a format and its arguments
    without bound; the code writes as much of that as fits.  The variable arguments are a list of
    typed values. */
module Vsnprintf {
  import opened Itoa
  import Strtol

  const INT_MAX: nat := 0x7fff_ffff

  datatype Arg =
    | Char(c: char)
    | Str(s: string)
    | NullStr
    | Int(i: int)
    | UInt(u: nat)
    | Long(l: int)
    | ULong(ul: nat)
    | Ptr(p: nat)

  /** The values a C argument of the type can have. */
  predicate InRange(a: Arg) {
    match a
    case Str(s) => NUL !in s && |s| <= INT_MAX
    case Int(i) => -0x8000_0000 <= i < 0x8000_0000
    case UInt(u) => u < 0x1_0000_0000
    case Long(l) => LLONG_MIN <= l <= LLONG_MAX
    case ULong(ul) => ul < LIMIT_64
    case Ptr(p) => p < LIMIT_64
    case _ => true
  }

  // ----- Padding -----

  function Repeat(c: char, n: nat): (s: string)
    ensures |s| == n && forall i :: 0 <= i < n ==> s[i] == c
  {
    seq(n, i => c)
  }

  function Padded(s: string, width: nat, left: bool, zero: bool): string {
    var pad := if width > |s| then width - |s| else 0;
    if left then s + Repeat(' ', pad)
    else if zero then
      if s != "" && s[0] == '-' then "-" + Repeat('0', pad) + s[1..] else Repeat('0', pad) + s
    else Repeat(' ', pad) + s
  }

  /** A field is as long as its content or its width, whichever is longer. */
  lemma FieldWidth(s: string, width: nat, left: bool, zero: bool)
    ensures |Padded(s, width, left, zero)| == if width > |s| then width else |s|
  {
  }

  lemma {:induction false} ZerosAddNothing(n: nat, s: string, base: int)
    requires base > 0 && Strtol.AllDigits(s, base)
    ensures Strtol.AllDigits(Repeat('0', n) + s, base)
    ensures Strtol.ValueOf(Repeat('0', n) + s, base) == Strtol.ValueOf(s, base)
    decreases |s|, n
  {
    var t := Repeat('0', n) + s;
    if s != "" {
      ZerosAddNothing(n, s[..|s| - 1], base);
      assert t[..|t| - 1] == Repeat('0', n) + s[..|s| - 1];
    } else if n > 0 {
      ZerosAddNothing(n - 1, s, base);
      assert t[..n - 1] == Repeat('0', n - 1) + s;
    }
  }

  /** Zero padding keeps the sign in front and the value as it was. */
  lemma ZeroPaddingKeepsValue(v: int, base: nat, width: nat)
    requires 2 <= base <= 36
    ensures var t := Padded(Text(v, base), width, false, true);
            var start := if v < 0 then 1 else 0;
            && (t[0] == '-' <==> v < 0)
            && Strtol.AllDigits(t[start..], base)
            && Strtol.Signed(v < 0, Strtol.ValueOf(t[start..], base)) == v
  {
    var u := if v < 0 then -v else v;
    var s, d := Text(v, base), Digits(u, base);
    var pad := if width > |s| then width - |s| else 0;
    Strtol.DigitsRead(u, base);
    ZerosAddNothing(pad, d, base);
    ZeroPadded(s, d, width, pad, v < 0);
  }

  lemma ZeroPadded(s: string, d: string, width: nat, pad: nat, negative: bool)
    requires d != "" && d[0] != '-' && s == (if negative then "-" + d else d)
    requires pad == if width > |s| then width - |s| else 0
    ensures var t := Padded(s, width, false, true);
            t != "" && (t[0] == '-' <==> negative) && t[if negative then 1 else 0..] == Repeat('0', pad) + d
  {
    assert negative ==> s[1..] == d;
  }

  // ----- Conversions -----

  datatype Conversion = Conversion(left: bool, zero: bool, width: nat, wide: bool, kind: char, next: nat)

  function Peek(fmt: string, i: nat): char {
    if i < |fmt| then fmt[i] else NUL
  }

  function FlagsEnd(fmt: string, i: nat): (k: nat)
    ensures k >= i && (i <= |fmt| ==> k <= |fmt|)
    decreases |fmt| - i
  {
    if Peek(fmt, i) == '-' || Peek(fmt, i) == '0' then FlagsEnd(fmt, i + 1) else i
  }

  predicate IsDigit(c: char) {
    '0' <= c <= '9'
  }

  function DigitsEnd(fmt: string, i: nat): (k: nat)
    ensures k >= i && (i <= |fmt| ==> k <= |fmt|)
    decreases |fmt| - i
  {
    if IsDigit(Peek(fmt, i)) then DigitsEnd(fmt, i + 1) else i
  }

  function Decimal(s: string): nat {
    if s == "" then 0
    else Decimal(s[..|s| - 1]) * 10 + if IsDigit(s[|s| - 1]) then s[|s| - 1] as int - '0' as int else 0
  }

  /** The length modifier at i: whether the value has 64 bits, and where it ends. */
  function Modifier(fmt: string, i: nat): (bool, nat) {
    if Peek(fmt, i) == 'l' then (true, if Peek(fmt, i + 1) == 'l' then i + 2 else i + 1)
    else if Peek(fmt, i) == 'z' then (true, i + 1)
    else if Peek(fmt, i) == 'h' then (false, if Peek(fmt, i + 1) == 'h' then i + 2 else i + 1)
    else (false, i)
  }

  /** The conversion whose flags start at i. */
  function ConversionAt(fmt: string, i: nat): (c: Conversion)
    requires i <= |fmt|
    ensures c.next > i
  {
    var f := FlagsEnd(fmt, i);
    var w := DigitsEnd(fmt, f);
    var (wide, m) := Modifier(fmt, w);
    Conversion('-' in fmt[i..f], '0' in fmt[i..f], Decimal(fmt[f..w]), wide, Peek(fmt, m), m + 1)
  }

  predicate TakesArg(kind: char) {
    kind in {'c', 's', 'd', 'i', 'u', 'x', 'X', 'p'}
  }

  /** The argument is of the type the conversion reads. */
  predicate Matches(c: Conversion, a: Arg) {
    && InRange(a)
    && match c.kind
       case 'c' => a.Char?
       case 's' => a.Str? || a.NullStr?
       case 'd' => if c.wide then a.Long? else a.Int?
       case 'i' => if c.wide then a.Long? else a.Int?
       case 'p' => a.Ptr?
       case _ => if c.wide then a.ULong? else a.UInt?
  }

  function NumberText(c: Conversion, a: Arg): string {
    var base := if c.kind == 'd' || c.kind == 'i' || c.kind == 'u' then 10 else 16;
    match a
    case Int(i) => Text(i, base)
    case UInt(u) => Text(u, base)
    case Long(l) => Text(l, base)
    case ULong(ul) => Text(ul, base)
    case Ptr(p) => Text(p, base)
    case _ => ""
  }

  /** What one conversion stands for. */
  function Field(c: Conversion, args: seq<Arg>): string
    requires TakesArg(c.kind) ==> args != [] && Matches(c, args[0])
  {
    match c.kind
    case 'c' => Padded([args[0].c], c.width, c.left, false)
    case 's' => Padded(if args[0].Str? then args[0].s else "(null)", c.width, c.left, false)
    case 'p' => "0x" + Padded(NumberText(c, args[0]), c.width, c.left, c.zero)
    case '%' => "%"
    case _ =>
      if TakesArg(c.kind) then Padded(NumberText(c, args[0]), c.width, c.left, c.zero)
      else ['%', c.kind]
  }

  function ArgsAfter(c: Conversion, args: seq<Arg>): seq<Arg>
    requires TakesArg(c.kind) ==> args != []
  {
    if TakesArg(c.kind) then args[1..] else args
  }

  // ----- What a field shows, without reference to how it is made -----

  ghost predicate AllAre(s: string, c: char) {
    forall k :: 0 <= k < |s| ==> s[k] == c
  }

  /** t is s filled up to the width: with blanks behind it, with zeros behind its sign, or with
      blanks before it. */
  ghost predicate Fills(t: string, s: string, width: nat, left: bool, zero: bool) {
    && |t| == (if width > |s| then width else |s|)
    && var pad := |t| - |s|;
       if left then t[..|s|] == s && AllAre(t[|s|..], ' ')
       else if zero && s != "" && s[0] == '-' then t[0] == '-' && AllAre(t[1..pad + 1], '0') && t[pad + 1..] == s[1..]
       else AllAre(t[..pad], if zero then '0' else ' ') && t[pad..] == s
  }

  lemma PaddedFills(s: string, width: nat, left: bool, zero: bool)
    ensures Fills(Padded(s, width, left, zero), s, width, left, zero)
  {
    var t := Padded(s, width, left, zero);
    var pad := |t| - |s|;
    if !left && zero && s != "" && s[0] == '-' {
      assert t[1..pad + 1] == Repeat('0', pad);
    } else if !left {
      assert t[..pad] == Repeat(if zero then '0' else ' ', pad);
    } else {
      assert t[|s|..] == Repeat(' ', pad);
    }
  }

  /** t is the numeral of v in a base, filled up to the conversion's width. */
  ghost predicate ShowsNumber(t: string, v: int, base: nat, c: Conversion) {
    exists s: string {:trigger Strtol.SignedNumeral(s, v, base)} ::
      Strtol.SignedNumeral(s, v, base) && Fills(t, s, c.width, c.left, c.zero)
  }

  /** t is what a conversion stands for: %c a character and %s a string, or "(null)"; %d, %i and %u a
      number in decimal, %x and %X in lower-case hexadecimal, %p behind "0x"; %% a percent sign; any
      other letter itself behind one. */
  ghost predicate Shows(t: string, c: Conversion, args: seq<Arg>) {
    match c.kind
    case 'c' => |args| > 0 && args[0].Char? && Fills(t, [args[0].c], c.width, c.left, false)
    case 's' =>
      && |args| > 0 && (args[0].Str? || args[0].NullStr?)
      && Fills(t, if args[0].Str? then args[0].s else "(null)", c.width, c.left, false)
    case 'd' => |args| > 0 && ShowsSigned(t, c, args[0])
    case 'i' => |args| > 0 && ShowsSigned(t, c, args[0])
    case 'u' => |args| > 0 && ShowsUnsigned(t, c, args[0], 10)
    case 'x' => |args| > 0 && ShowsUnsigned(t, c, args[0], 16)
    case 'X' => |args| > 0 && ShowsUnsigned(t, c, args[0], 16)
    case 'p' => |args| > 0 && args[0].Ptr? && |t| >= 2 && t[0] == '0' && t[1] == 'x' && ShowsNumber(t[2..], args[0].p, 16, c)
    case '%' => t == "%"
    case _ => t == ['%', c.kind]
  }

  ghost predicate ShowsSigned(t: string, c: Conversion, a: Arg) {
    if c.wide then a.Long? && ShowsNumber(t, a.l, 10, c) else a.Int? && ShowsNumber(t, a.i, 10, c)
  }

  ghost predicate ShowsUnsigned(t: string, c: Conversion, a: Arg, base: nat) {
    if c.wide then a.ULong? && ShowsNumber(t, a.ul, base, c) else a.UInt? && ShowsNumber(t, a.u, base, c)
  }

  lemma TextShows(c: Conversion, v: int, base: nat)
    requires 2 <= base <= 36
    ensures ShowsNumber(Padded(Text(v, base), c.width, c.left, c.zero), v, base, c)
  {
    Strtol.TextIsNumeral(v, base);
    PaddedFills(Text(v, base), c.width, c.left, c.zero);
  }

  /** Every field shows what its conversion stands for, */
  lemma FieldShows(c: Conversion, args: seq<Arg>)
    requires TakesArg(c.kind) ==> args != [] && Matches(c, args[0])
    ensures Shows(Field(c, args), c, args)
  {
    match c.kind
    case 'c' => PaddedFills([args[0].c], c.width, c.left, false);
    case 's' => PaddedFills(if args[0].Str? then args[0].s else "(null)", c.width, c.left, false);
    case 'd' => TextShows(c, if c.wide then args[0].l else args[0].i, 10);
    case 'i' => TextShows(c, if c.wide then args[0].l else args[0].i, 10);
    case 'u' => TextShows(c, if c.wide then args[0].ul else args[0].u, 10);
    case 'x' => TextShows(c, if c.wide then args[0].ul else args[0].u, 16);
    case 'X' => TextShows(c, if c.wide then args[0].ul else args[0].u, 16);
    case 'p' =>
      TextShows(c, args[0].p, 16);
      assert Field(c, args)[2..] == Padded(Text(args[0].p, 16), c.width, c.left, c.zero);
    case _ =>
  }

  lemma FillsOnce(t: string, t': string, s: string, width: nat, left: bool, zero: bool)
    requires Fills(t, s, width, left, zero) && Fills(t', s, width, left, zero)
    ensures t == t'
  {
    var pad := |t| - |s|;
    forall k | 0 <= k < |t| ensures t[k] == t'[k] {
      if left {
        if k < |s| { assert t[..|s|][k] == t'[..|s|][k]; } else { assert t[|s|..][k - |s|] == t'[|s|..][k - |s|]; }
      } else if zero && s != "" && s[0] == '-' {
        if k > pad { assert t[pad + 1..][k - pad - 1] == t'[pad + 1..][k - pad - 1]; }
        else if k > 0 { assert t[1..pad + 1][k - 1] == t'[1..pad + 1][k - 1]; }
      } else {
        if k < pad { assert t[..pad][k] == t'[..pad][k]; } else { assert t[pad..][k - pad] == t'[pad..][k - pad]; }
      }
    }
  }

  lemma NumberShownOnce(t: string, t': string, v: int, base: nat, c: Conversion)
    requires 2 <= base <= 36 && ShowsNumber(t, v, base, c) && ShowsNumber(t', v, base, c)
    ensures t == t'
  {
    var s: string :| Strtol.SignedNumeral(s, v, base) && Fills(t, s, c.width, c.left, c.zero);
    var s': string :| Strtol.SignedNumeral(s', v, base) && Fills(t', s', c.width, c.left, c.zero);
    Strtol.SignedNumeralUnique(s, s', v, base);
    FillsOnce(t, t', s, c.width, c.left, c.zero);
  }

  /** and there is only one text that does. */
  lemma ShownOnce(t: string, t': string, c: Conversion, args: seq<Arg>)
    requires Shows(t, c, args) && Shows(t', c, args)
    ensures t == t'
  {
    match c.kind
    case 'c' => FillsOnce(t, t', [args[0].c], c.width, c.left, false);
    case 's' => FillsOnce(t, t', if args[0].Str? then args[0].s else "(null)", c.width, c.left, false);
    case 'd' => NumberShownOnce(t, t', if c.wide then args[0].l else args[0].i, 10, c);
    case 'i' => NumberShownOnce(t, t', if c.wide then args[0].l else args[0].i, 10, c);
    case 'u' => NumberShownOnce(t, t', if c.wide then args[0].ul else args[0].u, 10, c);
    case 'x' => NumberShownOnce(t, t', if c.wide then args[0].ul else args[0].u, 16, c);
    case 'X' => NumberShownOnce(t, t', if c.wide then args[0].ul else args[0].u, 16, c);
    case 'p' =>
      NumberShownOnce(t[2..], t'[2..], args[0].p, 16, c);
      assert t == ['0', 'x'] + t[2..] && t' == ['0', 'x'] + t'[2..];
    case _ =>
  }

  /** From i on every conversion is complete, has its argument, and a width that an int can hold. */
  predicate WellFormed(fmt: string, i: nat, args: seq<Arg>)
    requires i <= |fmt|
    decreases |fmt| - i
  {
    if i == |fmt| then true
    else if fmt[i] != '%' then WellFormed(fmt, i + 1, args)
    else
      var c := ConversionAt(fmt, i + 1);
      && c.next <= |fmt| && c.width <= INT_MAX
      && (TakesArg(c.kind) ==> args != [] && Matches(c, args[0]))
      && WellFormed(fmt, c.next, ArgsAfter(c, args))
  }

  /** The unbounded rendering of the format from i on. */
  function Render(fmt: string, i: nat, args: seq<Arg>): string
    requires i <= |fmt| && WellFormed(fmt, i, args)
    decreases |fmt| - i
  {
    if i == |fmt| then ""
    else if fmt[i] != '%' then [fmt[i]] + Render(fmt, i + 1, args)
    else
      var c := ConversionAt(fmt, i + 1);
      Field(c, args) + Render(fmt, c.next, ArgsAfter(c, args))
  }

  // ----- Formats as pieces -----

  /** A format is a sequence of characters other than '%' and of directives. */
  datatype Piece = Plain(c: char) | Directive(flags: string, width: string, modifier: string, kind: char)

  ghost predicate AllFlags(s: string) {
    forall k :: 0 <= k < |s| ==> s[k] == '-' || s[k] == '0'
  }

  ghost predicate AllDecimal(s: string) {
    forall k :: 0 <= k < |s| ==> '0' <= s[k] <= '9'
  }

  /** A width does not start with 0, which is a flag, and the letter does not continue what comes
      before it. */
  ghost predicate PieceOk(p: Piece) {
    match p
    case Plain(c) => c != '%'
    case Directive(flags, width, modifier, kind) =>
      && AllFlags(flags) && AllDecimal(width) && (width != "" ==> width[0] != '0')
      && modifier in {"", "l", "ll", "z", "h", "hh"}
      && (modifier == "" ==> kind !in {'l', 'z', 'h'} && !('0' <= kind <= '9') && (width == "" ==> kind != '-'))
      && (modifier == "l" ==> kind != 'l') && (modifier == "h" ==> kind != 'h')
  }

  ghost function PieceText(p: Piece): string {
    match p
    case Plain(c) => [c]
    case Directive(flags, width, modifier, kind) => ['%'] + flags + width + modifier + [kind]
  }

  ghost function FormatText(ps: seq<Piece>): string {
    if ps == [] then "" else PieceText(ps[0]) + FormatText(ps[1..])
  }

  lemma DecimalDigits(s: string)
    requires AllDecimal(s)
    ensures Strtol.AllDigits(s, 10)
  {
  }

  /** The width is the decimal number written there. */
  lemma {:induction false} DecimalIsValue(s: string)
    requires AllDecimal(s)
    ensures Strtol.AllDigits(s, 10) && Decimal(s) == Strtol.ValueOf(s, 10)
  {
    DecimalDigits(s);
    if s != "" {
      DecimalIsValue(s[..|s| - 1]);
      assert s[|s| - 1] in s;
    }
  }

  lemma {:induction false} FlagsRun(fmt: string, i: nat, n: nat)
    requires i <= n <= |fmt| && AllFlags(fmt[i..n]) && Peek(fmt, n) != '-' && Peek(fmt, n) != '0'
    ensures FlagsEnd(fmt, i) == n
    decreases n - i
  {
    if i < n {
      assert fmt[i..n][0] == fmt[i] && fmt[i..n][1..] == fmt[i + 1..n];
      FlagsRun(fmt, i + 1, n);
    }
  }

  lemma {:induction false} DigitsRun(fmt: string, i: nat, n: nat)
    requires i <= n <= |fmt| && AllDecimal(fmt[i..n]) && !('0' <= Peek(fmt, n) <= '9')
    ensures DigitsEnd(fmt, i) == n
    decreases n - i
  {
    if i < n {
      assert fmt[i..n][0] == fmt[i] && fmt[i..n][1..] == fmt[i + 1..n];
      DigitsRun(fmt, i + 1, n);
    }
  }

  /** The conversion that a directive asks for. */
  ghost function Asked(p: Piece, next: nat): Conversion
    requires p.Directive? && AllDecimal(p.width)
  {
    DecimalDigits(p.width);
    Conversion('-' in p.flags, '0' in p.flags, Strtol.ValueOf(p.width, 10), p.modifier in {"l", "ll", "z"}, p.kind, next)
  }

  /** Reading a directive gives the conversion it asks for. */
  lemma DirectiveReads(fmt: string, i: nat, p: Piece, f: nat, w: nat, m: nat)
    requires p.Directive? && PieceOk(p) && f == i + |p.flags| && w == f + |p.width| && m == w + |p.modifier| && m < |fmt|
    requires fmt[i..f] == p.flags && fmt[f..w] == p.width && fmt[w..m] == p.modifier && fmt[m] == p.kind
    ensures ConversionAt(fmt, i) == Asked(p, m + 1)
  {
    if w < m { assert fmt[w..m][0] == fmt[w]; }
    if w + 1 < m { assert fmt[w..m][1] == fmt[w + 1]; }
    if f < w { assert fmt[f..w][0] == fmt[f]; }
    FlagsRun(fmt, i, f);
    DigitsRun(fmt, f, w);
    DecimalIsValue(p.width);
  }

  ghost predicate Takes(kind: char) {
    kind == 'c' || kind == 's' || kind == 'd' || kind == 'i' || kind == 'u' || kind == 'x' || kind == 'X' || kind == 'p'
  }

  /** There is an argument of the right type for every directive that takes one. */
  ghost predicate Supplied(ps: seq<Piece>, args: seq<Arg>) {
    if ps == [] then true
    else if ps[0].Plain? || !Takes(ps[0].kind) then PieceOk(ps[0]) && WidthOk(ps[0]) && Supplied(ps[1..], args)
    else && PieceOk(ps[0]) && WidthOk(ps[0]) && args != [] && Matches(Asked(ps[0], 0), args[0])
         && Supplied(ps[1..], args[1..])
  }

  ghost predicate WidthOk(p: Piece)
    requires PieceOk(p)
  {
    p.Directive? ==> Asked(p, 0).width <= INT_MAX
  }

  /** t is what the pieces stand for, one after the other. */
  ghost predicate Output(ps: seq<Piece>, args: seq<Arg>, t: string) {
    if ps == [] then t == ""
    else if ps[0].Plain? then t != "" && t[0] == ps[0].c && Output(ps[1..], args, t[1..])
    else
      && PieceOk(ps[0]) && (Takes(ps[0].kind) ==> args != [])
      && exists k: nat {:trigger t[..k]} ::
           && k <= |t| && Shows(t[..k], Asked(ps[0], 0), args)
           && Output(ps[1..], if Takes(ps[0].kind) then args[1..] else args, t[k..])
  }

  /** A format renders as what its pieces stand for. */
  lemma {:induction false} PiecesRender(fmt: string, i: nat, ps: seq<Piece>, args: seq<Arg>)
    requires i <= |fmt| && fmt[i..] == FormatText(ps) && Supplied(ps, args)
    ensures WellFormed(fmt, i, args) && Output(ps, args, Render(fmt, i, args))
    decreases |ps|
  {
    if ps == [] { return; }
    var text := PieceText(ps[0]);
    Front(fmt, i, text, FormatText(ps[1..]));
    if ps[0].Plain? {
      assert fmt[i] == fmt[i..i + 1][0] == text[0];
      PiecesRender(fmt, i + 1, ps[1..], args);
      assert Render(fmt, i, args)[1..] == Render(fmt, i + 1, args);
    } else {
      DirectiveRenders(fmt, i, ps, args, i + |text|);
    }
  }

  lemma Front(s: string, i: nat, a: string, b: string)
    requires i <= |s| && s[i..] == a + b
    ensures i + |a| <= |s| && s[i..i + |a|] == a && s[i + |a|..] == b
  {
    assert |s[i..]| == |a| + |b|;
    forall k | 0 <= k < |a| ensures s[i + k] == a[k] { assert s[i..][k] == s[i + k]; }
    forall k | 0 <= k < |b| ensures s[i + |a| + k] == b[k] { assert s[i..][|a| + k] == s[i + |a| + k]; }
  }

  lemma DirectiveRenders(fmt: string, i: nat, ps: seq<Piece>, args: seq<Arg>, j: nat)
    requires ps != [] && ps[0].Directive? && Supplied(ps, args)
    requires i < j <= |fmt| && fmt[i..j] == PieceText(ps[0]) && fmt[j..] == FormatText(ps[1..])
    ensures WellFormed(fmt, i, args) && Output(ps, args, Render(fmt, i, args))
    decreases |ps|, 0
  {
    var p := ps[0];
    DirectiveParts(fmt, i, p, j);
    var c := ConversionAt(fmt, i + 1);
    var rest := if Takes(p.kind) then args[1..] else args;
    PiecesRender(fmt, j, ps[1..], rest);
    FieldShows(c, args);
    var field := Field(c, args);
    NextDoesNotShow(field, c, args, j);
    FieldFirst(ps, args, field, rest, Render(fmt, j, rest));
  }

  /** What the first directive stands for, and then what the others do. */
  lemma FieldFirst(ps: seq<Piece>, args: seq<Arg>, field: string, rest: seq<Arg>, more: string)
    requires ps != [] && ps[0].Directive? && PieceOk(ps[0]) && (Takes(ps[0].kind) ==> args != [])
    requires rest == (if Takes(ps[0].kind) then args[1..] else args)
    requires Shows(field, Asked(ps[0], 0), args) && Output(ps[1..], rest, more)
    ensures Output(ps, args, field + more)
  {
    var t, k := field + more, |field|;
    assert t[..k] == field && t[k..] == more;
  }

  lemma NextDoesNotShow(t: string, c: Conversion, args: seq<Arg>, n: nat)
    requires Shows(t, c, args)
    ensures Shows(t, c.(next := n), args) && Shows(t, c.(next := 0), args)
  {
  }

  /** The parts of a slice, found in the whole. */
  lemma Part(s: string, i: nat, j: nat, before: string, part: string, after: string)
    requires i <= j <= |s| && s[i..j] == before + part + after
    ensures var a := i + |before|; a + |part| <= |s| && s[a..a + |part|] == part
  {
    var a := i + |before|;
    forall k | 0 <= k < |part| ensures s[a + k] == part[k] { assert s[i..j][|before| + k] == s[a + k]; }
  }

  lemma DirectiveParts(fmt: string, i: nat, p: Piece, j: nat)
    requires p.Directive? && PieceOk(p) && i < j <= |fmt| && fmt[i..j] == PieceText(p)
    ensures fmt[i] == '%' && i + 1 <= |fmt| && ConversionAt(fmt, i + 1) == Asked(p, j)
  {
    var a, b, c, d := ['%'], p.flags, p.width, p.modifier;
    Regroup(a, b, c, d, [p.kind]);
    Part(fmt, i, j, a, b, c + d + [p.kind]);
    Part(fmt, i, j, a + b, c, d + [p.kind]);
    Part(fmt, i, j, a + b + c, d, [p.kind]);
    assert fmt[i] == fmt[i..j][0] && fmt[j - 1] == fmt[i..j][j - 1 - i];
    DirectiveReads(fmt, i + 1, p, i + 1 + |b|, i + 1 + |b| + |c|, i + 1 + |b| + |c| + |d|);
  }

  lemma Regroup(a: string, b: string, c: string, d: string, e: string)
    ensures a + b + c + d + e == a + b + (c + d + e) == (a + b) + c + (d + e)
  {
    assert a + b + c + d + e == a + b + (c + d + e);
  }

  lemma {:induction false} FlagsEndIs(fmt: string, i: nat)
    requires i <= |fmt|
    ensures var k := FlagsEnd(fmt, i); AllFlags(fmt[i..k]) && Peek(fmt, k) != '-' && Peek(fmt, k) != '0'
    decreases |fmt| - i
  {
    if Peek(fmt, i) == '-' || Peek(fmt, i) == '0' {
      FlagsEndIs(fmt, i + 1);
      var k := FlagsEnd(fmt, i);
      assert fmt[i..k] == [fmt[i]] + fmt[i + 1..k];
    }
  }

  lemma {:induction false} DigitsEndIs(fmt: string, i: nat)
    requires i <= |fmt|
    ensures var k := DigitsEnd(fmt, i); AllDecimal(fmt[i..k]) && !('0' <= Peek(fmt, k) <= '9')
    decreases |fmt| - i
  {
    if IsDigit(Peek(fmt, i)) {
      DigitsEndIs(fmt, i + 1);
      var k := DigitsEnd(fmt, i);
      assert fmt[i..k] == [fmt[i]] + fmt[i + 1..k];
    }
  }

  lemma ModifierIs(fmt: string, w: nat, m: nat)
    requires w <= |fmt| && m == Modifier(fmt, w).1 && m < |fmt|
    ensures w <= m && fmt[w..m] in {"", "l", "ll", "z", "h", "hh"}
    ensures fmt[w..m] == "" ==> fmt[m] !in {'l', 'z', 'h'}
    ensures (fmt[w..m] == "l" ==> fmt[m] != 'l') && (fmt[w..m] == "h" ==> fmt[m] != 'h')
  {
    if m == w {
      assert fmt[w..m] == "";
    } else if m == w + 1 {
      assert |fmt[w..m]| == 1 && fmt[w..m][0] == fmt[w];
      assert fmt[w] == 'l' || fmt[w] == 'z' || fmt[w] == 'h';
      assert fmt[w..m] == [fmt[w]];
    } else {
      assert |fmt[w..m]| == 2 && fmt[w..m][0] == fmt[w] && fmt[w..m][1] == fmt[w + 1];
      assert fmt[w..m] == [fmt[w], fmt[w + 1]];
      assert fmt[w] == fmt[w + 1] && (fmt[w] == 'l' || fmt[w] == 'h');
    }
  }

  /** Every complete conversion is a directive. */
  lemma DirectiveAt(fmt: string, i: nat) returns (p: Piece)
    requires i < |fmt| && fmt[i] == '%' && ConversionAt(fmt, i + 1).next <= |fmt|
    ensures var j := ConversionAt(fmt, i + 1).next;
            p.Directive? && PieceOk(p) && fmt[i..j] == PieceText(p) && ConversionAt(fmt, i + 1) == Asked(p, j)
  {
    var f := FlagsEnd(fmt, i + 1);
    var w := DigitsEnd(fmt, f);
    var m := Modifier(fmt, w).1;
    FlagsEndIs(fmt, i + 1);
    DigitsEndIs(fmt, f);
    ModifierIs(fmt, w, m);
    p := Directive(fmt[i + 1..f], fmt[f..w], fmt[w..m], fmt[m]);
    if f < w { assert fmt[f..w][0] == fmt[f]; }
    if w == m { assert Peek(fmt, w) == fmt[m]; }
    Slices(fmt, i, f, w, m);
    DirectiveParts(fmt, i, p, m + 1);
  }

  lemma Slices(s: string, i: nat, f: nat, w: nat, m: nat)
    requires i + 1 <= f <= w <= m < |s|
    ensures s[i..m + 1] == [s[i]] + s[i + 1..f] + s[f..w] + s[w..m] + [s[m]]
  {
    assert s[i..f] == [s[i]] + s[i + 1..f];
    assert s[i..w] == s[i..f] + s[f..w];
    assert s[i..m] == s[i..w] + s[w..m];
  }

  /** Every format that has its arguments is made of such pieces. */
  lemma {:induction false} PiecesOf(fmt: string, i: nat, args: seq<Arg>) returns (ps: seq<Piece>)
    requires i <= |fmt| && WellFormed(fmt, i, args)
    ensures fmt[i..] == FormatText(ps) && Supplied(ps, args)
    decreases |fmt| - i
  {
    if i == |fmt| { return []; }
    var p, j, rest := Plain(fmt[i]), i + 1, args;
    if fmt[i] == '%' {
      p := DirectiveAt(fmt, i);
      j, rest := ConversionAt(fmt, i + 1).next, ArgsAfter(ConversionAt(fmt, i + 1), args);
    }
    var more := PiecesOf(fmt, j, rest);
    ps := [p] + more;
    assert ps[1..] == more && fmt[i..] == fmt[i..j] + fmt[j..];
  }

  // ----- Writing -----

  function Min(a: nat, b: nat): nat {
    if a <= b then a else b
  }

  /** The output pointer and the room left, which emit_char updates, with the running total. */
  class Writer {
    const buf: array<char>
    const size: nat
    var out: nat
    var remaining: nat
    var total: nat

    /** Everything emitted, kept or dropped, and the buffer as it was. */
    ghost var text: string
    ghost const before: string

    ghost predicate Valid()
      reads this, buf
    {
      && 0 < size <= buf.Length && |before| == buf.Length
      && out == Min(|text|, size - 1) && remaining == size - out && total == out
      && buf[..out] == text[..out] && buf[out..] == before[out..]
    }

    constructor (buf: array<char>, size: nat)
      requires 0 < size <= buf.Length
      ensures Valid() && text == "" && this.buf == buf && this.size == size && before == buf[..]
    {
      this.buf, this.size := buf, size;
      out, remaining, total := 0, size, 0;
      text, before := "", buf[..];
    }

    /** emit_char writes if there is room for c and the terminator. */
    method Emit(c: char)
      requires Valid()
      modifies this, buf
      ensures Valid() && text == old(text) + [c]
    {
      ghost var t := text;
      text := text + [c];
      if remaining > 1 {
        buf[out] := c;
        assert buf[..out + 1] == t[..out] + [c];
        assert text[..out + 1] == t[..out] + [c];
        out := out + 1;
        remaining := remaining - 1;
        total := total + 1;
      }
    }

    method EmitAll(s: string, start: nat)
      requires Valid() && start <= |s|
      modifies this, buf
      ensures Valid() && text == old(text) + s[start..]
    {
      var i := start;
      while i < |s|
        invariant start <= i <= |s| && Valid() && text == old(text) + s[start..i]
      {
        Emit(s[i]);
        i := i + 1;
      }
    }

    method EmitMany(c: char, n: nat)
      requires Valid()
      modifies this, buf
      ensures Valid() && text == old(text) + Repeat(c, n)
    {
      var i := 0;
      while i < n
        invariant 0 <= i <= n && Valid() && text == old(text) + Repeat(c, i)
      {
        Emit(c);
        i := i + 1;
        assert Repeat(c, i) == Repeat(c, i - 1) + [c];
      }
    }

    /** emit_padded */
    method EmitPadded(s: string, width: nat, left: bool, zero: bool)
      requires Valid() && |s| <= INT_MAX && width <= INT_MAX
      modifies this, buf
      ensures Valid() && text == old(text) + Padded(s, width, left, zero)
    {
      var pad := width - |s|;
      if pad < 0 { pad := 0; }
      assert s[0..] == s;
      if left {
        EmitAll(s, 0);
        EmitMany(' ', pad);
      } else if zero {
        EmitZeroPadded(s, pad);
      } else {
        EmitMany(' ', pad);
        EmitAll(s, 0);
      }
    }

    /** The sign goes before the zeros. */
    method EmitZeroPadded(s: string, pad: nat)
      requires Valid()
      modifies this, buf
      ensures Valid()
      ensures text == old(text) +
                      if s != "" && s[0] == '-' then "-" + Repeat('0', pad) + s[1..] else Repeat('0', pad) + s
    {
      var i := 0;
      if |s| > 0 && s[0] == '-' {
        Emit('-');
        i := 1;
      }
      EmitMany('0', pad);
      EmitAll(s, i);
    }

    /** The terminator goes after the last character written. */
    method Finish()
      requires Valid()
      modifies buf
      ensures buf[..out] == text[..out] && buf[out] == NUL && buf[out + 1..] == before[out + 1..]
    {
      buf[out] := NUL;
      assert before[out + 1..] == before[out..][1..];
    }
  }

  // ----- The conversion loop -----

  method ReadFlags(fmt: string, i: nat) returns (left: bool, zero: bool, p: nat)
    requires i <= |fmt|
    ensures p == FlagsEnd(fmt, i) && left == ('-' in fmt[i..p]) && zero == ('0' in fmt[i..p])
  {
    left, zero, p := false, false, i;
    while Peek(fmt, p) == '-' || Peek(fmt, p) == '0'
      invariant i <= p <= |fmt| && FlagsEnd(fmt, p) == FlagsEnd(fmt, i)
      invariant left == ('-' in fmt[i..p]) && zero == ('0' in fmt[i..p])
      decreases |fmt| - p
    {
      assert fmt[i..p + 1] == fmt[i..p] + [fmt[p]];
      if Peek(fmt, p) == '-' { left := true; } else { zero := true; }
      p := p + 1;
    }
  }

  method ReadWidth(fmt: string, i: nat) returns (width: nat, p: nat)
    requires i <= |fmt|
    ensures p == DigitsEnd(fmt, i) && width == Decimal(fmt[i..p])
  {
    width, p := 0, i;
    while IsDigit(Peek(fmt, p))
      invariant i <= p <= |fmt| && DigitsEnd(fmt, p) == DigitsEnd(fmt, i) && width == Decimal(fmt[i..p])
      decreases |fmt| - p
    {
      assert fmt[i..p + 1][..|fmt[i..p + 1]| - 1] == fmt[i..p];
      width := width * 10 + (fmt[p] as int - '0' as int);
      p := p + 1;
    }
  }

  method ReadModifier(fmt: string, i: nat) returns (wide: bool, p: nat)
    requires i <= |fmt|
    ensures (wide, p) == Modifier(fmt, i)
  {
    wide, p := false, i;
    if Peek(fmt, p) == 'l' {
      wide, p := true, p + 1;
      if Peek(fmt, p) == 'l' { p := p + 1; }
    } else if Peek(fmt, p) == 'z' {
      wide, p := true, p + 1;
    } else if Peek(fmt, p) == 'h' {
      p := p + 1;
      if Peek(fmt, p) == 'h' { p := p + 1; }
    }
  }

  method ReadConversion(fmt: string, i: nat) returns (c: Conversion)
    requires i <= |fmt|
    ensures c == ConversionAt(fmt, i)
  {
    var left, zero, f := ReadFlags(fmt, i);
    var width, w := ReadWidth(fmt, f);
    var wide, m := ReadModifier(fmt, w);
    c := Conversion(left, zero, width, wide, Peek(fmt, m), m + 1);
  }

  method Strlen(a: array<char>, ghost s: string) returns (n: nat)
    requires Holds(a, s) && NUL !in s
    ensures n == |s|
  {
    n := 0;
    assert forall k :: 0 <= k < |s| ==> a[..|s|][k] == a[k];
    while a[n] != NUL
      invariant 0 <= n <= |s| && forall k :: 0 <= k < |s| ==> a[k] == s[k] && s[k] in s
      decreases |s| - n
    {
      n := n + 1;
    }
  }

  /** The digits of the argument, in the 32 characters set aside for them. */
  method FormatNumber(c: Conversion, a: Arg, tmp: array<char>)
    requires TakesArg(c.kind) && c.kind != 'c' && c.kind != 's' && Matches(c, a) && tmp.Length == 32
    modifies tmp
    ensures Holds(tmp, NumberText(c, a)) && NUL !in NumberText(c, a)
  {
    var base := if c.kind == 'd' || c.kind == 'i' || c.kind == 'u' then 10 else 16;
    match a
    case Int(i) =>
      TextFits(i, base);
      ItoaInt(i, tmp, base);
    case Long(l) =>
      TextFits(l, base);
      Lltoa(l, tmp, base);
    case UInt(u) =>
      TextFits(u, base);
      Utoa(u, tmp, base);
    case ULong(ul) =>
      TextFits(ul, base);
      Ulltoa(ul, tmp, base);
    case Ptr(p) =>
      TextFits(p, base);
      Ulltoa(p, tmp, base);
  }

  method EmitNumber(w: Writer, c: Conversion, a: Arg)
    requires w.Valid() && c.width <= INT_MAX
    requires TakesArg(c.kind) && c.kind != 'c' && c.kind != 's' && Matches(c, a)
    modifies w, w.buf
    ensures w.Valid() && w.text == old(w.text) + Padded(NumberText(c, a), c.width, c.left, c.zero)
  {
    var tmp := new char[32];
    FormatNumber(c, a, tmp);
    var n := Strlen(tmp, NumberText(c, a));
    w.EmitPadded(tmp[..n], c.width, c.left, c.zero);
  }

  method EmitPointer(w: Writer, c: Conversion, a: Arg)
    requires w.Valid() && c.width <= INT_MAX && c.kind == 'p' && Matches(c, a)
    modifies w, w.buf
    ensures w.Valid() && w.text == old(w.text) + ("0x" + Padded(NumberText(c, a), c.width, c.left, c.zero))
  {
    EmitTwo(w, '0', 'x');
    Associate(old(w.text), "0x", Padded(NumberText(c, a), c.width, c.left, c.zero));
    EmitNumber(w, c, a);
  }

  method EmitTwo(w: Writer, c: char, d: char)
    requires w.Valid()
    modifies w, w.buf
    ensures w.Valid() && w.text == old(w.text) + [c, d]
  {
    w.Emit(c);
    w.Emit(d);
  }

  /** The switch on the conversion character. */
  method EmitField(w: Writer, c: Conversion, args: seq<Arg>)
    requires w.Valid() && c.width <= INT_MAX && (TakesArg(c.kind) ==> args != [] && Matches(c, args[0]))
    modifies w, w.buf
    ensures w.Valid() && w.text == old(w.text) + Field(c, args)
  {
    match c.kind
    case 'c' => w.EmitPadded([args[0].c], c.width, c.left, false);
    case 's' =>
      var s := if args[0].Str? then args[0].s else "(null)";
      w.EmitPadded(s, c.width, c.left, false);
    case 'p' => EmitPointer(w, c, args[0]);
    case '%' => w.Emit('%');
    case _ =>
      if TakesArg(c.kind) {
        EmitNumber(w, c, args[0]);
      } else {
        EmitTwo(w, '%', c.kind);
      }
  }

  lemma Associate(a: string, b: string, c: string)
    ensures a + (b + c) == a + b + c
  {
  }

  /** One round of the loop over the format. */
  method EmitNext(w: Writer, fmt: string, i: nat, args: seq<Arg>) returns (j: nat, rest: seq<Arg>)
    requires w.Valid() && i < |fmt| && WellFormed(fmt, i, args)
    modifies w, w.buf
    ensures w.Valid() && i < j <= |fmt| && WellFormed(fmt, j, rest)
    ensures w.text + Render(fmt, j, rest) == old(w.text) + Render(fmt, i, args)
  {
    if fmt[i] != '%' {
      j, rest := i + 1, args;
      Associate(w.text, [fmt[i]], Render(fmt, j, rest));
      w.Emit(fmt[i]);
    } else {
      var c := ReadConversion(fmt, i + 1);
      j, rest := c.next, ArgsAfter(c, args);
      Associate(w.text, Field(c, args), Render(fmt, j, rest));
      EmitField(w, c, args);
    }
  }

  /** Everything the format stands for, into the writer. */
  method EmitFormat(w: Writer, fmt: string, args: seq<Arg>)
    requires w.Valid() && w.text == "" && WellFormed(fmt, 0, args)
    modifies w, w.buf
    ensures w.Valid() && w.text == Render(fmt, 0, args)
  {
    var i, rest := 0, args;
    ghost var all := Render(fmt, 0, args);
    while i < |fmt|
      invariant 0 <= i <= |fmt| && WellFormed(fmt, i, rest) && w.Valid()
      invariant w.text + Render(fmt, i, rest) == all
      decreases |fmt| - i
    {
      i, rest := EmitNext(w, fmt, i, rest);
    }
  }

  /** vsnprintf writes the longest prefix of the rendering that leaves room for the terminator, the
      terminator, and nothing else. */
  method Vsnprintf(buf: array?<char>, size: nat, fmt: string, args: seq<Arg>) returns (total: int)
    requires NUL !in fmt && WellFormed(fmt, 0, args)
    requires (buf != null ==> size <= buf.Length) && size <= INT_MAX
    modifies buf
    ensures buf == null || size == 0 ==> total == 0
    ensures buf != null && size == 0 ==> buf[..] == old(buf[..])
    ensures buf != null && size > 0 ==>
              var r := Render(fmt, 0, args);
              && total == Min(|r|, size - 1)
              && buf[..total] == r[..total] && buf[total] == NUL
              && buf[total + 1..] == old(buf[total + 1..])
    ensures exists ps: seq<Piece> {:trigger FormatText(ps)} :: fmt == FormatText(ps) && Output(ps, args, Render(fmt, 0, args))
  {
    ghost var ps := PiecesOf(fmt, 0, args);
    assert fmt[0..] == fmt;
    PiecesRender(fmt, 0, ps, args);
    if buf == null || size == 0 { return 0; }
    var w := new Writer(buf, size);
    EmitFormat(w, fmt, args);
    w.Finish();
    total := w.total;
  }
}
