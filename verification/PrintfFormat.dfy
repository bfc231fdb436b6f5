/** `log_vsnprintf` of debug/vfprintf.c: the untruncated output of a format, the layout of
    its fields, and the formatter that stores as much of it as there is room for.  Long
    integers have 64 bits. */
module PrintfFormat {
  import opened Util
  import opened PrintfScan
  import opened PrintfArgs
  import PrintfDigits

  const INT_MAX: nat := 0x7FFF_FFFF
  const LONG_MAX: nat := 0x7FFF_FFFF_FFFF_FFFF

  /** What the "'" flag takes from the locale. */
  datatype Locale = Locale(sep: char, grouping: seq<nat>)

  // ----- one conversion specification -----

  /** `flags`, `width`, `prec` and `sign`; no precision is negative, no sign is NUL. */
  datatype Spec = Spec(alt: bool, ladjust: bool, zeropad: bool, grouping: bool, mods: Mods,
                       width: int, prec: int, sign: char)

  const NO_SPEC := Spec(false, false, false, false, NO_MODS, 0, -1, '\0')

  function WithFlag(s: Spec, c: char): Spec {
    match c
    case ' ' => if s.sign == '\0' then s.(sign := ' ') else s
    case '#' => s.(alt := true)
    case '-' => s.(ladjust := true)
    case '+' => s.(sign := '+')
    case '\'' => s.(grouping := true)
    case '0' => s.(zeropad := true)
    case _ => s
  }

  /** A negative width from an argument means left adjustment. */
  function WithWidth(s: Spec, n: int): Spec {
    if n >= 0 then s.(width := n) else s.(width := -n, ladjust := true)
  }

  function AsInt(v: Value): int { if v.Num? then v.n else 0 }

  /** An argument read as int. */
  function IntArg(v: Value): int { WrappedSigned(AsInt(v), 0x1_0000_0000) }

  /** What a token other than a conversion does to the specification. */
  function WithToken(s: Spec, t: Token, args: seq<Arg>, nextarg: nat): Spec {
    match t
    case Flag(c) => WithFlag(s, c)
    case Modifier(c) => s.(mods := Modify(s.mods, c))
    case Star(index) => WithWidth(s, IntArg(Argument(args, index.GetOr(nextarg))))
    case PrecStar(index) => s.(prec := IntArg(Argument(args, index.GetOr(nextarg))))
    case Prec(n) => s.(prec := n)
    case Width(n) => s.(width := n)
    case _ => s
  }

  /** The number of the argument that comes next. */
  function NextArg(t: Token, nextarg: nat): nat {
    match t
    case Star(None) => nextarg + 1
    case PrecStar(None) => nextarg + 1
    case Position(n) => n
    case _ => nextarg
  }

  // ----- converting one argument -----

  /** The value that is left of `n` in a type with `size` values. */
  function Wrapped(n: int, size: nat): nat
    requires size > 0
  {
    n % size
  }

  function WrappedSigned(n: int, size: nat): int
    requires size > 0
  {
    if n % size < size / 2 then n % size else n % size - size
  }

  /** How many values the type of an integer conversion has. */
  function Size(c: char, mods: Mods): (r: nat)
    ensures r == 0x100 || r == 0x1_0000 || r == 0x1_0000_0000 || r == 0x1_0000_0000_0000_0000
  {
    var m := Implied(mods, c);
    if m.intmax || m.sizet || m.ptrdiff || m.llong || m.long then 0x1_0000_0000_0000_0000
    else if m.short then 0x1_0000
    else if m.chr then 0x100
    else 0x1_0000_0000
  }

  /** A converted argument: its text, and what goes around it.  No sign, and no prefix, is NUL. */
  datatype Piece = Piece(text: string, sign: char, prefix: char, dprec: int, zeropad: bool)

  function BaseOf(c: char): PrintfDigits.Base {
    match c
    case 'o' | 'O' => PrintfDigits.Eight
    case 'x' | 'X' => PrintfDigits.Sixteen
    case _ => PrintfDigits.Ten
  }

  function HexDigits(c: char): (r: string)
    ensures |r| == 16
  {
    if c == 'X' then PrintfDigits.UPPER else PrintfDigits.LOWER
  }

  /** Zero with precision zero is no characters, except for "#o". */
  function NumberText(val: nat, base: PrintfDigits.Base, xdigs: string, s: Spec, loc: Locale): string
    requires |xdigs| == 16
  {
    if val == 0 && s.prec == 0 && !(s.alt && base.Eight?) then ""
    else PrintfDigits.Converted(val, base, s.alt, xdigs, LONG_MAX, s.grouping, loc.sep, loc.grouping)
  }

  /** The string up to its first NUL. */
  function TextArg(v: Value): string {
    match v
    case Str(Some(s)) => CStr(s)
    case _ => "(null)"
  }

  function Convert(c: char, s: Spec, v: Value, loc: Locale): Piece {
    match KindOf(c)
    case Character => Piece([Wrapped(AsInt(v), 0x100) as char], '\0', '\0', 0, s.zeropad)
    case Text =>
      var t := TextArg(v);
      Piece(if 0 <= s.prec < |t| then t[..s.prec] else t, '\0', '\0', 0, s.zeropad)
    case Decimal =>
      var n := WrappedSigned(AsInt(v), Size(c, s.mods));
      Piece(NumberText(if n < 0 then -n else n, PrintfDigits.Ten, HexDigits(c), s, loc),
            if n < 0 then '-' else s.sign, '\0', s.prec, s.zeropad && s.prec < 0)
    case Natural =>
      var n := Wrapped(AsInt(v), Size(c, s.mods));
      Piece(NumberText(n, BaseOf(c), HexDigits(c), s, loc), '\0',
            if BaseOf(c).Sixteen? && s.alt && n != 0 then c else '\0', s.prec, s.zeropad && s.prec < 0)
    case _ => Piece([c], '\0', '\0', 0, s.zeropad)
  }

  // ----- the layout of a field -----

  function Max(a: int, b: int): int { if a > b then a else b }

  function Repeat(c: char, n: int): (r: string)
    ensures |r| == Max(n, 0)
    ensures forall k :: 0 <= k < |r| ==> r[k] == c
  {
    if n <= 0 then "" else seq(n, _ => c)
  }

  /** `realsz` */
  function RealSize(p: Piece): nat {
    Max(p.dprec, |p.text|) + (if p.sign != '\0' then 1 else 0) + (if p.prefix != '\0' then 2 else 0)
  }

  function SignText(p: Piece): string { if p.sign != '\0' then [p.sign] else "" }

  function PrefixText(p: Piece): string { if p.prefix != '\0' then ['0', p.prefix] else "" }

  function Field(p: Piece, ladjust: bool, width: int): string {
    var room := width - RealSize(p);
    (if ladjust || p.zeropad then "" else Repeat(' ', room))
    + SignText(p) + PrefixText(p)
    + (if !ladjust && p.zeropad then Repeat('0', room) else "")
    + Repeat('0', p.dprec - |p.text|) + p.text
    + (if ladjust then Repeat(' ', room) else "")
  }

  /** Whatever the combination of sign, prefix, zero padding, precision and adjustment, a field
      has exactly the characters it needs, or the width if that is more. */
  lemma FieldLength(p: Piece, ladjust: bool, width: int)
    ensures |Field(p, ladjust, width)| == Max(width, RealSize(p))
  {
  }

  // ----- the whole output -----

  function FieldOf(c: char, s: Spec, v: Value, loc: Locale): string {
    Field(Convert(c, s, v, loc), s.ladjust, s.width)
  }

  /** The number of the next argument after a conversion. */
  function AfterUse(c: char, s: Spec, nextarg: nat): nat {
    if FetchType(c, s.mods).Unused? then nextarg else nextarg + 1
  }

  /** The literal parts and the fields that a format prints, from `i` on. */
  function Pieces(fmt: string, i: nat, args: seq<Arg>, nextarg: nat, loc: Locale): seq<string>
    requires i <= |fmt|
    decreases |fmt| + 1 - i, 0
  {
    var j := NextPercent(fmt, i);
    [fmt[i..j]] + (if CharAt(fmt, j) == '\0' then [] else InSpec(fmt, j + 1, NO_SPEC, args, nextarg, loc))
  }

  /** The same inside a conversion specification. */
  function InSpec(fmt: string, i: nat, s: Spec, args: seq<Arg>, nextarg: nat, loc: Locale): seq<string>
    requires i <= |fmt|
    decreases |fmt| + 1 - i, 1
  {
    var (token, end) := Lex(fmt, i);
    match token
    case Stop => []
    case Conversion(c) =>
      [FieldOf(c, s, Argument(args, nextarg), loc)] + Pieces(fmt, end, args, AfterUse(c, s, nextarg), loc)
    case _ => InSpec(fmt, end, WithToken(s, token, args, nextarg), args, NextArg(token, nextarg), loc)
  }

  /** Text that was printed, and the number returned for it. */
  datatype Output = Output(text: string, ret: int)

  /** Printing `ps` after `out`, up to the piece that would lead beyond INT_MAX. */
  function Printed(out: string, ps: seq<string>): Output
    decreases |ps|
  {
    if ps == [] then Output(out, |out|)
    else if |out| + |ps[0]| > INT_MAX then Output(out, -1)
    else Printed(out + ps[0], ps[1..])
  }

  /** All of it and its length, unless that is beyond INT_MAX; then part of it and -1. */
  lemma {:induction false} PrintedMeaning(out: string, ps: seq<string>)
    requires |out| <= INT_MAX
    ensures |out + Concat(ps)| <= INT_MAX ==> Printed(out, ps) == Output(out + Concat(ps), |out + Concat(ps)|)
    ensures |out + Concat(ps)| > INT_MAX ==>
      && Printed(out, ps).ret == -1 && |Printed(out, ps).text| <= INT_MAX
      && Printed(out, ps).text <= out + Concat(ps)
    decreases |ps|
  {
    if ps == [] {
      assert out + "" == out;
    } else {
      assert out + (ps[0] + Concat(ps[1..])) == out + ps[0] + Concat(ps[1..]);
      if |out| + |ps[0]| <= INT_MAX {
        PrintedMeaning(out + ps[0], ps[1..]);
      }
    }
  }

  // ----- a decimal field reads back -----

  /** Reads a number: blanks, a sign, digits up to a blank or the end. */
  function Read(s: string): int {
    if s == "" then 0
    else if s[0] == ' ' then Read(s[1..])
    else if s[0] == '-' then 0 - ReadDigits(s[1..], 0) as int
    else if s[0] == '+' then ReadDigits(s[1..], 0)
    else ReadDigits(s, 0)
  }

  function ReadDigits(s: string, n: nat): nat {
    if s == "" || !IsDigit(s[0]) then n else ReadDigits(s[1..], 10 * n + ToDigit(s[0]))
  }

  ghost predicate AllDigits(s: string) {
    forall k :: 0 <= k < |s| ==> IsDigit(s[k])
  }

  lemma {:induction false} ReadSplit(s: string, t: string, n: nat)
    requires AllDigits(s)
    ensures ReadDigits(s + t, n) == ReadDigits(t, ReadDigits(s, n))
    decreases |s|
  {
    if s == "" {
      assert s + t == t;
    } else {
      assert (s + t)[1..] == s[1..] + t;
      ReadSplit(s[1..], t, 10 * n + ToDigit(s[0]));
    }
  }

  lemma {:induction false} ReadZeros(k: int)
    ensures AllDigits(Repeat('0', k)) && ReadDigits(Repeat('0', k), 0) == 0
    decreases k
  {
    if k > 0 {
      ReadZeros(k - 1);
      assert Repeat('0', k)[1..] == Repeat('0', k - 1);
    }
  }

  lemma {:induction false} ReadNumeral(v: nat)
    ensures AllDigits(PrintfDigits.Digits(v, 10, PrintfDigits.LOWER))
    ensures ReadDigits(PrintfDigits.Digits(v, 10, PrintfDigits.LOWER), 0) == v
    decreases v
  {
    hide PrintfDigits.Digits;
    PrintfDigits.DigitsStep(v, 10, PrintfDigits.LOWER, "");
    LowerDigit(v % 10);
    var s := PrintfDigits.Digits(v, 10, PrintfDigits.LOWER);
    var last := [PrintfDigits.LOWER[v % 10]];
    assert s + "" == s && last + "" == last;
    ReadMore(last, v / 10);
    if v / 10 != 0 {
      ReadNumeral(v / 10);
      ReadSplit(PrintfDigits.Digits(v / 10, 10, PrintfDigits.LOWER), last, 0);
    }
  }

  lemma LowerDigit(d: nat)
    requires d < 10
    ensures IsDigit(PrintfDigits.LOWER[d]) && ToDigit(PrintfDigits.LOWER[d]) == d
  {
  }

  lemma ReadMore(last: string, q: nat)
    requires |last| == 1 && IsDigit(last[0])
    ensures ReadDigits(last, q) == 10 * q + ToDigit(last[0])
  {
    assert last[1..] == "";
  }

  lemma {:induction false} ReadBlanks(k: int, s: string)
    ensures Read(Repeat(' ', k) + s) == Read(s)
    decreases k
  {
    var t := Repeat(' ', k) + s;
    if k > 0 {
      ReadBlanks(k - 1, s);
      assert t[1..] == Repeat(' ', k - 1) + s;
    } else {
      assert t == s;
    }
  }

  /** Reading digits stops at the padding behind them. */
  lemma ReadTail(s: string, k: int)
    requires AllDigits(s)
    ensures ReadDigits(s + Repeat(' ', k), 0) == ReadDigits(s, 0)
    ensures s == "" ==> Read(s + Repeat(' ', k)) == 0
    ensures s != "" ==> Read(s + Repeat(' ', k)) == ReadDigits(s, 0)
  {
    ReadSplit(s, Repeat(' ', k), 0);
    if s == "" {
      assert s + Repeat(' ', k) == Repeat(' ', k) + "";
      ReadBlanks(k, "");
    }
  }

  lemma ReadSigned(sign: char, s: string, k: int)
    requires AllDigits(s) && sign in "\0 +-"
    ensures Read((if sign != '\0' then [sign] else "") + (s + Repeat(' ', k)))
            == if sign == '-' then 0 - ReadDigits(s, 0) as int else ReadDigits(s, 0)
  {
    ReadTail(s, k);
    var t := s + Repeat(' ', k);
    if sign == '\0' {
      assert "" + t == t;
    } else {
      assert ([sign] + t)[1..] == t;
    }
  }

  /** Zeros in front of a numeral, or in place of an empty one for 0, leave its value. */
  lemma ReadPadded(k: int, l: int, val: nat, text: string)
    requires text == PrintfDigits.Digits(val, 10, PrintfDigits.LOWER) || (val == 0 && text == "")
    ensures var s := Repeat('0', k) + Repeat('0', l) + text; AllDigits(s) && ReadDigits(s, 0) == val
  {
    hide PrintfDigits.Digits, ReadDigits;
    ReadNumeral(val);
    ReadZeros(k);
    ReadZeros(l);
    ReadZeros(0);
    ReadSplit(Repeat('0', k), Repeat('0', l), 0);
    ReadSplit(Repeat('0', k) + Repeat('0', l), text, 0);
  }

  lemma FieldParts(p: Piece, ladjust: bool, width: int)
    requires p.prefix == '\0'
    ensures var room := width - RealSize(p);
      var zeros := if !ladjust && p.zeropad then room else 0;
      Field(p, ladjust, width)
      == Repeat(' ', if ladjust || p.zeropad then 0 else room)
         + (SignText(p) + (Repeat('0', zeros) + Repeat('0', p.dprec - |p.text|) + p.text
                           + Repeat(' ', if ladjust then room else 0)))
  {
    hide RealSize;
  }

  /** A decimal field without grouping reads back as the number that was printed, however it
      was padded and signed: the argument, wrapped to the type of the conversion. */
  lemma FieldReadsBack(c: char, s: Spec, v: Value, loc: Locale)
    requires (KindOf(c).Decimal? || c == 'u' || c == 'U') && !s.grouping && s.sign in "\0 +"
    ensures Read(FieldOf(c, s, v, loc))
            == if KindOf(c).Decimal? then WrappedSigned(AsInt(v), Size(c, s.mods)) else Wrapped(AsInt(v), Size(c, s.mods))
  {
    hide PrintfDigits.Digits, Read, ReadDigits, Field, RealSize, Size;
    var n: int := if KindOf(c).Decimal? then WrappedSigned(AsInt(v), Size(c, s.mods)) else Wrapped(AsInt(v), Size(c, s.mods));
    var p := Convert(c, s, v, loc);
    var room := s.width - RealSize(p);
    var val: nat := if n < 0 then -n else n;
    var zeros := if !s.ladjust && p.zeropad then room else 0;
    var body := Repeat('0', zeros) + Repeat('0', p.dprec - |p.text|) + p.text;
    ReadPadded(zeros, p.dprec - |p.text|, val, p.text);
    ReadSigned(p.sign, body, if s.ladjust then room else 0);
    FieldParts(p, s.ladjust, s.width);
    ReadBlanks(if s.ladjust || p.zeropad then 0 else room,
               SignText(p) + (body + Repeat(' ', if s.ladjust then room else 0)));
  }

  function Radix(c: char): nat {
    match BaseOf(c)
    case Eight => 8
    case Sixteen => 16
    case Ten => 10
  }

  /** An octal or hexadecimal conversion prints the argument, wrapped to its type, in digits of
      its case: "#" puts a 0 in front of every octal number but 0, and 0x in front of every
      hexadecimal one but 0.  Only zero with precision zero is no characters. */
  lemma NaturalText(c: char, s: Spec, v: Value, loc: Locale)
    requires KindOf(c).Natural? && !BaseOf(c).Ten?
    ensures var n := Wrapped(AsInt(v), Size(c, s.mods));
      var p := Convert(c, s, v, loc);
      && PrintfDigits.ValueOf(p.text, Radix(c), HexDigits(c)) == n
      && (p.text == "" <==> n == 0 && s.prec == 0 && !(s.alt && BaseOf(c).Eight?))
      && (p.text != "" ==> (p.text[0] == '0' <==> n == 0 || (s.alt && BaseOf(c).Eight?)))
      && p.sign == '\0'
      && p.prefix == if s.alt && BaseOf(c).Sixteen? && n != 0 then c else '\0'
  {
    hide PrintfDigits.Digits, PrintfDigits.ValueOf, Size;
    var n := Wrapped(AsInt(v), Size(c, s.mods));
    var digits := HexDigits(c);
    DistinctDigits(c);
    PrintfDigits.ValueOfNothing(Radix(c), digits);
    PrintfDigits.DigitsValue(n, Radix(c), digits);
    var text := PrintfDigits.Digits(n, Radix(c), digits);
    ZeroFirst(c, text);
    assert "" + text == text;
    if n == 0 {
      PrintfDigits.DigitsStep(0, Radix(c), digits, "");
      assert text + "" == text && [digits[0]] + "" == [digits[0]];
    }
    if BaseOf(c).Eight? {
      SameDigits(n);
    }
  }

  lemma DistinctDigits(c: char)
    ensures PrintfDigits.Distinct(HexDigits(c)) && HexDigits(c)[0] == '0'
  {
  }

  lemma SameDigits(n: nat)
    ensures PrintfDigits.Digits(n, 8, PrintfDigits.LOWER) == PrintfDigits.Digits(n, 8, HexDigits('o'))
  {
  }

  /** A leading zero changes nothing. */
  lemma {:induction false} ZeroFirst(c: char, text: string)
    ensures PrintfDigits.ValueOf("0" + text, Radix(c), HexDigits(c)) == PrintfDigits.ValueOf(text, Radix(c), HexDigits(c))
    decreases |text|
  {
    hide PrintfDigits.DigitValue;
    var digits := HexDigits(c);
    if text == "" {
      assert "0" + "" == "" + ['0'];
      PrintfDigits.ValueSnoc("", '0', Radix(c), digits);
      DistinctDigits(c);
      PrintfDigits.DigitValueOf(digits, 0);
    } else {
      var front, last := text[..|text| - 1], text[|text| - 1];
      ZeroFirst(c, front);
      assert "0" + text == "0" + front + [last] && text == front + [last];
      PrintfDigits.ValueSnoc("0" + front, last, Radix(c), digits);
      PrintfDigits.ValueSnoc(front, last, Radix(c), digits);
    }
  }
}
