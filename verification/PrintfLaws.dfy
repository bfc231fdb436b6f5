/** What a conversion specification prints, said with its text: flags, width, precision and
    length modifier. */
module PrintfLaws {
  import opened Util
  import opened PrintfScan
  import opened PrintfArgs
  import opened PrintfFormat
  import opened PrintfOutput
  import opened PrintfText
  import PrintfDigits

  // ----- the text of a specification -----

  function Numeral(n: nat): string { PrintfDigits.Digits(n, 10, PrintfDigits.LOWER) }

  /** A width of 0 is none. */
  function WidthText(w: nat): string { if w == 0 then "" else Numeral(w) }

  function PrecText(p: Option<nat>): string { if p.None? then "" else "." + Numeral(p.value) }

  /** The length modifiers. */
  predicate IsLength(len: string) { forall i :: 0 <= i < |len| ==> IsModifier(len[i]) }

  predicate Flags(flags: string) { forall i :: 0 <= i < |flags| ==> flags[i] in " #-+0'" }

  /** A width or a precision: in the format, or an int argument. */
  datatype Amount = Given(n: nat) | Taken(a: int)

  function WidthPart(w: Amount): string { if w.Given? then WidthText(w.n) else "*" }

  function PrecPart(p: Option<Amount>): string {
    if p.None? then "" else if p.value.Given? then PrecText(Some(p.value.n)) else ".*"
  }

  /** The specification without its '%' and its conversion character. */
  function SpecText(flags: string, w: Amount, p: Option<Amount>, len: string): string {
    flags + WidthPart(w) + PrecPart(p) + len
  }

  // ----- what it means -----

  function Blanks(n: int): string { if n <= 0 then "" else " " + Blanks(n - 1) }

  function Zeros(n: int): string { if n <= 0 then "" else "0" + Zeros(n - 1) }

  /** A text with a lead in a field of `w` characters: '-' puts the blanks behind, '0' puts zeros
      between lead and text, where zeros are in order. */
  function Laid(lead: string, text: string, flags: string, w: nat, zeros: bool): string {
    var n := w - |lead + text|;
    if '-' in flags then lead + text + Blanks(n)
    else if '0' in flags && zeros then lead + Zeros(n) + text
    else Blanks(n) + lead + text
  }

  function CountOf(s: string, c: char): nat {
    if s == "" then 0 else (if s[0] == c then 1 else 0) + CountOf(s[1..], c)
  }

  /** How many values an integer has, by its length modifiers: 64 bits with any of j, z, t, q and
      l, else 16 with h and 8 with hh, else 32. */
  function Values(len: string): (r: nat)
    ensures r > 0
  {
    if 'j' in len || 'z' in len || 't' in len || 'q' in len || 'l' in len then 0x1_0000_0000_0000_0000
    else if CountOf(len, 'h') % 2 == 1 then 0x1_0000
    else if CountOf(len, 'h') > 0 then 0x100 else 0x1_0000_0000
  }

  /** The least number of digits. */
  function AtLeast(digits: string, p: Option<nat>): string {
    if p.Some? && p.value > |digits| then Zeros(p.value - |digits|) + digits else digits
  }

  function SignOf(n: int, flags: string): string {
    if n < 0 then "-" else if '+' in flags then "+" else if ' ' in flags then " " else ""
  }

  function Magnitude(n: int): nat { if n < 0 then -n else n }

  /** Decimal digits, in the groups of the locale if the flag "'" asks for them. */
  function TenDigits(n: nat, flags: string, loc: Locale): string {
    if '\'' in flags then PrintfDigits.Decimal(n, LONG_MAX, true, loc.grouping, loc.sep) else Numeral(n)
  }

  /** %d */
  function DecimalText(n: int, flags: string, w: nat, p: Option<nat>, loc: Locale): string {
    var digits := if n == 0 && p == Some(0) then "" else TenDigits(Magnitude(n), flags, loc);
    Laid(SignOf(n, flags), AtLeast(digits, p), flags, w, p.None?)
  }

  /** %u, %o, %x and %X */
  function NaturalDigits(c: char, n: nat, flags: string, p: Option<nat>, loc: Locale): string {
    if c == 'o' && '#' in flags then (if n == 0 then "0" else "0" + PrintfDigits.Digits(n, 8, PrintfDigits.LOWER))
    else if n == 0 && p == Some(0) then ""
    else if c == 'o' then PrintfDigits.Digits(n, 8, PrintfDigits.LOWER)
    else if c == 'x' then PrintfDigits.Digits(n, 16, PrintfDigits.LOWER)
    else if c == 'X' then PrintfDigits.Digits(n, 16, PrintfDigits.UPPER)
    else TenDigits(n, flags, loc)
  }

  function NaturalText(c: char, n: nat, flags: string, w: nat, p: Option<nat>, loc: Locale): string {
    var lead := if (c == 'x' || c == 'X') && '#' in flags && n != 0 then ['0', c] else "";
    Laid(lead, AtLeast(NaturalDigits(c, n, flags, p, loc), p), flags, w, p.None?)
  }

  /** %s */
  function StringText(s: string, flags: string, w: nat, p: Option<nat>): string {
    var t := CStr(s);
    Laid("", if p.Some? && p.value < |t| then t[..p.value] else t, flags, w, true)
  }

  /** A number in two's complement. */
  function Signed(n: int, values: nat): int
    requires values > 0
  {
    var m := n % values;
    if 2 * m < values then m else m - values
  }

  /** What the conversion `c` makes of an argument. */
  function Meaning(c: char, v: Value, flags: string, w: nat, p: Option<nat>, len: string, loc: Locale): string {
    if c == 's' then
      (if v.Str? && v.s.Some? then StringText(v.s.value, flags, w, p) else StringText("(null)", flags, w, p))
    else if c == 'd' || c == 'i' then DecimalText(Signed(AsInt(v), Values(len)), flags, w, p, loc)
    else if c == 'c' then Laid("", [(AsInt(v) % 0x100) as char], flags, w, true)
    else NaturalText(c, AsInt(v) % Values(len), flags, w, p, loc)
  }

  /** An int argument. */
  function AsC(a: int): int { Signed(a, 0x1_0000_0000) }

  /** A negative width means '-', a negative precision none. */
  function FlagsFor(flags: string, w: Amount): string {
    if w.Taken? && AsC(w.a) < 0 then flags + "-" else flags
  }

  function WidthFor(w: Amount): nat { if w.Given? then w.n else Magnitude(AsC(w.a)) }

  function PrecFor(p: Option<Amount>): Option<nat> {
    match p
    case None => None
    case Some(Given(n)) => Some(n)
    case Some(Taken(a)) => if AsC(a) < 0 then None else Some(AsC(a))
  }

  predicate IsNatural(c: char) { c == 'u' || c == 'o' || c == 'x' || c == 'X' }

  predicate IsConversion(c: char) {
    c == 'd' || c == 'i' || c == 'o' || c == 'x' || c == 'X' || c == 'u' || c == 'c' || c == 's'
  }

  predicate Converts(c: char, len: string) {
    IsLength(len) && IsConversion(c) && (c == 's' || c == 'c' ==> len == "")
  }

  // ----- the field -----

  /** The specification that the text stands for. */
  function Described(flags: string, w: nat, p: Option<nat>, len: string): Spec {
    Spec('#' in flags, '-' in flags, '0' in flags, '\'' in flags, ModsOf(len), w, if p.None? then -1 else p.value,
         if '+' in flags then '+' else if ' ' in flags then ' ' else '\0')
  }

  function AllMods(m: Mods, len: string): Mods
    decreases |len|
  {
    if len == "" then m else AllMods(Modify(m, len[0]), len[1..])
  }

  function ModsOf(len: string): Mods { AllMods(NO_MODS, len) }

  /** What length modifiers come to, in whatever order and number. */
  lemma {:induction false} ModsMean(m: Mods, len: string)
    requires IsLength(len)
    ensures var r, h := AllMods(m, len), CountOf(len, 'h') + if m.short then 1 else 0;
      && (r.intmax <==> m.intmax || 'j' in len) && (r.sizet <==> m.sizet || 'z' in len)
      && (r.ptrdiff <==> m.ptrdiff || 't' in len) && (r.longdbl <==> m.longdbl || 'L' in len)
      && (r.long || r.llong <==> m.long || m.llong || 'l' in len || 'q' in len)
      && (r.short <==> h % 2 == 1) && (r.chr <==> m.chr || h >= 2)
    decreases |len|
  {
    hide Modify;
    if len != "" {
      ModsMean(Modify(m, len[0]), len[1..]);
      ModMeans(m, len[0]);
      Members(len);
    }
  }

  lemma ModMeans(m: Mods, c: char)
    requires IsModifier(c)
    ensures Modify(m, c).intmax <==> m.intmax || c == 'j'
    ensures Modify(m, c).sizet <==> m.sizet || c == 'z'
    ensures Modify(m, c).ptrdiff <==> m.ptrdiff || c == 't'
    ensures Modify(m, c).longdbl <==> m.longdbl || c == 'L'
    ensures Modify(m, c).long || Modify(m, c).llong <==> m.long || m.llong || c == 'l' || c == 'q'
    ensures Modify(m, c).short <==> if c == 'h' then !m.short else m.short
    ensures Modify(m, c).chr <==> m.chr || (c == 'h' && m.short)
  {
    ModIs(m);
    hide Modify;
    match c
    case 'h' =>
    case 'l' =>
    case 'L' =>
    case 'q' =>
    case 'j' =>
    case 't' =>
    case 'z' =>
  }

  /** What each modifier changes. */
  lemma ModIs(m: Mods)
    ensures Modify(m, 'h') == if m.short then m.(short := false, chr := true) else m.(short := true)
    ensures Modify(m, 'l') == if m.long then m.(long := false, llong := true) else m.(long := true)
    ensures Modify(m, 'L') == m.(longdbl := true)
    ensures Modify(m, 'q') == m.(llong := true)
    ensures Modify(m, 'j') == m.(intmax := true)
    ensures Modify(m, 't') == m.(ptrdiff := true)
    ensures Modify(m, 'z') == m.(sizet := true)
  {
  }

  lemma OneMod(c: char)
    ensures ModsOf([c]) == Modify(NO_MODS, c) && ModsOf("") == NO_MODS
  {
    hide Modify;
    assert [c][1..] == "" && AllMods(Modify(NO_MODS, c), "") == Modify(NO_MODS, c);
  }

  lemma TwoMods(c: char)
    ensures ModsOf([c, c]) == Modify(Modify(NO_MODS, c), c)
  {
    hide Modify;
    var m := Modify(NO_MODS, c);
    assert [c, c][1..] == [c] && [c][1..] == "" && AllMods(Modify(m, c), "") == Modify(m, c);
    assert AllMods(m, [c]) == Modify(m, c);
  }

  lemma StandardMods()
    ensures ModsOf("") == NO_MODS && ModsOf("h") == NO_MODS.(short := true) && ModsOf("hh") == NO_MODS.(chr := true)
    ensures ModsOf("l") == NO_MODS.(long := true) && ModsOf("ll") == NO_MODS.(llong := true)
    ensures ModsOf("q") == NO_MODS.(llong := true) && ModsOf("j") == NO_MODS.(intmax := true)
    ensures ModsOf("z") == NO_MODS.(sizet := true) && ModsOf("t") == NO_MODS.(ptrdiff := true)
  {
    OneMod('h');
    OneMod('l');
    OneMod('q');
    OneMod('j');
    OneMod('z');
    OneMod('t');
    TwoMods('h');
    TwoMods('l');
    hide ModsOf;
  }

  /** The types at which the usual conversions fetch their arguments. */
  lemma ArgumentTypes()
    ensures FetchType('d', ModsOf("")) == FetchType('d', ModsOf("h")) == FetchType('d', ModsOf("hh")) == Int
    ensures FetchType('d', ModsOf("l")) == Long && FetchType('d', ModsOf("z")) == SizeT
    ensures FetchType('d', ModsOf("ll")) == FetchType('d', ModsOf("q")) == LLong
    ensures FetchType('d', ModsOf("j")) == IntMax && FetchType('d', ModsOf("t")) == PtrDiff
  {
    StandardMods();
    hide ModsOf, Modify, RecordType;
  }

  lemma UnsignedTypes()
    ensures FetchType('u', ModsOf("")) == FetchType('x', ModsOf("")) == UInt
    ensures FetchType('u', ModsOf("l")) == ULong && FetchType('u', ModsOf("ll")) == ULLong
    ensures FetchType('u', ModsOf("j")) == UIntMax && FetchType('u', ModsOf("z")) == SizeT
    ensures FetchType('c', ModsOf("")) == Int && FetchType('s', ModsOf("")) == CharP
  {
    StandardMods();
    hide ModsOf, Modify, RecordType;
  }

  lemma {:induction false} RepeatIs(n: int)
    ensures Repeat(' ', n) == Blanks(n) && Repeat('0', n) == Zeros(n)
    decreases n
  {
    if n > 0 {
      RepeatIs(n - 1);
      assert Repeat(' ', n) == " " + Repeat(' ', n - 1) && Repeat('0', n) == "0" + Repeat('0', n - 1);
    }
  }

  lemma NoZeros(n: int)
    requires n <= 0
    ensures Zeros(n) == "" && Blanks(n) == ""
  {
  }

  lemma {:induction false} Lengths(n: int)
    ensures |Blanks(n)| == Max(n, 0) && |Zeros(n)| == Max(n, 0)
    decreases n
  {
    if n > 0 {
      Lengths(n - 1);
    }
  }

  lemma Regrouped(a: string, s: string, x: string, b: string, z: string, t: string, c: string)
    ensures "" + s + x + "" + z + t + c == (s + x) + (z + t) + c
    ensures "" + s + x + b + z + t + "" == (s + x) + b + (z + t)
    ensures a + s + x + "" + z + t + "" == a + (s + x) + (z + t)
  {
  }

  lemma RegroupedBare(a: string, s: string, x: string, b: string, t: string, c: string)
    ensures "" + s + x + "" + "" + t + c == (s + x) + t + c
    ensures "" + s + x + b + "" + t + "" == (s + x) + b + t
    ensures a + s + x + "" + "" + t + "" == a + (s + x) + t
  {
  }

  /** The layout of a field, with its precision zeros already in front of the text. */
  lemma LaidIs(p: Piece, flags: string, w: nat, zeros: bool, lead: string, text: string)
    requires lead == SignText(p) + PrefixText(p)
    requires text == if p.dprec > |p.text| then Zeros(p.dprec - |p.text|) + p.text else p.text
    requires p.zeropad == ('0' in flags && zeros)
    ensures Field(p, '-' in flags, w) == Laid(lead, text, flags, w, zeros)
  {
    hide Repeat, Zeros, Blanks, RealSize, SignText, PrefixText;
    var room := w - RealSize(p);
    RepeatIs(room);
    SizeIs(p, lead, text);
    if p.dprec > |p.text| {
      RepeatIs(p.dprec - |p.text|);
      Regrouped(Blanks(room), SignText(p), PrefixText(p), Zeros(room), Zeros(p.dprec - |p.text|), p.text, Blanks(room));
    } else {
      assert Repeat('0', p.dprec - |p.text|) == "";
      RegroupedBare(Blanks(room), SignText(p), PrefixText(p), Zeros(room), p.text, Blanks(room));
    }
  }

  lemma SizeIs(p: Piece, lead: string, text: string)
    requires lead == SignText(p) + PrefixText(p)
    requires text == if p.dprec > |p.text| then Zeros(p.dprec - |p.text|) + p.text else p.text
    ensures |lead + text| == RealSize(p)
  {
    hide Zeros;
    Lengths(p.dprec - |p.text|);
  }

  lemma SizeOfIs(c: char, len: string)
    requires Converts(c, len)
    ensures Size(c, ModsOf(len)) == Values(len)
  {
    hide AllMods;
    ModsMean(NO_MODS, len);
    HasOne(len, 'h');
  }

  lemma {:induction false} HasOne(s: string, c: char)
    ensures CountOf(s, c) > 0 <==> c in s
  {
    if s != "" {
      HasOne(s[1..], c);
      Members(s);
    }
  }

  lemma DecimalMeans(c: char, v: Value, flags: string, w: nat, p: Option<nat>, len: string, loc: Locale)
    requires Converts(c, len) && (c == 'd' || c == 'i')
    ensures FieldOf(c, Described(flags, w, p, len), v, loc)
         == DecimalText(Signed(AsInt(v), Values(len)), flags, w, p, loc)
  {
    hide PrintfDigits.Digits, Repeat, Zeros, Blanks, Field, Laid, Size, ModsOf, Values;
    SizeOfIs(c, len);
    var s := Described(flags, w, p, len);
    var piece := Convert(c, s, v, loc);
    var n := Signed(AsInt(v), Values(len));
    assert n == WrappedSigned(AsInt(v), Values(len));
    var digits := if n == 0 && p == Some(0) then "" else TenDigits(Magnitude(n), flags, loc);
    assert piece == Piece(digits, if n < 0 then '-' else s.sign, '\0', s.prec, s.zeropad && s.prec < 0);
    Lead(piece, SignOf(n, flags));
    LaidIs(piece, flags, w, p.None?, SignOf(n, flags), AtLeast(digits, p));
  }

  lemma Lead(p: Piece, lead: string)
    requires p.prefix == '\0' && lead == (if p.sign == '\0' then "" else [p.sign])
    ensures lead == SignText(p) + PrefixText(p)
  {
  }

  function PrefixOf(c: char, n: nat, flags: string): char {
    if (c == 'x' || c == 'X') && '#' in flags && n != 0 then c else '\0'
  }

  lemma NaturalPiece(c: char, v: Value, flags: string, w: nat, p: Option<nat>, len: string, loc: Locale)
    requires Converts(c, len) && IsNatural(c)
    ensures var n, s := AsInt(v) % Values(len), Described(flags, w, p, len);
      Convert(c, s, v, loc)
      == Piece(NaturalDigits(c, n, flags, p, loc), '\0', PrefixOf(c, n, flags), s.prec, s.zeropad && s.prec < 0)
  {
    hide PrintfDigits.Digits, Size, ModsOf, Values, NumberText, NaturalDigits;
    SizeOfIs(c, len);
    DigitsMean(c, AsInt(v) % Values(len), flags, w, p, len, loc);
  }

  lemma NaturalMeans(c: char, v: Value, flags: string, w: nat, p: Option<nat>, len: string, loc: Locale)
    requires Converts(c, len) && IsNatural(c)
    ensures FieldOf(c, Described(flags, w, p, len), v, loc)
         == NaturalText(c, AsInt(v) % Values(len), flags, w, p, loc)
  {
    hide Convert, Repeat, Zeros, Blanks, Field, Laid, Values, NaturalDigits, ModsOf;
    NaturalPiece(c, v, flags, w, p, len, loc);
    var n, s := AsInt(v) % Values(len), Described(flags, w, p, len);
    var piece := Convert(c, s, v, loc);
    LaidIs(piece, flags, w, p.None?, SignText(piece) + PrefixText(piece), AtLeast(NaturalDigits(c, n, flags, p, loc), p));
    assert "" + PrefixText(piece) == PrefixText(piece);
  }

  lemma DigitsMean(c: char, n: nat, flags: string, w: nat, p: Option<nat>, len: string, loc: Locale)
    requires IsNatural(c)
    ensures NumberText(n, BaseOf(c), HexDigits(c), Described(flags, w, p, len), loc) == NaturalDigits(c, n, flags, p, loc)
  {
    hide PrintfDigits.Digits, ModsOf;
    OctalZero();
    var text := PrintfDigits.Digits(n, 8, PrintfDigits.LOWER);
    assert "" + text == text;
  }

  lemma OctalZero()
    ensures PrintfDigits.Digits(0, 8, PrintfDigits.LOWER) == "0"
  {
  }

  lemma TextMeans(c: char, v: Value, flags: string, w: nat, p: Option<nat>, loc: Locale)
    requires c == 's' || c == 'c'
    ensures FieldOf(c, Described(flags, w, p, ""), v, loc) == Meaning(c, v, flags, w, p, "", loc)
  {
    hide Repeat, Zeros, Blanks, Field, Laid, CStr;
    var s := Described(flags, w, p, "");
    var piece := Convert(c, s, v, loc);
    assert CStr("(null)") == "(null)";
    LaidIs(piece, flags, w, true, "", piece.text);
  }

  /** A conversion makes of its argument what its text says. */
  lemma FieldMeans(c: char, v: Value, flags: string, w: nat, p: Option<nat>, len: string, loc: Locale)
    requires Converts(c, len)
    ensures FieldOf(c, Described(flags, w, p, len), v, loc) == Meaning(c, v, flags, w, p, len, loc)
  {
    hide FieldOf, Described, DecimalText, NaturalText, StringText, Laid;
    if c == 's' || c == 'c' {
      TextMeans(c, v, flags, w, p, loc);
    } else if c == 'd' || c == 'i' {
      DecimalMeans(c, v, flags, w, p, len, loc);
    } else {
      NaturalMeans(c, v, flags, w, p, len, loc);
    }
  }

  // ----- reading a specification -----

  /** `t` stands at `i`. */
  predicate StartsAt(fmt: string, i: nat, t: string) {
    i + |t| <= |fmt| && fmt[i..i + |t|] == t
  }

  /** What is left of the output, of the arguments used, and whether it is covered, at a place
      inside a specification. */
  ghost predicate LeadsTo(fmt: string, i: nat, s: Spec, j: nat, s': Spec, args: seq<Arg>, k: nat, loc: Locale)
    requires i <= |fmt| && j <= |fmt|
  {
    && InSpec(fmt, i, s, args, k, loc) == InSpec(fmt, j, s', args, k, loc)
    && Uses(fmt, i, Some(s.mods), k, true) == Uses(fmt, j, Some(s'.mods), k, true)
    && (Supported(fmt, i, Some(s.mods)) <==> Supported(fmt, j, Some(s'.mods)))
  }

  lemma LeadsOn(fmt: string, i: nat, s: Spec, j: nat, s': Spec, j': nat, s'': Spec, args: seq<Arg>, k: nat, loc: Locale)
    requires i <= |fmt| && j <= |fmt| && j' <= |fmt|
    requires LeadsTo(fmt, i, s, j, s', args, k, loc) && LeadsTo(fmt, j, s', j', s'', args, k, loc)
    ensures LeadsTo(fmt, i, s, j', s'', args, k, loc)
  {
    hide InSpec, Uses, Supported;
  }

  function WithFlags(s: Spec, flags: string): Spec
    decreases |flags|
  {
    if flags == "" then s else WithFlags(WithFlag(s, flags[0]), flags[1..])
  }

  lemma OneFlag(fmt: string, i: nat, s: Spec, args: seq<Arg>, k: nat, loc: Locale)
    requires i < |fmt| && IsFlag(fmt[i])
    ensures LeadsTo(fmt, i, s, i + 1, WithFlag(s, fmt[i]), args, k, loc)
  {
    hide Modify, FieldOf, NextPercent;
    assert WithFlag(s, fmt[i]).mods == s.mods;
  }

  lemma {:induction false} FlagsParsed(fmt: string, i: nat, s: Spec, flags: string, args: seq<Arg>, k: nat, loc: Locale)
    requires StartsAt(fmt, i, flags) && Flags(flags)
    ensures LeadsTo(fmt, i, s, i + |flags|, WithFlags(s, flags), args, k, loc)
    decreases |flags|
  {
    hide LeadsTo, WithFlag;
    if flags == "" {
      LeadsNowhere(fmt, i, s, args, k, loc);
    } else {
      assert fmt[i] == fmt[i..i + |flags|][0] && fmt[i + 1..i + |flags|] == flags[1..];
      OneFlag(fmt, i, s, args, k, loc);
      FlagsParsed(fmt, i + 1, WithFlag(s, flags[0]), flags[1..], args, k, loc);
      LeadsOn(fmt, i, s, i + 1, WithFlag(s, flags[0]), i + |flags|, WithFlags(s, flags), args, k, loc);
    }
  }

  lemma LeadsNowhere(fmt: string, i: nat, s: Spec, args: seq<Arg>, k: nat, loc: Locale)
    requires i <= |fmt|
    ensures LeadsTo(fmt, i, s, i, s, args, k, loc)
  {
  }

  /** What the flags come to, in whatever order and number. */
  lemma {:induction false} FlagsMean(s: Spec, flags: string)
    requires Flags(flags)
    ensures WithFlags(s, flags)
         == s.(alt := s.alt || '#' in flags, ladjust := s.ladjust || '-' in flags, zeropad := s.zeropad || '0' in flags,
               grouping := s.grouping || '\'' in flags,
               sign := if '+' in flags then '+' else if s.sign == '\0' && ' ' in flags then ' ' else s.sign)
    decreases |flags|
  {
    hide WithFlag;
    if flags != "" {
      FlagsMean(WithFlag(s, flags[0]), flags[1..]);
      FlagMeans(s, flags[0]);
      Members(flags);
    }
  }

  lemma Members(s: string)
    requires s != ""
    ensures forall c :: c in s <==> c == s[0] || c in s[1..]
  {
  }

  lemma FlagMeans(s: Spec, c: char)
    requires c in " #-+0'"
    ensures WithFlag(s, c)
         == s.(alt := s.alt || c == '#', ladjust := s.ladjust || c == '-', zeropad := s.zeropad || c == '0',
               grouping := s.grouping || c == '\'',
               sign := if c == '+' then '+' else if s.sign == '\0' && c == ' ' then ' ' else s.sign)
  {
  }

  /** Digits are read to their end. */
  lemma {:induction false} NumberRead(fmt: string, i: nat, n: nat, digits: string)
    requires StartsAt(fmt, i, digits) && PrintfFormat.AllDigits(digits) && !IsDigit(CharAt(fmt, i + |digits|))
    ensures Number(fmt, i, n) == (ReadDigits(digits, n), i + |digits|)
    decreases |digits|
  {
    if digits != "" {
      assert fmt[i] == fmt[i..i + |digits|][0] && fmt[i + 1..i + |digits|] == digits[1..];
      assert IsDigit(digits[0]);
      NumberRead(fmt, i + 1, 10 * n + ToDigit(fmt[i]), digits[1..]);
    }
  }

  lemma NumeralRead(fmt: string, i: nat, n: nat)
    requires StartsAt(fmt, i, Numeral(n)) && !IsDigit(CharAt(fmt, i + |Numeral(n)|))
    ensures Number(fmt, i, 0) == (n, i + |Numeral(n)|)
    ensures IsDigit(CharAt(fmt, i)) && (n > 0 ==> CharAt(fmt, i) != '0')
  {
    hide PrintfDigits.Digits, Number, ReadDigits;
    ReadNumeral(n);
    NumberRead(fmt, i, 0, Numeral(n));
    FirstDigit(n);
    assert fmt[i] == fmt[i..i + |Numeral(n)|][0];
  }

  lemma FirstDigit(n: nat)
    ensures |Numeral(n)| > 0 && IsDigit(Numeral(n)[0]) && (n > 0 ==> Numeral(n)[0] != '0')
  {
    hide PrintfDigits.Digits, PrintfDigits.ValueOf;
    ReadNumeral(n);
    PrintfFormat.DistinctDigits('x');
    PrintfDigits.DigitsValue(n, 10, PrintfDigits.LOWER);
  }

  lemma TokenParsed(fmt: string, i: nat, s: Spec, token: Token, end: nat, args: seq<Arg>, k: nat, loc: Locale)
    requires i < |fmt| && Lex(fmt, i) == (token, end) && (token.Width? || token.Prec?)
    ensures LeadsTo(fmt, i, s, end, WithToken(s, token, args, k), args, k, loc)
  {
    hide Lex;
  }

  lemma WidthParsed(fmt: string, i: nat, s: Spec, w: nat, args: seq<Arg>, k: nat, loc: Locale)
    requires StartsAt(fmt, i, WidthText(w)) && s.width == 0
    requires var c := CharAt(fmt, i + |WidthText(w)|); !IsDigit(c) && c != '$'
    ensures LeadsTo(fmt, i, s, i + |WidthText(w)|, s.(width := w), args, k, loc)
  {
    hide LeadsTo, PrintfDigits.Digits, Lex;
    if w > 0 {
      WidthLexed(fmt, i, w);
      TokenParsed(fmt, i, s, Width(w), i + |Numeral(w)|, args, k, loc);
    } else {
      LeadsNowhere(fmt, i, s, args, k, loc);
    }
  }

  lemma WidthLexed(fmt: string, i: nat, w: nat)
    requires StartsAt(fmt, i, Numeral(w)) && w > 0
    requires var c := CharAt(fmt, i + |Numeral(w)|); !IsDigit(c) && c != '$'
    ensures i < |fmt| && Lex(fmt, i) == (Width(w), i + |Numeral(w)|)
  {
    hide Number, PrintfDigits.Digits;
    NumeralRead(fmt, i, w);
  }

  lemma PrecParsed(fmt: string, i: nat, s: Spec, p: Option<nat>, args: seq<Arg>, k: nat, loc: Locale)
    requires StartsAt(fmt, i, PrecText(p)) && s.prec == -1 && !IsDigit(CharAt(fmt, i + |PrecText(p)|))
    ensures LeadsTo(fmt, i, s, i + |PrecText(p)|, s.(prec := if p.None? then -1 else p.value), args, k, loc)
  {
    hide LeadsTo, PrintfDigits.Digits, Lex;
    if p.Some? {
      PrecLexed(fmt, i, p.value);
      TokenParsed(fmt, i, s, Prec(p.value), i + 1 + |Numeral(p.value)|, args, k, loc);
    } else {
      LeadsNowhere(fmt, i, s, args, k, loc);
    }
  }

  lemma PrecLexed(fmt: string, i: nat, p: nat)
    requires StartsAt(fmt, i, "." + Numeral(p)) && !IsDigit(CharAt(fmt, i + 1 + |Numeral(p)|))
    ensures i < |fmt| && Lex(fmt, i) == (Prec(p), i + 1 + |Numeral(p)|)
  {
    hide Number, PrintfDigits.Digits;
    var t := "." + Numeral(p);
    assert fmt[i] == fmt[i..i + |t|][0] && fmt[i + 1..i + |t|] == t[1..] == Numeral(p);
    NumeralRead(fmt, i + 1, p);
  }

  lemma OneModifier(fmt: string, i: nat, s: Spec, args: seq<Arg>, k: nat, loc: Locale)
    requires i < |fmt| && IsModifier(fmt[i])
    ensures LeadsTo(fmt, i, s, i + 1, s.(mods := Modify(s.mods, fmt[i])), args, k, loc)
  {
    hide Modify, FieldOf, NextPercent;
  }

  lemma {:induction false} LengthParsed(fmt: string, i: nat, s: Spec, len: string, args: seq<Arg>, k: nat, loc: Locale)
    requires StartsAt(fmt, i, len) && IsLength(len)
    ensures LeadsTo(fmt, i, s, i + |len|, s.(mods := AllMods(s.mods, len)), args, k, loc)
    decreases |len|
  {
    hide LeadsTo, Modify;
    if len == "" {
      LeadsNowhere(fmt, i, s, args, k, loc);
    } else {
      var s1 := s.(mods := Modify(s.mods, len[0]));
      assert fmt[i] == fmt[i..i + |len|][0] && fmt[i + 1..i + |len|] == len[1..];
      OneModifier(fmt, i, s, args, k, loc);
      LengthParsed(fmt, i + 1, s1, len[1..], args, k, loc);
      LeadsOn(fmt, i, s, i + 1, s1, i + |len|, s1.(mods := AllMods(s1.mods, len[1..])), args, k, loc);
    }
  }

  /** A text in parts, one behind the other. */
  lemma PartsAt(fmt: string, i: nat, a: string, b: string)
    requires StartsAt(fmt, i, a + b)
    ensures StartsAt(fmt, i, a) && StartsAt(fmt, i + |a|, b)
    ensures b != "" ==> CharAt(fmt, i + |a|) == b[0]
  {
    var t := fmt[i..i + |a + b|];
    assert fmt[i..i + |a|] == t[..|a|] && fmt[i + |a|..i + |a| + |b|] == t[|a|..];
    assert b != "" ==> fmt[i + |a|] == t[|a|];
  }

  lemma Nested(a: string, b: string, c: string, d: string, e: string)
    ensures a + b + c + d + e == a + (b + (c + (d + e)))
    ensures c + d + e == c + (d + e)
  {
  }

  lemma Inside(fmt: string, i: nat, c: char)
    requires StartsAt(fmt, i, [c])
    ensures i < |fmt| && fmt[i] == c
  {
    assert fmt[i] == fmt[i..i + 1][0];
  }

  /** The end of a specification, and a literal text behind it. */
  lemma SpecEnds(fmt: string, j: nat, s: Spec, c: char, args: seq<Arg>, k: nat, loc: Locale)
    requires j < |fmt| && fmt[j] == c && IsConversion(c) && Literal(fmt, j + 1)
    requires Plain(c, s.mods) && !FetchType(c, s.mods).Unused?
    ensures InSpec(fmt, j, s, args, k, loc) == [FieldOf(c, s, Argument(args, k), loc), fmt[j + 1..]]
    ensures Uses(fmt, j, Some(s.mods), k, true) == [Use(k, FetchType(c, s.mods))]
    ensures Supported(fmt, j, Some(s.mods))
  {
    hide FieldOf, FetchType, Plain;
    assert Lex(fmt, j) == (Conversion(c), j + 1);
    LiteralPieces(fmt, j + 1, args, k + 1, loc);
    assert [FieldOf(c, s, Argument(args, k), loc)] + [fmt[j + 1..]]
        == [FieldOf(c, s, Argument(args, k), loc), fmt[j + 1..]];
  }

  lemma ConvertsPlain(c: char, len: string, flags: string, w: nat, p: Option<nat>)
    requires Converts(c, len)
    ensures IsConversion(c)
    ensures var m := Described(flags, w, p, len).mods; m == ModsOf(len) && Plain(c, m) && !FetchType(c, m).Unused?
  {
  }

  lemma FirstOf(pre: string, fmt: string)
    requires pre <= fmt
    ensures fmt[..|pre|] == pre
  {
  }

  lemma ThreeParts(a: string, b: string, c: string)
    ensures [a] + [b, c] == [a, b, c]
  {
  }

  /** Where the parts of such a format stand. */
  lemma Behind(pre: string, t: string, post: string)
    requires t != "" && Literal(post)
    ensures var fmt := pre + ("%" + t) + post;
      && pre < fmt && fmt[|pre|] == '%' && StartsAt(fmt, |pre| + 1, t)
      && fmt[|pre| + 1 + |t|..] == post && Literal(fmt, |pre| + 1 + |t|)
  {
    var fmt := pre + ("%" + t) + post;
    assert fmt[|pre| + 1..|pre| + 1 + |t|] == t;
    assert forall k :: |pre| + 1 + |t| <= k < |fmt| ==> fmt[k] == post[k - (|pre| + 1 + |t|)];
  }

  lemma FirstPieces(fmt: string, i: nat, args: seq<Arg>, loc: Locale)
    requires i < |fmt| && fmt[i] == '%' && NextPercent(fmt, 0) == i
    ensures Pieces(fmt, 0, args, 1, loc) == [fmt[..i]] + InSpec(fmt, i + 1, NO_SPEC, args, 1, loc)
    ensures Supported(fmt, 0, None) <==> Supported(fmt, i + 1, Some(NO_MODS))
    ensures Fetched(fmt) == Uses(fmt, i + 1, Some(NO_MODS), 1, true)
  {
    hide InSpec;
  }

  // ----- arguments for width and precision, and numbered arguments -----

  /** The arguments that such amounts take. */
  function TakenBy(w: Amount, p: Option<Amount>): seq<Arg> {
    (if w.Taken? then [Arg(Int, Num(w.a))] else [])
    + (if p.Some? && p.value.Taken? then [Arg(Int, Num(p.value.a))] else [])
  }

  function Ints(k: nat, n: nat): seq<Use>
    decreases n
  {
    if n == 0 then [] else [Use(k, Int)] + Ints(k + 1, n - 1)
  }

  /** As `LeadsTo`, with `n` int arguments used on the way. */
  ghost predicate TakesTo(fmt: string, i: nat, s: Spec, n: nat, j: nat, s': Spec, args: seq<Arg>, k: nat, loc: Locale)
    requires i <= |fmt| && j <= |fmt|
  {
    && InSpec(fmt, i, s, args, k, loc) == InSpec(fmt, j, s', args, k + n, loc)
    && Uses(fmt, i, Some(s.mods), k, true) == Ints(k, n) + Uses(fmt, j, Some(s'.mods), k + n, true)
    && (Supported(fmt, i, Some(s.mods)) <==> Supported(fmt, j, Some(s'.mods)))
  }

  lemma {:induction false} IntsJoin(k: nat, m: nat, n: nat)
    ensures Ints(k, m) + Ints(k + m, n) == Ints(k, m + n)
    decreases m
  {
    if m > 0 {
      IntsJoin(k + 1, m - 1, n);
      assert [Use(k, Int)] + Ints(k + 1, m - 1) + Ints(k + m, n) == [Use(k, Int)] + (Ints(k + 1, m - 1) + Ints(k + m, n));
    } else {
      assert [] + Ints(k, n) == Ints(k, n);
    }
  }

  lemma TakesOn(fmt: string, i: nat, s: Spec, n: nat, j: nat, s': Spec, n': nat, j': nat, s'': Spec,
                args: seq<Arg>, k: nat, loc: Locale)
    requires i <= |fmt| && j <= |fmt| && j' <= |fmt|
    requires TakesTo(fmt, i, s, n, j, s', args, k, loc) && TakesTo(fmt, j, s', n', j', s'', args, k + n, loc)
    ensures TakesTo(fmt, i, s, n + n', j', s'', args, k, loc)
  {
    hide InSpec, Uses, Supported, Ints;
    IntsJoin(k, n, n');
    var us := Uses(fmt, j', Some(s''.mods), k + n + n', true);
    assert Ints(k, n) + (Ints(k + n, n') + us) == Ints(k, n) + Ints(k + n, n') + us;
  }

  lemma LeadsTakes(fmt: string, i: nat, s: Spec, j: nat, s': Spec, args: seq<Arg>, k: nat, loc: Locale)
    requires i <= |fmt| && j <= |fmt| && LeadsTo(fmt, i, s, j, s', args, k, loc)
    ensures TakesTo(fmt, i, s, 0, j, s', args, k, loc)
  {
    hide InSpec, Uses, Supported;
    assert [] + Uses(fmt, j, Some(s'.mods), k, true) == Uses(fmt, j, Some(s'.mods), k, true);
  }

  lemma StarLexed(fmt: string, i: nat)
    requires i < |fmt| && !IsDigit(CharAt(fmt, i + 1)) && CharAt(fmt, i + 1) != '$'
    ensures fmt[i] == '*' ==> Lex(fmt, i) == (Star(None), i + 1)
  {
  }

  lemma PrecStarLexed(fmt: string, i: nat)
    requires i + 1 < |fmt| && fmt[i] == '.' && fmt[i + 1] == '*'
    requires !IsDigit(CharAt(fmt, i + 2)) && CharAt(fmt, i + 2) != '$'
    ensures Lex(fmt, i) == (PrecStar(None), i + 2)
  {
  }

  lemma StarTakes(fmt: string, i: nat, s: Spec, token: Token, end: nat, args: seq<Arg>, k: nat, loc: Locale)
    requires i < |fmt| && Lex(fmt, i) == (token, end) && (token == Star(None) || token == PrecStar(None))
    ensures TakesTo(fmt, i, s, 1, end, WithToken(s, token, args, k), args, k, loc)
  {
    hide Lex;
    assert WithToken(s, token, args, k).mods == s.mods;
    assert Ints(k, 1) == [Use(k, Int)] + Ints(k + 1, 0) == [Use(k, Int)];
  }

  /** The specification with the width, read from the format or taken from an argument. */
  function Widened(s: Spec, w: Amount): Spec {
    if w.Given? then s.(width := w.n) else WithWidth(s, AsC(w.a))
  }

  lemma WidthTakes(fmt: string, i: nat, s: Spec, w: Amount, args: seq<Arg>, k: nat, loc: Locale)
    requires StartsAt(fmt, i, WidthPart(w)) && s.width == 0
    requires w.Taken? ==> Argument(args, k) == Num(w.a)
    requires var c := CharAt(fmt, i + |WidthPart(w)|); !IsDigit(c) && c != '$'
    ensures TakesTo(fmt, i, s, if w.Taken? then 1 else 0, i + |WidthPart(w)|,
                    Widened(s, w), args, k, loc)
  {
    hide LeadsTo, TakesTo, Lex, WidthText, WithWidth;
    if w.Given? {
      WidthParsed(fmt, i, s, w.n, args, k, loc);
      LeadsTakes(fmt, i, s, i + |WidthText(w.n)|, s.(width := w.n), args, k, loc);
    } else {
      Inside(fmt, i, '*');
      StarLexed(fmt, i);
      StarTakes(fmt, i, s, Star(None), i + 1, args, k, loc);
      assert IntArg(Num(w.a)) == AsC(w.a);
    }
  }

  function Limited(s: Spec, p: Option<Amount>): Spec {
    match p
    case None => s
    case Some(Given(n)) => s.(prec := n)
    case Some(Taken(a)) => s.(prec := AsC(a))
  }

  lemma PrecTakes(fmt: string, i: nat, s: Spec, p: Option<Amount>, args: seq<Arg>, k: nat, loc: Locale)
    requires StartsAt(fmt, i, PrecPart(p)) && s.prec == -1
    requires p.Some? && p.value.Taken? ==> Argument(args, k) == Num(p.value.a)
    requires !IsDigit(CharAt(fmt, i + |PrecPart(p)|)) && CharAt(fmt, i + |PrecPart(p)|) != '$'
    ensures TakesTo(fmt, i, s, if p.Some? && p.value.Taken? then 1 else 0, i + |PrecPart(p)|, Limited(s, p), args, k, loc)
  {
    hide LeadsTo, TakesTo, Lex, PrecText;
    if p.Some? && p.value.Taken? {
      assert fmt[i] == fmt[i..i + 2][0] && fmt[i + 1] == fmt[i..i + 2][1];
      PrecStarLexed(fmt, i);
      StarTakes(fmt, i, s, PrecStar(None), i + 2, args, k, loc);
      assert IntArg(Num(p.value.a)) == AsC(p.value.a);
    } else {
      var q := if p.None? then None else Some(p.value.n);
      NoPrec();
      PrecParsed(fmt, i, s, q, args, k, loc);
      LeadsTakes(fmt, i, s, i + |PrecPart(p)|, Limited(s, p), args, k, loc);
    }
  }

  lemma NoPrec()
    ensures PrecText(None) == ""
  {
  }

  /** What stands behind a width, a precision or a length. */
  lemma Follows(p: Option<Amount>, len: string, c: char)
    requires IsLength(len) && IsConversion(c)
    ensures var t := PrecPart(p) + (len + [c]); t != "" && !IsDigit(t[0]) && t[0] != '$'
    ensures var t := len + [c]; t != "" && !IsDigit(t[0]) && t[0] != '$'
  {
    hide PrintfDigits.Digits;
    if p.Some? {
      assert (PrecPart(p) + (len + [c]))[0] == '.';
    } else if len != "" {
      assert (PrecPart(p) + (len + [c]))[0] == len[0];
    } else {
      assert (PrecPart(p) + (len + [c]))[0] == c;
    }
  }

  /** Where the parts of a specification stand. */
  lemma SpecAt(fmt: string, i: nat, flags: string, w: Amount, p: Option<Amount>, len: string, c: char)
    requires IsLength(len) && IsConversion(c) && StartsAt(fmt, i, SpecText(flags, w, p, len) + [c])
    ensures var i1 := i + |flags|;
      var i2 := i1 + |WidthPart(w)|;
      var i3 := i2 + |PrecPart(p)|;
      var j := i3 + |len|;
      && j == i + |SpecText(flags, w, p, len)| < |fmt| && fmt[j] == c
      && StartsAt(fmt, i, flags) && StartsAt(fmt, i1, WidthPart(w)) && StartsAt(fmt, i2, PrecPart(p))
      && StartsAt(fmt, i3, len)
      && (var d := CharAt(fmt, i2); !IsDigit(d) && d != '$') && (var d := CharAt(fmt, i3); !IsDigit(d) && d != '$')
  {
    hide *;
    var wt, pt := WidthPart(w), PrecPart(p);
    SpecTextIs(flags, w, p, len);
    Nested(flags, wt, pt, len, [c]);
    Follows(p, len, c);
    PartsAt(fmt, i, flags, wt + (pt + (len + [c])));
    PartsAt(fmt, i + |flags|, wt, pt + (len + [c]));
    PartsAt(fmt, i + |flags| + |wt|, pt, len + [c]);
    PartsAt(fmt, i + |flags| + |wt| + |pt|, len, [c]);
    Inside(fmt, i + |flags| + |wt| + |pt| + |len|, c);
  }

  lemma SpecTextIs(flags: string, w: Amount, p: Option<Amount>, len: string)
    ensures SpecText(flags, w, p, len) == flags + WidthPart(w) + PrecPart(p) + len
    ensures |SpecText(flags, w, p, len)| == |flags| + |WidthPart(w)| + |PrecPart(p)| + |len|
  {
    hide WidthPart, PrecPart;
  }

  /** How many arguments the amounts take. */
  function Takes(w: Amount, p: Option<Amount>): nat {
    (if w.Taken? then 1 else 0) + (if p.Some? && p.value.Taken? then 1 else 0)
  }

  /** The arguments from `k` on are those that the amounts take. */
  predicate TakenAt(args: seq<Arg>, k: nat, w: Amount, p: Option<Amount>) {
    && (w.Taken? ==> Argument(args, k) == Num(w.a))
    && (p.Some? && p.value.Taken? ==> Argument(args, k + if w.Taken? then 1 else 0) == Num(p.value.a))
  }

  /** The text of a specification is read as what it stands for. */
  lemma SpecParsed(fmt: string, i: nat, flags: string, w: Amount, p: Option<Amount>, len: string, c: char,
                   args: seq<Arg>, k: nat, loc: Locale)
    requires Flags(flags) && Converts(c, len) && StartsAt(fmt, i, SpecText(flags, w, p, len) + [c])
    requires TakenAt(args, k, w, p)
    ensures var j := i + |SpecText(flags, w, p, len)|;
      && j < |fmt| && fmt[j] == c
      && TakesTo(fmt, i, NO_SPEC, Takes(w, p), j, Parsed(flags, w, p, len), args, k, loc)
  {
    hide TakesTo, LeadsTo, IsDigit, Flags, ModsOf, Parsed, WidthPart, PrecPart, WithFlags, SpecText, IsLength, CharAt,
         Widened, Limited, Argument;
    SpecAt(fmt, i, flags, w, p, len, c);
    var i1 := i + |flags|;
    var i2 := i1 + |WidthPart(w)|;
    var i3 := i2 + |PrecPart(p)|;
    var s1 := WithFlags(NO_SPEC, flags);
    var s2, n2 := Widened(s1, w), if w.Taken? then 1 else 0;
    var s3, n3 := Limited(s2, p), if p.Some? && p.value.Taken? then 1 else 0;
    var s4 := s3.(mods := ModsOf(len));
    FlagsMean(NO_SPEC, flags);
    AmountsKeep(s1, w, p);
    FlagsParsed(fmt, i, NO_SPEC, flags, args, k, loc);
    LeadsTakes(fmt, i, NO_SPEC, i1, s1, args, k, loc);
    WidthTakes(fmt, i1, s1, w, args, k, loc);
    TakesOn(fmt, i, NO_SPEC, 0, i1, s1, n2, i2, s2, args, k, loc);
    PrecTakes(fmt, i2, s2, p, args, k + n2, loc);
    TakesOn(fmt, i, NO_SPEC, n2, i2, s2, n3, i3, s3, args, k, loc);
    LengthParsed(fmt, i3, s3, len, args, k + n2 + n3, loc);
    OneModsOf(len);
    LeadsTakes(fmt, i3, s3, i3 + |len|, s4, args, k + n2 + n3, loc);
    TakesOn(fmt, i, NO_SPEC, n2 + n3, i3, s3, 0, i3 + |len|, s4, args, k, loc);
    DescribedIs(flags, w, p, len, s1, s4);
  }

  lemma OneModsOf(len: string)
    ensures ModsOf(len) == AllMods(NO_MODS, len)
  {
  }

  lemma AmountsKeep(s: Spec, w: Amount, p: Option<Amount>)
    requires s.prec == -1 && s.mods == NO_MODS
    ensures Widened(s, w).prec == -1 && Limited(Widened(s, w), p).mods == NO_MODS
  {
  }

  /** The specification as it is read: a negative precision stays as it is. */
  function Parsed(flags: string, w: Amount, p: Option<Amount>, len: string): Spec {
    Described(FlagsFor(flags, w), WidthFor(w), PrecFor(p), len).(prec := RawPrec(p))
  }

  function RawPrec(p: Option<Amount>): int {
    match p
    case None => -1
    case Some(Given(n)) => n
    case Some(Taken(a)) => AsC(a)
  }

  lemma DescribedIs(flags: string, w: Amount, p: Option<Amount>, len: string, s: Spec, s': Spec)
    requires s == NO_SPEC.(alt := '#' in flags, ladjust := '-' in flags, zeropad := '0' in flags,
                           grouping := '\'' in flags,
                           sign := if '+' in flags then '+' else if ' ' in flags then ' ' else '\0')
    requires s' == Limited(Widened(s, w), p).(mods := ModsOf(len))
    ensures s' == Parsed(flags, w, p, len)
  {
    hide ModsOf, AsC;
    MinusMore(flags);
    WidenedIs(s, w);
    assert Limited(Widened(s, w), p) == Widened(s, w).(prec := RawPrec(p));
  }

  lemma WidenedIs(s: Spec, w: Amount)
    ensures Widened(s, w) == s.(width := WidthFor(w), ladjust := s.ladjust || (w.Taken? && AsC(w.a) < 0))
            || (s.width != 0 && w.Given?)
    ensures w.Given? ==> Widened(s, w) == s.(width := w.n)
  {
    hide AsC;
  }

  lemma MinusMore(flags: string)
    ensures var f := flags + "-";
      && '-' in f && ('#' in f <==> '#' in flags) && ('0' in f <==> '0' in flags) && ('\'' in f <==> '\'' in flags)
      && ('+' in f <==> '+' in flags) && (' ' in f <==> ' ' in flags)
  {
    assert (flags + "-")[|flags|] == '-';
  }

  /** A negative precision is none. */
  lemma NegativePrec(c: char, s: Spec, v: Value, loc: Locale)
    requires s.prec < 0
    ensures FieldOf(c, s, v, loc) == FieldOf(c, s.(prec := -1), v, loc)
  {
    hide Repeat, Size, PrintfDigits.Converted;
    var p, q := Convert(c, s, v, loc), Convert(c, s.(prec := -1), v, loc);
    assert q.dprec <= 0 && p.dprec <= 0 && p == q.(dprec := p.dprec);
    SameLayout(p, q, s.ladjust, s.width);
  }

  lemma SameLayout(p: Piece, q: Piece, ladjust: bool, width: int)
    requires p.dprec <= 0 && q.dprec <= 0 && p == q.(dprec := p.dprec)
    ensures Field(p, ladjust, width) == Field(q, ladjust, width)
  {
    assert Repeat('0', p.dprec - |p.text|) == "" == Repeat('0', q.dprec - |p.text|);
  }

  /** What a specification prints of its argument. */
  lemma ParsedMeans(c: char, v: Value, flags: string, w: Amount, p: Option<Amount>, len: string, loc: Locale)
    requires Converts(c, len)
    ensures FieldOf(c, Parsed(flags, w, p, len), v, loc)
         == Meaning(c, v, FlagsFor(flags, w), WidthFor(w), PrecFor(p), len, loc)
  {
    hide FieldOf, Meaning, FlagsFor, WidthFor, ModsOf, AsC;
    FieldMeans(c, v, FlagsFor(flags, w), WidthFor(w), PrecFor(p), len, loc);
    if RawPrec(p) < 0 {
      NegativePrec(c, Parsed(flags, w, p, len), v, loc);
    }
  }

  // ----- whole formats -----

  /** The number of an argument, in the format; 0 is none. */
  function PositionText(n: nat): string { if n == 0 then "" else Numeral(n) + "$" }

  /** The first argument that a specification uses. */
  function FirstUse(n: nat): nat { if n == 0 then 1 else n }

  lemma PositionParsed(fmt: string, i: nat, n: nat, args: seq<Arg>, loc: Locale)
    requires StartsAt(fmt, i, PositionText(n))
    ensures var i' := i + |PositionText(n)|;
      && InSpec(fmt, i, NO_SPEC, args, 1, loc) == InSpec(fmt, i', NO_SPEC, args, FirstUse(n), loc)
      && Uses(fmt, i, Some(NO_MODS), 1, true) == Uses(fmt, i', Some(NO_MODS), FirstUse(n), true)
      && (Supported(fmt, i, Some(NO_MODS)) <==> Supported(fmt, i', Some(NO_MODS)))
  {
    hide PrintfDigits.Digits, Lex;
    if n > 0 {
      PositionLexed(fmt, i, n);
    }
  }

  lemma PositionLexed(fmt: string, i: nat, n: nat)
    requires n > 0 && StartsAt(fmt, i, Numeral(n) + "$")
    ensures i < |fmt| && Lex(fmt, i) == (Position(n), i + |Numeral(n)| + 1)
  {
    hide PrintfDigits.Digits, Number;
    PartsAt(fmt, i, Numeral(n), "$");
    NumeralRead(fmt, i, n);
  }

  /** The whole text of a conversion. */
  function Whole(n: nat, flags: string, w: Amount, p: Option<Amount>, len: string, c: char): string {
    "%" + (PositionText(n) + (SpecText(flags, w, p, len) + [c]))
  }

  lemma WholePieces(pre: string, n: nat, flags: string, w: Amount, p: Option<Amount>, len: string, c: char, post: string,
                    args: seq<Arg>, loc: Locale)
    requires Literal(pre) && Literal(post) && Flags(flags) && Converts(c, len) && TakenAt(args, FirstUse(n), w, p)
    ensures var fmt, k := pre + Whole(n, flags, w, p, len, c) + post, FirstUse(n) + Takes(w, p);
      && Pieces(fmt, 0, args, 1, loc) == [pre, FieldOf(c, Parsed(flags, w, p, len), Argument(args, k), loc), post]
      && Supported(fmt, 0, None)
      && Fetched(fmt) == Ints(FirstUse(n), Takes(w, p)) + [Use(k, FetchType(c, ModsOf(len)))]
  {
    hide *;
    var s, t := Parsed(flags, w, p, len), SpecText(flags, w, p, len);
    var fmt := pre + Whole(n, flags, w, p, len, c) + post;
    var i := |pre| + 1;
    var i' := i + |PositionText(n)|;
    var j, k := i' + |t|, FirstUse(n) + Takes(w, p);
    WholeIs(n, flags, w, p, len, c);
    Behind(pre, PositionText(n) + (t + [c]), post);
    PercentAt(fmt, pre);
    PartsAt(fmt, i, PositionText(n), t + [c]);
    PositionParsed(fmt, i, n, args, loc);
    SpecParsed(fmt, i', flags, w, p, len, c, args, FirstUse(n), loc);
    ConvertsPlain(c, len, FlagsFor(flags, w), WidthFor(w), PrecFor(p));
    ParsedMods(flags, w, p, len);
    SpecEnds(fmt, j, s, c, args, k, loc);
    FirstPieces(fmt, |pre|, args, loc);
    TakenTo(fmt, i', j, s, args, FirstUse(n), Takes(w, p), loc);
    FirstOf(pre, fmt);
    ThreeParts(pre, FieldOf(c, s, Argument(args, k), loc), post);
  }

  lemma WholeIs(n: nat, flags: string, w: Amount, p: Option<Amount>, len: string, c: char)
    ensures Whole(n, flags, w, p, len, c) == "%" + (PositionText(n) + (SpecText(flags, w, p, len) + [c]))
    ensures |PositionText(n) + (SpecText(flags, w, p, len) + [c])| == |PositionText(n)| + |SpecText(flags, w, p, len)| + 1
  {
    hide PositionText, SpecText;
  }

  lemma ParsedMods(flags: string, w: Amount, p: Option<Amount>, len: string)
    ensures Parsed(flags, w, p, len).mods == ModsOf(len)
  {
    hide ModsOf;
  }

  lemma TakenTo(fmt: string, i: nat, j: nat, s: Spec, args: seq<Arg>, k: nat, n: nat, loc: Locale)
    requires i <= |fmt| && j <= |fmt| && TakesTo(fmt, i, NO_SPEC, n, j, s, args, k, loc)
    ensures InSpec(fmt, i, NO_SPEC, args, k, loc) == InSpec(fmt, j, s, args, k + n, loc)
    ensures Uses(fmt, i, Some(NO_MODS), k, true) == Ints(k, n) + Uses(fmt, j, Some(s.mods), k + n, true)
    ensures Supported(fmt, i, Some(NO_MODS)) <==> Supported(fmt, j, Some(s.mods))
  {
    hide InSpec, Uses, Supported, Ints;
  }

  /** The argument that is converted. */
  function Converted(n: nat, w: Amount, p: Option<Amount>): nat { FirstUse(n) + Takes(w, p) }

  /** What C demands of the arguments: those before the converted one are ints. */
  predicate RightTypes(args: seq<Arg>, k: nat, ty: ArgType) {
    0 < k <= |args| && args[k - 1].ty == ty && forall j :: 0 <= j < k - 1 ==> args[j].ty == Int
  }

  /** A conversion specification between two texts prints what it means.  It may have a position,
      flags, a width, a precision and a length, and take width and precision from arguments. */
  lemma SpecPrints(pre: string, n: nat, flags: string, w: Amount, p: Option<Amount>, len: string, c: char, post: string,
                   args: seq<Arg>, loc: Locale)
    requires Literal(pre) && Literal(post) && Flags(flags) && Converts(c, len) && TakenAt(args, FirstUse(n), w, p)
    requires RightTypes(args, Converted(n, w, p), FetchType(c, ModsOf(len)))
    requires var text := Meaning(c, args[Converted(n, w, p) - 1].value, FlagsFor(flags, w), WidthFor(w), PrecFor(p), len, loc);
      |pre + text + post| <= INT_MAX
    ensures var text := Meaning(c, args[Converted(n, w, p) - 1].value, FlagsFor(flags, w), WidthFor(w), PrecFor(p), len, loc);
      Prints(pre + Whole(n, flags, w, p, len, c) + post, args, pre + text + post, loc)
  {
    hide *;
    var k, fmt, ty := Converted(n, w, p), pre + Whole(n, flags, w, p, len, c) + post, FetchType(c, ModsOf(len));
    ConvertedIs(n, w, p);
    TypesAre(args, k, ty);
    WholePieces(pre, n, flags, w, p, len, c, post, args, loc);
    ConvertsPlain(c, len, FlagsFor(flags, w), WidthFor(w), PrecFor(p));
    ParsedMeans(c, args[k - 1].value, flags, w, p, len, loc);
    Three(pre, FieldOf(c, Parsed(flags, w, p, len), args[k - 1].value, loc), post);
    IntsPassed(FirstUse(n), Takes(w, p), args, ty);
    PrintsIs(fmt, args, [pre, FieldOf(c, Parsed(flags, w, p, len), args[k - 1].value, loc), post],
             pre + FieldOf(c, Parsed(flags, w, p, len), args[k - 1].value, loc) + post, loc);
  }

  lemma ConvertedIs(n: nat, w: Amount, p: Option<Amount>)
    ensures Converted(n, w, p) == FirstUse(n) + Takes(w, p) && FirstUse(n) > 0
  {
  }

  lemma TypesAre(args: seq<Arg>, k: nat, ty: ArgType)
    requires RightTypes(args, k, ty)
    ensures 0 < k <= |args| && Argument(args, k) == args[k - 1].value
  {
  }

  lemma PrintsIs(fmt: string, args: seq<Arg>, ps: seq<string>, text: string, loc: Locale)
    requires Supported(fmt, 0, None) && PassedUses(Fetched(fmt), args)
    requires Pieces(fmt, 0, args, 1, loc) == ps && Printed("", ps) == Output(text, |text|)
    ensures Prints(fmt, args, text, loc)
  {
    hide Pieces, Supported, Fetched;
  }

  /** `Passed`, for the uses of a format. */
  ghost predicate PassedUses(us: seq<Use>, args: seq<Arg>) {
    && (forall u :: u in us ==> Holds(args, u))
    && forall n: nat :: 0 < n <= MaxIndex(us) && LastType(us, n).Unused? ==> n <= |args| && SameSlot(Int, args[n - 1].ty)
  }

  lemma {:induction false} IntsAre(k: nat, n: nat)
    ensures forall u :: u in Ints(k, n) ==> u.ty == Int && k <= u.index < k + n
    decreases n
  {
    if n > 0 {
      IntsAre(k + 1, n - 1);
    }
  }

  lemma {:induction false} MaxBelow(us: seq<Use>, k: nat)
    requires forall u :: u in us ==> u.index <= k
    ensures MaxIndex(us) <= k
  {
    if us != [] {
      assert us[|us| - 1] in us;
      MaxBelow(us[..|us| - 1], k);
    }
  }

  lemma IntsPassed(k: nat, m: nat, args: seq<Arg>, ty: ArgType)
    requires k > 0 && RightTypes(args, k + m, ty) && !ty.Unused?
    ensures PassedUses(Ints(k, m) + [Use(k + m, ty)], args)
  {
    hide Ints, MaxIndex, SameSlot;
    var us := Ints(k, m) + [Use(k + m, ty)];
    IntsAre(k, m);
    MaxBelow(us, k + m);
    SameSlotSelf(Int);
    SameSlotSelf(ty);
    assert us[|us| - 1] == Use(k + m, ty);
  }

  // ----- the rest -----

  /** A field is as wide as it has to be, and no wider. */
  lemma LaidLength(lead: string, text: string, flags: string, w: nat, zeros: bool)
    ensures |Laid(lead, text, flags, w, zeros)| == Max(w, |lead + text|)
  {
    hide Zeros, Blanks;
    Lengths(w - |lead + text|);
  }

  /** A point without digits is a precision of 0. */
  lemma PointParsed(fmt: string, i: nat, s: Spec, args: seq<Arg>, k: nat, loc: Locale)
    requires i < |fmt| && fmt[i] == '.' && !IsDigit(CharAt(fmt, i + 1)) && CharAt(fmt, i + 1) != '*'
    ensures LeadsTo(fmt, i, s, i + 1, s.(prec := 0), args, k, loc)
  {
    hide LeadsTo;
    assert Lex(fmt, i) == (Prec(0), i + 1);
    TokenParsed(fmt, i, s, Prec(0), i + 1, args, k, loc);
  }

  /** %D, %O and %U are %ld, %lo and %lu. */
  lemma CapitalsMean(c: char, s: Spec, v: Value, loc: Locale)
    requires c == 'D' || c == 'O' || c == 'U'
    ensures var d := if c == 'D' then 'd' else if c == 'O' then 'o' else 'u';
      var l := s.(mods := s.mods.(long := true));
      FieldOf(c, s, v, loc) == FieldOf(d, l, v, loc) && FetchType(c, s.mods) == FetchType(d, l.mods)
  {
    hide Field, PrintfDigits.Converted, WrappedSigned, Wrapped, Size;
    SizeOfCapital(c, s.mods);
  }

  lemma SizeOfCapital(c: char, m: Mods)
    requires c == 'D' || c == 'O' || c == 'U'
    ensures Size(c, m) == Size(if c == 'D' then 'd' else if c == 'O' then 'o' else 'u', m.(long := true))
  {
  }

  /** "%%" prints a '%' and uses no argument. */
  lemma PercentPrints(pre: string, post: string, args: seq<Arg>, loc: Locale)
    requires Literal(pre) && Literal(post) && |pre + "%" + post| <= INT_MAX
    ensures Prints(pre + "%%" + post, args, pre + "%" + post, loc)
  {
    hide Printed, Pieces, Supported, Passed;
    var fmt := pre + "%%" + post;
    assert fmt == pre + ("%" + "%") + post;
    Behind(pre, "%", post);
    Inside(fmt, |pre| + 1, '%');
    PercentAt(fmt, pre);
    PercentRead(fmt, |pre| + 1, args, loc);
    FirstPieces(fmt, |pre|, args, loc);
    FirstOf(pre, fmt);
    ThreeParts(pre, "%", post);
    Three(pre, "%", post);
    assert PassedUses([], args);
    PrintsIs(fmt, args, [pre, "%", post], pre + "%" + post, loc);
  }

  lemma PercentField(v: Value, loc: Locale)
    ensures FieldOf('%', NO_SPEC, v, loc) == "%"
    ensures FetchType('%', NO_MODS).Unused? && Plain('%', NO_MODS)
  {
    hide Field, NumberText, WrappedSigned, Wrapped, Size;
    BareField(Piece("%", '\0', '\0', 0, false));
  }

  lemma PercentRead(fmt: string, i: nat, args: seq<Arg>, loc: Locale)
    requires i < |fmt| && fmt[i] == '%' && Literal(fmt, i + 1)
    ensures InSpec(fmt, i, NO_SPEC, args, 1, loc) == ["%", fmt[i + 1..]]
    ensures Uses(fmt, i, Some(NO_MODS), 1, true) == [] && Supported(fmt, i, Some(NO_MODS))
  {
    hide FieldOf, Modify;
    assert Lex(fmt, i) == (Conversion('%'), i + 1);
    LiteralPieces(fmt, i + 1, args, 1, loc);
    PercentField(Argument(args, 1), loc);
    assert ["%"] + [fmt[i + 1..]] == ["%", fmt[i + 1..]];
  }
}
