/** What simple formats print: texts without conversions, or with one. */
module PrintfText {
  import opened Util
  import opened PrintfScan
  import opened PrintfArgs
  import opened PrintfFormat
  import opened PrintfOutput
  import PrintfDigits

  /** Numbers are not grouped. */
  const C_LOCALE := Locale('\0', [])

  /** The whole output of a format. */
  function Formatting(fmt: string, args: seq<Arg>, loc: Locale := C_LOCALE): (o: Output)
    ensures o.ret == -1 || o.ret == |o.text|
  {
    PrintedMeaning("", Pieces(fmt, 0, args, 1, loc));
    Printed("", Pieces(fmt, 0, args, 1, loc))
  }

  /** What a caller owes for this format. */
  ghost predicate Callable(fmt: string, args: seq<Arg>) {
    Supported(fmt, 0, None) && Passed(fmt, args)
  }

  /** All of `text` is printed. */
  ghost predicate Prints(fmt: string, args: seq<Arg>, text: string, loc: Locale := C_LOCALE) {
    Callable(fmt, args) && Formatting(fmt, args, loc) == Output(text, |text|)
  }

  /** No conversion, and no NUL, from `i` on. */
  ghost predicate Literal(s: string, i: nat := 0) {
    forall k :: i <= k < |s| ==> s[k] != '%' && s[k] != '\0'
  }

  lemma LiteralPieces(fmt: string, i: nat, args: seq<Arg>, k: nat, loc: Locale := C_LOCALE)
    requires i <= |fmt| && Literal(fmt, i)
    ensures NextPercent(fmt, i) == |fmt| && Pieces(fmt, i, args, k, loc) == [fmt[i..]]
    ensures Supported(fmt, i, None) && Uses(fmt, i, None, k, true) == []
  {
    var j := NextPercent(fmt, i);
    assert fmt[i..j] == fmt[i..];
  }

  /** A text without conversions prints itself, whatever is passed. */
  lemma PrintsLiteral(fmt: string, args: seq<Arg>)
    requires Literal(fmt) && |fmt| <= INT_MAX
    ensures Prints(fmt, args, fmt)
  {
    assert fmt[0..] == fmt;
    LiteralPieces(fmt, 0, args, 1);
    assert "" + fmt == fmt;
    assert Printed("", [fmt]) == Output(fmt, |fmt|);
  }

  /** A conversion character that follows the '%' directly. */
  predicate Bare(c: char) {
    c != '\0' && !IsFlag(c) && !IsModifier(c) && c != '*' && c != '.' && !IsDigit(c)
  }

  lemma FieldAt(fmt: string, i: nat, c: char, args: seq<Arg>)
    requires i + 2 <= |fmt| && NextPercent(fmt, 0) == i && fmt[i] == '%' && fmt[i + 1] == c && Bare(c)
    requires Plain(c, NO_MODS) && !FetchType(c, NO_MODS).Unused? && Literal(fmt, i + 2)
    ensures Pieces(fmt, 0, args, 1, C_LOCALE) == [fmt[..i], FieldOf(c, NO_SPEC, Argument(args, 1), C_LOCALE), fmt[i + 2..]]
    ensures Supported(fmt, 0, None) && Fetched(fmt) == [Use(1, FetchType(c, NO_MODS))]
  {
    hide FieldOf, KindOf, IsFlag, IsModifier, FetchType;
    LiteralPieces(fmt, i + 2, args, 2);
    assert Lex(fmt, i + 1) == (Conversion(c), i + 2);
    assert InSpec(fmt, i + 1, NO_SPEC, args, 1, C_LOCALE)
        == [FieldOf(c, NO_SPEC, Argument(args, 1), C_LOCALE)] + Pieces(fmt, i + 2, args, 2, C_LOCALE);
    assert Uses(fmt, i + 1, Some(NO_MODS), 1, true) == [Use(1, FetchType(c, NO_MODS))] + Uses(fmt, i + 2, None, 2, true);
  }

  /** A text with one bare conversion. */
  lemma PrintsField(pre: string, c: char, post: string, a: Arg)
    requires Literal(pre) && Literal(post) && Bare(c) && Plain(c, NO_MODS) && a.ty == FetchType(c, NO_MODS) != Unused
    requires |pre + FieldOf(c, NO_SPEC, a.value, C_LOCALE) + post| <= INT_MAX
    ensures Prints(pre + ['%', c] + post, [a], pre + FieldOf(c, NO_SPEC, a.value, C_LOCALE) + post)
  {
    hide FieldOf, FetchType, KindOf, Pieces, Supported, Uses, Plain, Bare, MaxIndex;
    var fmt := pre + ['%', c] + post;
    var i, field := |pre|, FieldOf(c, NO_SPEC, a.value, C_LOCALE);
    PercentAt(fmt, pre);
    FieldAt(fmt, i, c, [a]);
    assert fmt[..i] == pre && fmt[i + 2..] == post;
    Three(pre, field, post);
    OneUse(a);
  }

  lemma PercentAt(fmt: string, pre: string)
    requires pre < fmt && Literal(pre) && fmt[|pre|] == '%'
    ensures NextPercent(fmt, 0) == |pre|
  {
    assert forall k :: 0 <= k < |pre| ==> fmt[k] == pre[k];
  }

  lemma Three(a: string, b: string, c: string)
    requires |a + b + c| <= INT_MAX
    ensures Printed("", [a, b, c]) == Output(a + b + c, |a + b + c|)
  {
    assert [a, b, c][1..] == [b, c] && [b, c][1..] == [c] && [c][1..] == [];
    assert "" + a == a;
    assert Printed(a + b, [c]) == Output(a + b + c, |a + b + c|);
    assert Printed(a, [b, c]) == Printed(a + b, [c]);
  }

  lemma OneUse(a: Arg)
    requires a.ty != Unused
    ensures Holds([a], Use(1, a.ty)) && MaxIndex([Use(1, a.ty)]) == 1 && LastType([Use(1, a.ty)], 1) == a.ty
  {
    assert [Use(1, a.ty)][..0] == [];
  }

  /** "%s" prints a string up to its first NUL. */
  lemma PrintsString(pre: string, s: string, post: string)
    requires Literal(pre) && Literal(post) && |pre + CStr(s) + post| <= INT_MAX
    ensures Prints(pre + "%s" + post, [Arg(CharP, Str(Some(s)))], pre + CStr(s) + post)
  {
    hide Prints, FieldOf, CStr;
    StringField(s);
    PrintsField(pre, 's', post, Arg(CharP, Str(Some(s))));
    assert ['%', 's'] == "%s";
  }

  lemma StringField(s: string)
    ensures FieldOf('s', NO_SPEC, Str(Some(s)), C_LOCALE) == CStr(s)
    ensures Bare('s') && Plain('s', NO_MODS) && FetchType('s', NO_MODS) == CharP
  {
    hide CStr, Repeat;
    var p := Piece(CStr(s), '\0', '\0', 0, false);
    assert Convert('s', NO_SPEC, Str(Some(s)), C_LOCALE) == p;
    BareField(p);
  }

  lemma BareField(p: Piece)
    requires p.sign == p.prefix == '\0' && p.dprec <= 0 && !p.zeropad
    ensures Field(p, false, 0) == p.text
  {
  }

  /** "%d" prints a number of an int in decimal digits. */
  lemma PrintsNumber(pre: string, n: nat, post: string)
    requires Literal(pre) && Literal(post) && n <= INT_MAX
    requires |pre + PrintfDigits.Digits(n, 10, PrintfDigits.LOWER) + post| <= INT_MAX
    ensures Prints(pre + "%d" + post, [Arg(Int, Num(n))], pre + PrintfDigits.Digits(n, 10, PrintfDigits.LOWER) + post)
  {
    hide Prints, FieldOf, PrintfDigits.Digits;
    NumberField(n);
    PrintsField(pre, 'd', post, Arg(Int, Num(n)));
    assert ['%', 'd'] == "%d";
  }

  lemma NumberField(n: nat)
    requires n <= INT_MAX
    ensures FieldOf('d', NO_SPEC, Num(n), C_LOCALE) == PrintfDigits.Digits(n, 10, PrintfDigits.LOWER)
    ensures Bare('d') && Plain('d', NO_MODS) && FetchType('d', NO_MODS) == Int
  {
    hide PrintfDigits.Digits, Repeat, NumberText, WrappedSigned;
    NumberIs(n);
    var p := Piece(PrintfDigits.Digits(n, 10, PrintfDigits.LOWER), '\0', '\0', -1, false);
    assert Convert('d', NO_SPEC, Num(n), C_LOCALE) == p;
    BareField(p);
  }

  lemma NumberIs(n: nat)
    requires n <= INT_MAX
    ensures NumberText(n, PrintfDigits.Ten, HexDigits('d'), NO_SPEC, C_LOCALE) == PrintfDigits.Digits(n, 10, PrintfDigits.LOWER)
    ensures WrappedSigned(n, 0x1_0000_0000) == n
  {
  }
}
