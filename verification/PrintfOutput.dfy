/** `log_vsnprintf` of debug/vfprintf.c itself: scanning, fetching and converting step by
    step, and printing into a buffer of any size. */
module PrintfOutput {
  import opened Util
  import opened PrintfScan
  import opened PrintfArgs
  import opened PrintfFormat
  import PrintfDigits

  /** `str` and `strsz`: where the next character goes and how many more there is room for. */
  class Buffer {
    const str: array<char>
    const cap: nat
    var pos: nat
    var strsz: nat
    /** Everything printed so far, stored or not. */
    ghost var all: string

    ghost predicate Valid()
      reads this, str
    {
      && pos + strsz == cap < str.Length
      && pos == (if |all| < cap then |all| else cap)
      && str[..pos] == all[..pos]
    }

    constructor (str: array<char>, size: nat)
      requires 0 < size <= str.Length
      ensures Valid() && this.str == str && cap == size - 1 && all == ""
    {
      this.str, cap := str, size - 1;
      pos, strsz := 0, size - 1;
      all := "";
    }

    /** PRINT */
    method Print(text: string)
      requires Valid()
      modifies this, str
      ensures Valid() && all == old(all) + text
      ensures str[cap..] == old(str[cap..])
    {
      var sz := if |text| <= strsz then |text| else strsz;
      for k := 0 to sz
        invariant unchanged(this) && str[..pos] == old(str[..pos]) && str[cap..] == old(str[cap..])
        invariant str[pos..pos + k] == text[..k]
      {
        str[pos + k] := text[k];
      }
      assert str[..pos + sz] == str[..pos] + str[pos..pos + sz];
      pos := pos + sz;
      strsz := strsz - sz;
      all := all + text;
    }

    /** PAD, in chunks of PADSIZE. */
    method Pad(howmany: int, with: char)
      requires Valid()
      modifies this, str
      ensures Valid() && all == old(all) + Repeat(with, howmany)
      ensures str[cap..] == old(str[cap..])
    {
      hide Repeat;
      var n := howmany;
      RepeatNone(with, n);
      assert old(all) + "" == old(all);
      if n > 0 {
        while n > PADSIZE
          invariant Valid() && 0 < n <= howmany && str[cap..] == old(str[cap..])
          invariant all == old(all) + Repeat(with, howmany - n)
          decreases n
        {
          RepeatSplit(with, howmany - n, PADSIZE, old(all));
          Print(Repeat(with, PADSIZE));
          n := n - PADSIZE;
        }
        RepeatSplit(with, howmany - n, n, old(all));
        Print(Repeat(with, n));
      }
    }

    /** The trailing NUL, for which room was left. */
    method Terminate()
      requires Valid()
      modifies str
      ensures var n := if |all| < cap then |all| else cap;
        str[..n] == all[..n] && str[n] == '\0' && str[cap + 1..] == old(str[cap..])[1..]
    {
      str[pos] := '\0';
    }

    /** What comes in front of a text: right-adjusting blanks, sign, prefix, zeros. */
    method EmitLead(p: Piece, ladjust: bool, room: int)
      requires Valid()
      modifies this, str
      ensures Valid() && all == old(all) + Lead(p, ladjust, room)
      ensures str[cap..] == old(str[cap..])
    {
      hide Repeat, Buffer.Valid;
      ghost var was := all;
      if !ladjust && !p.zeropad {
        Pad(room, ' ');
      }
      ghost var a := if !ladjust && !p.zeropad then Repeat(' ', room) else "";
      assert all == was + a;
      if p.sign != '\0' {
        Print([p.sign]);
      }
      assert all == was + a + SignText(p);
      if p.prefix != '\0' {
        Print(['0', p.prefix]);
      }
      assert all == was + a + SignText(p) + PrefixText(p);
      if !ladjust && p.zeropad {
        Pad(room, '0');
      }
      Flat(was, a, SignText(p), PrefixText(p), if !ladjust && p.zeropad then Repeat('0', room) else "");
    }

    /** The end of the formatting loop: lays a converted argument out. */
    method Emit(p: Piece, ladjust: bool, width: int)
      requires Valid()
      modifies this, str
      ensures Valid() && all == old(all) + Field(p, ladjust, width)
      ensures str[cap..] == old(str[cap..])
    {
      hide Repeat, RealSize, Buffer.Valid, Lead, Field;
      var realsz := RealSize(p);
      var size := |p.text|;
      ghost var was := all;
      EmitLead(p, ladjust, width - realsz);
      Pad(p.dprec - size, '0');
      Print(p.text);
      if ladjust {
        Pad(width - realsz, ' ');
      }
      FieldIs(p, ladjust, width);
      Flat(was, Lead(p, ladjust, width - realsz), Repeat('0', p.dprec - size), p.text,
           if ladjust then Repeat(' ', width - realsz) else "");
    }
  }

  function Lead(p: Piece, ladjust: bool, room: int): string {
    (if !ladjust && !p.zeropad then Repeat(' ', room) else "") + SignText(p) + PrefixText(p)
    + (if !ladjust && p.zeropad then Repeat('0', room) else "")
  }

  lemma FieldIs(p: Piece, ladjust: bool, width: int)
    ensures Field(p, ladjust, width)
            == Lead(p, ladjust, width - RealSize(p)) + Repeat('0', p.dprec - |p.text|) + p.text
               + (if ladjust then Repeat(' ', width - RealSize(p)) else "")
  {
  }

  const PADSIZE := 16

  lemma RepeatNone(c: char, n: int)
    ensures n <= 0 ==> Repeat(c, n) == ""
    ensures Repeat(c, 0) == ""
  {
  }

  lemma RepeatSplit(c: char, a: nat, b: nat, was: string)
    ensures was + Repeat(c, a) + Repeat(c, b) == was + Repeat(c, a + b)
  {
  }

  lemma Flat(was: string, a: string, b: string, c: string, d: string)
    ensures was + a + b + c + d == was + (a + b + c + d)
    ensures was + "" == was && was + a + b + c + "" == was + a + b + c
    ensures was + a + "" == was + a && was + a + b + "" == was + a + b
  {
  }

  // ----- the conversions covered -----

  /** Floating point, wide characters, %n and %p are left out. */
  predicate Plain(c: char, m: Mods) {
    match KindOf(c)
    case Character => !Implied(m, c).long
    case Text => !Implied(m, c).long
    case Decimal => true
    case Natural => true
    case Other => true
    case _ => false
  }

  predicate Supported(fmt: string, i: nat, mods: Option<Mods>)
    requires mods.None? ==> i <= |fmt|
    decreases |fmt| + 1 - i, if mods.None? then 1 else 0
  {
    match mods
    case None =>
      var j := NextPercent(fmt, i);
      CharAt(fmt, j) == '\0' || Supported(fmt, j + 1, Some(NO_MODS))
    case Some(m) =>
      var (token, end) := Lex(fmt, i);
      match token
      case Stop => true
      case Modifier(c) => Supported(fmt, end, Some(Modify(m, c)))
      case Conversion(c) => Plain(c, m) && Supported(fmt, end, None)
      case _ => Supported(fmt, end, mods)
  }

  /** No such format makes the scanners disagree. */
  lemma {:induction false} SupportedUndisputed(fmt: string, i: nat, mods: Option<Mods>)
    requires (mods.None? ==> i <= |fmt|) && Supported(fmt, i, mods)
    ensures !Disputes(fmt, i, mods)
    decreases |fmt| + 1 - i, if mods.None? then 1 else 0
  {
    hide Lex, NextPercent, Modify, KindOf, Implied;
    match mods {
      case None =>
        var j := NextPercent(fmt, i);
        if CharAt(fmt, j) != '\0' {
          SupportedUndisputed(fmt, j + 1, Some(NO_MODS));
        }
      case Some(m) =>
        var (token, end) := Lex(fmt, i);
        match token {
          case Stop =>
          case Modifier(c) => SupportedUndisputed(fmt, end, Some(Modify(m, c)));
          case Conversion(c) =>
            assert KindOf('F').Floating? by { Floats(); }
            SupportedUndisputed(fmt, end, None);
          case _ => SupportedUndisputed(fmt, end, mods);
        }
    }
  }

  lemma Floats()
    ensures KindOf('F').Floating?
  {
  }

  // ----- converting -----

  /** The label `number`: digits are written backwards into a buffer of their own. */
  method NumberChars(val: nat, base: PrintfDigits.Base, xdigs: string, s: Spec, loc: Locale) returns (text: string)
    requires |xdigs| == 16 && val < PrintfDigits.LIMIT && PrintfDigits.Rules(loc.grouping)
    ensures text == NumberText(val, base, xdigs, s, loc)
  {
    hide PrintfDigits.Converted;
    var buf := new char[PrintfDigits.BUF];
    var cp := PrintfDigits.BUF;
    if val != 0 || s.prec != 0 || (s.alt && base.Eight?) {
      cp := PrintfDigits.Ujtoa(val, buf, base, s.alt, xdigs, LONG_MAX, LONG_MAX, s.grouping, loc.sep, loc.grouping);
    }
    text := buf[cp..];
  }

  /** Whether the uses from here on are among those of the format. */
  ghost predicate Pending(fmt: string, i: nat, mods: Option<Mods>, nextarg: nat) {
    && (mods.None? ==> i <= |fmt|)
    && Supported(fmt, i, mods)
    && forall u :: u in Uses(fmt, i, mods, nextarg, true) ==> u in Fetched(fmt)
  }

  /** The switch on the conversion character. */
  method ConvertNext(src: Source, c: char, s: Spec, loc: Locale) returns (p: Piece)
    requires src.Valid() && PrintfDigits.Rules(loc.grouping) && Plain(c, s.mods)
    requires var t := FetchType(c, s.mods); t.Unused? || Use(src.nextarg, t) in Fetched(src.fmt)
    modifies src`nextarg, src.ap
    ensures src.Valid() && src.nextarg == AfterUse(c, s, old(src.nextarg))
    ensures p == Convert(c, s, Argument(src.args, old(src.nextarg)), loc)
  {
    hide Fetched, Source.Valid, FetchType, NumberText, Implied, Argument, WrappedSigned, Wrapped, AsInt;
    TypedKinds(c, s.mods);
    var v := Num(0);
    match KindOf(c) {
      case Character =>
        v := src.Get(FetchType(c, s.mods));
        p := Piece([ByteOf(v)], '\0', '\0', 0, s.zeropad);
      case Text =>
        v := src.Get(FetchType(c, s.mods));
        var cp := TextArg(v);
        var size := if 0 <= s.prec < |cp| then s.prec else |cp|;
        p := Piece(cp[..size], '\0', '\0', 0, s.zeropad);
      case Decimal =>
        v := src.Get(FetchType(c, s.mods));
        var n := WrappedSigned(AsInt(v), Size(c, s.mods));
        SignedFits(AsInt(v), Size(c, s.mods));
        var sign := s.sign;
        if n < 0 {
          n := -n;
          sign := '-';
        }
        var text := NumberChars(n, PrintfDigits.Ten, HexDigits(c), s, loc);
        p := Piece(text, sign, '\0', s.prec, s.zeropad && s.prec < 0);
      case Natural =>
        v := src.Get(FetchType(c, s.mods));
        var n := Wrapped(AsInt(v), Size(c, s.mods));
        UnsignedFits(AsInt(v), Size(c, s.mods));
        var prefix := '\0';
        if BaseOf(c).Sixteen? && s.alt && n != 0 {
          prefix := c;
        }
        var text := NumberChars(n, BaseOf(c), HexDigits(c), s, loc);
        p := Piece(text, '\0', prefix, s.prec, s.zeropad && s.prec < 0);
      case _ =>
        p := Piece([c], '\0', '\0', 0, s.zeropad);
    }
  }

  function ByteOf(v: Value): char { Wrapped(AsInt(v), 0x100) as char }

  lemma TypedKinds(c: char, m: Mods)
    requires Plain(c, m)
    ensures FetchType(c, m).Unused? <==> KindOf(c).Other?
  {
  }

  lemma SignedFits(n: int, size: nat)
    requires size == 0x100 || size == 0x1_0000 || size == 0x1_0000_0000 || size == 0x1_0000_0000_0000_0000
    ensures -(PrintfDigits.LIMIT as int) < WrappedSigned(n, size) < PrintfDigits.LIMIT
  {
  }

  lemma UnsignedFits(n: int, size: nat)
    requires 0 < size <= PrintfDigits.LIMIT
    ensures Wrapped(n, size) < PrintfDigits.LIMIT
  {
  }

  // ----- the formatting loop -----

  /** What scanning a specification from `i` on comes to. */
  ghost predicate Scanned(src: Source, i: nat, s: Spec, nextarg: nat, loc: Locale, pieces: seq<string>)
  {
    && i <= |src.fmt|
    && pieces == InSpec(src.fmt, i, s, src.args, nextarg, loc)
    && Pending(src.fmt, i, Some(s.mods), nextarg)
  }

  /** One token that is not a conversion. */
  lemma ScanToken(src: Source, i: nat, s: Spec, nextarg: nat, loc: Locale, pieces: seq<string>)
    requires Scanned(src, i, s, nextarg, loc, pieces)
    ensures var (token, end) := Lex(src.fmt, i);
      && (!token.Stop? && !token.Conversion? ==>
            Scanned(src, end, WithToken(s, token, src.args, nextarg), NextArg(token, nextarg), loc, pieces))
      && (token.Star? ==> Use(token.index.GetOr(nextarg), Int) in Fetched(src.fmt))
      && (token.PrecStar? ==> Use(token.index.GetOr(nextarg), Int) in Fetched(src.fmt))
      && (token.Stop? ==> pieces == [])
      && (token.Conversion? ==> EndsWith(src, end, token.c, s, nextarg, loc, pieces))
  {
    hide Lex, Modify, Fetched, Pieces, FieldOf, Argument, FetchType, IntArg, WithFlag, NextPercent, Plain;
    var (token, end) := Lex(src.fmt, i);
    match token {
      case Star(index) => WithWidthKeeps(s, IntArg(Argument(src.args, index.GetOr(nextarg))));
      case Flag(c) => WithFlagKeeps(s, c);
      case _ =>
    }
  }

  /** A specification that ends with the conversion `c`, in front of `i`. */
  ghost predicate EndsWith(src: Source, i: nat, c: char, s: Spec, nextarg: nat, loc: Locale, pieces: seq<string>) {
    && i <= |src.fmt|
    && Plain(c, s.mods)
    && (var t := FetchType(c, s.mods); t.Unused? || Use(nextarg, t) in Fetched(src.fmt))
    && Pending(src.fmt, i, None, AfterUse(c, s, nextarg))
    && pieces == [FieldOf(c, s, Argument(src.args, nextarg), loc)]
                 + Pieces(src.fmt, i, src.args, AfterUse(c, s, nextarg), loc)
  }

  lemma WithWidthKeeps(s: Spec, n: int)
    ensures WithWidth(s, n).mods == s.mods
  {
  }

  lemma WithFlagKeeps(s: Spec, c: char)
    ensures WithFlag(s, c).mods == s.mods
  {
  }

  /** The labels `rflag` and `reswitch`: reads a specification up to its conversion character,
      or finds the end of the format, where `c` is NUL. */
  method ScanSpec(src: Source, start: nat, loc: Locale, ghost pieces: seq<string>)
    returns (c: char, s: Spec, i: nat)
    requires src.Valid() && Scanned(src, start, NO_SPEC, src.nextarg, loc, pieces)
    modifies src`nextarg, src`table, src.ap, src.orgap
    ensures src.Valid() && (src.table == old(src.table) || fresh(src.table))
    ensures c == '\0' ==> pieces == []
    ensures c != '\0' ==> start < i && EndsWith(src, i, c, s, src.nextarg, loc, pieces)
  {
    hide Source.Valid, Scanned, EndsWith, Fetched, Argument, Number, Modify, WithFlag, IntArg;
    i := start;
    s := NO_SPEC;
    while true
      invariant start <= i && src.Valid() && (src.table == old(src.table) || fresh(src.table))
      invariant Scanned(src, i, s, src.nextarg, loc, pieces)
      decreases |src.fmt| - i
    {
      ScanToken(src, i, s, src.nextarg, loc, pieces);
      ScannedInside(src, i, s, src.nextarg, loc, pieces);
      c := CharAt(src.fmt, i);
      if c == '\0' {
        return;
      }
      if IsFlag(c) {
        s := WithFlag(s, c);
        i := i + 1;
      } else if IsModifier(c) {
        s := s.(mods := Modify(s.mods, c));
        i := i + 1;
      } else if c == '*' {
        var v;
        v, i := src.GetAster(i + 1);
        var width := IntArg(v);
        if width >= 0 {
          s := s.(width := width);
        } else {
          s := s.(width := -width, ladjust := true);
        }
      } else if c == '.' {
        if CharAt(src.fmt, i + 1) == '*' {
          var v;
          v, i := src.GetAster(i + 2);
          s := s.(prec := IntArg(v));
        } else {
          var prec;
          prec, i := ReadNumber(src.fmt, i + 1, 0);
          s := s.(prec := prec);
        }
      } else if IsDigit(c) {
        var n, end := ReadNumber(src.fmt, i, 0);
        if CharAt(src.fmt, end) == '$' {
          src.Position(n);
          i := end + 1;
        } else {
          s := s.(width := n);
          i := end;
        }
      } else {
        i := i + 1;
        return;
      }
    }
  }

  lemma ScannedInside(src: Source, i: nat, s: Spec, nextarg: nat, loc: Locale, pieces: seq<string>)
    requires Scanned(src, i, s, nextarg, loc, pieces)
    ensures i <= |src.fmt|
  {
  }

  /** Where the formatting loop stands: `pieces` is all that the format prints. */
  ghost predicate Reached(src: Source, i: nat, nextarg: nat, loc: Locale, pieces: seq<string>, out: string) {
    && Pending(src.fmt, i, None, nextarg)
    && |out| <= INT_MAX
    && Printed("", pieces) == Printed(out, Pieces(src.fmt, i, src.args, nextarg, loc))
  }

  lemma PrintedStep(out: string, p: string, rest: seq<string>)
    ensures Printed(out, [p] + rest) == if |out| + |p| > INT_MAX then Output(out, -1) else Printed(out + p, rest)
    ensures Printed(out, []) == Output(out, |out|)
  {
    assert ([p] + rest)[1..] == rest;
  }

  /** From one '%' to the next. */
  lemma LiteralStep(src: Source, i: nat, nextarg: nat, loc: Locale, pieces: seq<string>, out: string)
    requires Reached(src, i, nextarg, loc, pieces, out)
    ensures i <= |src.fmt|
    ensures var j := NextPercent(src.fmt, i);
      var more := out + src.fmt[i..j];
      if |more| > INT_MAX then Printed("", pieces) == Output(out, -1)
      else if CharAt(src.fmt, j) == '\0' then Printed("", pieces) == Output(more, |more|)
      else
        var rest := InSpec(src.fmt, j + 1, NO_SPEC, src.args, nextarg, loc);
        && Printed("", pieces) == Printed(more, rest)
        && Scanned(src, j + 1, NO_SPEC, nextarg, loc, rest)
  {
    hide Printed, InSpec, Fetched;
    var j := NextPercent(src.fmt, i);
    PrintedStep(out, src.fmt[i..j], []);
    assert [src.fmt[i..j]] + [] == [src.fmt[i..j]];
    PrintedStep(out + src.fmt[i..j], "", []);
    if CharAt(src.fmt, j) != '\0' {
      PrintedStep(out, src.fmt[i..j], InSpec(src.fmt, j + 1, NO_SPEC, src.args, nextarg, loc));
    }
  }

  /** Over a field. */
  lemma FieldStep(src: Source, i: nat, c: char, s: Spec, k: nat, loc: Locale, pieces: seq<string>, out: string, rest: seq<string>)
    requires EndsWith(src, i, c, s, k, loc, rest) && |out| <= INT_MAX
    requires Printed("", pieces) == Printed(out, rest)
    ensures var f := FieldOf(c, s, Argument(src.args, k), loc);
      if |out| + |f| > INT_MAX then Printed("", pieces) == Output(out, -1)
      else Reached(src, i, AfterUse(c, s, k), loc, pieces, out + f)
  {
    hide Printed, FieldOf, Pieces, Pending, AfterUse;
    PrintedStep(out, FieldOf(c, s, Argument(src.args, k), loc), Pieces(src.fmt, i, src.args, AfterUse(c, s, k), loc));
  }

  /** Prints up to the next '%'. */
  method PrintLiteral(src: Source, out: Buffer, i: nat, count: nat, loc: Locale, ghost pieces: seq<string>)
    returns (more: bool, j: nat, ret: int)
    requires out.Valid() && count == |out.all| && Reached(src, i, src.nextarg, loc, pieces, out.all)
    modifies out, out.str
    ensures out.Valid() && out.str[out.cap..] == old(out.str[out.cap..])
    ensures !more ==> Printed("", pieces) == Output(out.all, ret)
    ensures more ==> i <= j < |src.fmt| && ret == |out.all| <= INT_MAX
    ensures more ==>
      var rest := InSpec(src.fmt, j + 1, NO_SPEC, src.args, src.nextarg, loc);
      Printed("", pieces) == Printed(out.all, rest) && Scanned(src, j + 1, NO_SPEC, src.nextarg, loc, rest)
  {
    hide *;
    LiteralStep(src, i, src.nextarg, loc, pieces, out.all);
    InsideFormat(src, i, src.nextarg, loc, pieces, out.all);
    ret := count;
    j := FindPercent(src.fmt, i);
    AtPercent(src.fmt, i);
    var n := j - i;
    if n != 0 {
      if ret + n > INT_MAX {
        return false, j, -1;
      }
      out.Print(src.fmt[i..j]);
      ret := ret + n;
    } else {
      assert out.all + src.fmt[i..j] == out.all;
    }
    more := CharAt(src.fmt, j) != '\0';
  }

  lemma InsideFormat(src: Source, i: nat, nextarg: nat, loc: Locale, pieces: seq<string>, out: string)
    requires Reached(src, i, nextarg, loc, pieces, out)
    ensures i <= |src.fmt| && |out| <= INT_MAX
  {
  }

  lemma AtPercent(fmt: string, i: nat)
    requires i <= |fmt|
    ensures CharAt(fmt, NextPercent(fmt, i)) != '\0' ==> NextPercent(fmt, i) < |fmt|
  {
  }

  /** Prints one field. */
  method PrintField(src: Source, out: Buffer, j: nat, count: nat, loc: Locale, ghost pieces: seq<string>)
    returns (more: bool, i: nat, ret: int)
    requires src.Valid() && out.Valid() && PrintfDigits.Rules(loc.grouping) && j < |src.fmt|
    requires count == |out.all| <= INT_MAX
    requires var rest := InSpec(src.fmt, j + 1, NO_SPEC, src.args, src.nextarg, loc);
      Printed("", pieces) == Printed(out.all, rest) && Scanned(src, j + 1, NO_SPEC, src.nextarg, loc, rest)
    modifies out, out.str, src`nextarg, src`table, src.ap, src.orgap
    ensures src.Valid() && (src.table == old(src.table) || fresh(src.table))
    ensures out.Valid() && out.str[out.cap..] == old(out.str[out.cap..])
    ensures !more ==> Printed("", pieces) == Output(out.all, ret)
    ensures more ==> j < i && ret == |out.all| && Reached(src, i, src.nextarg, loc, pieces, out.all)
  {
    hide *;
    ret := count;
    ghost var rest := InSpec(src.fmt, j + 1, NO_SPEC, src.args, src.nextarg, loc);
    var c, s;
    c, s, i := ScanSpec(src, j + 1, loc, rest);
    if c == '\0' {
      PrintedStep(out.all, "", []);
      return false, i, ret;
    }
    FieldStep(src, i, c, s, src.nextarg, loc, pieces, out.all, rest);
    EndsWithUse(src, i, c, s, src.nextarg, loc, rest);
    ghost var k := src.nextarg;
    var p := ConvertNext(src, c, s, loc);
    FieldLength(p, s.ladjust, s.width);
    FieldOfIs(c, s, Argument(src.args, k), loc);
    MaxMeaning(s.width, RealSize(p));
    var prsize := Max(s.width, RealSize(p));
    if ret + prsize > INT_MAX {
      return false, i, -1;
    }
    out.Emit(p, s.ladjust, s.width);
    return true, i, ret + prsize;
  }

  lemma EndsWithUse(src: Source, i: nat, c: char, s: Spec, k: nat, loc: Locale, rest: seq<string>)
    requires EndsWith(src, i, c, s, k, loc, rest)
    ensures Plain(c, s.mods) && (var t := FetchType(c, s.mods); t.Unused? || Use(k, t) in Fetched(src.fmt))
  {
  }

  lemma FieldOfIs(c: char, s: Spec, v: Value, loc: Locale)
    ensures FieldOf(c, s, v, loc) == Field(Convert(c, s, v, loc), s.ladjust, s.width)
  {
  }

  lemma MaxMeaning(a: int, b: int)
    ensures Max(a, b) >= a && Max(a, b) >= b
  {
  }

  /** `log_vsnprintf`: whatever the size of the buffer, it holds as many of the characters of
      the whole output as there is room for and a NUL, and the result is the same. */
  method Vsnprintf(str: array<char>, strsz: nat, fmt: string, args: seq<Arg>, loc: Locale) returns (ret: int)
    requires strsz <= str.Length && PrintfDigits.Rules(loc.grouping)
    requires Supported(fmt, 0, None) && Passed(fmt, args)
    modifies str
    ensures strsz == 0 ==> ret == -1 && str[..] == old(str[..])
    ensures strsz > 0 ==>
      var all := Printed("", Pieces(fmt, 0, args, 1, loc));
      var n := if |all.text| < strsz then |all.text| else strsz - 1;
      && ret == all.ret
      && str[..n] == all.text[..n] && str[n] == '\0'
      && str[strsz..] == old(str[strsz..])
  {
    hide Source.Valid, Buffer.Valid, Scanned, Passed, Reached, Pieces, InSpec, Printed, Supported;
    if strsz == 0 {
      return -1;
    }
    ghost var pieces := Pieces(fmt, 0, args, 1, loc);
    SupportedUndisputed(fmt, 0, None);
    var src := new Source(fmt, args);
    var out := new Buffer(str, strsz);
    var i := 0;
    ret := 0;
    Begins(src, loc, pieces);
    while true
      invariant src.Valid() && fresh(src) && fresh(src.ap) && fresh(src.orgap) && (src.table != null ==> fresh(src.table))
      invariant out.Valid() && fresh(out) && ret == |out.all| && str[out.cap..] == old(str[strsz - 1..])
      invariant Reached(src, i, src.nextarg, loc, pieces, out.all)
      decreases |fmt| - i
    {
      InsideFormat(src, i, src.nextarg, loc, pieces, out.all);
      var more, j;
      more, j, ret := PrintLiteral(src, out, i, ret, loc, pieces);
      if !more {
        break;
      }
      more, i, ret := PrintField(src, out, j, ret, loc, pieces);
      if !more {
        break;
      }
    }
    out.Terminate();
    assert str[strsz..] == old(str[strsz - 1..])[1..];
  }

  lemma Begins(src: Source, loc: Locale, pieces: seq<string>)
    requires Supported(src.fmt, 0, None) && pieces == Pieces(src.fmt, 0, src.args, 1, loc)
    ensures Reached(src, 0, 1, loc, pieces, "")
  {
  }
}
