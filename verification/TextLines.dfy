/** What a reader of marshalled text makes of any line: of its name, of a number and of a boolean. */
module TextLines {
  import opened Util
  import opened Serialize
  import opened TextSerialize

  // ----- an example -----

  lemma Example()
    ensures var o := Field("d", Int(1), NoField);
      var ss := Field("a", Int(4), Field("b", Flag, Field("c", Record(o), NoField)));
      var vs := And(Num(15), And(Bool(true), And(Group(And(Num(0), NoValue)), NoValue)));
      && CoveredAll(ss) && FitAll(ss, vs)
      && Write(ss, vs) == "a: 15\n" + ("b: true\n" + ("c: SerializableObject\n" + "d: 0\n"))
  {
    var o, w := Field("d", Int(1), NoField), And(Num(0), NoValue);
    var s2, v2 := Field("c", Record(o), NoField), And(Group(w), NoValue);
    var s1, v1 := Field("b", Flag, s2), And(Bool(true), v2);
    var ss, vs := Field("a", Int(4), s1), And(Num(15), v1);
    Limits();
    Numerals();
    Lines4();
    hide Numeral, Limit, Write, WriteField, Line;
    WriteStep(NoField, NoValue);
    WriteStep(o, w);
    WriteStep(s2, v2);
    WriteStep(s1, v1);
    WriteStep(ss, vs);
    FieldLine("d", Int(1), Num(0));
    FieldLine("c", Record(o), Group(w));
    FieldLine("b", Flag, Bool(true));
    FieldLine("a", Int(4), Num(15));
    NothingBehind("d: 0\n");
    NothingBehind("c: SerializableObject\n" + "d: 0\n");
  }

  lemma Limits()
    ensures Limit(1) == 0x100 && Limit(4) > 0x1_0000
  {
    assert Limit(2) == 0x1_0000;
  }

  lemma WriteStep(ss: Fields, vs: Values)
    requires CoveredAll(ss) && FitAll(ss, vs)
    ensures Write(ss, vs) == if ss.NoField? then "" else WriteField(ss.name, ss.schema, vs.value) + Write(ss.rest, vs.rest)
  {
    hide WriteField;
  }

  lemma NothingBehind(s: string)
    ensures s + "" == s
  {
  }

  lemma FieldLine(name: string, s: Schema, v: Value)
    requires Covered(s) && Fits(s, v)
    ensures s.Int? ==> WriteField(name, s, v) == Line(name, Numeral(v.n))
    ensures s.Flag? ==> WriteField(name, s, v) == Line(name, if v.b then "true" else "false")
    ensures s.Record? ==> WriteField(name, s, v) == Line(name, "SerializableObject") + Write(s.fields, v.values)
  {
    hide Line, Numeral, Write, Limit;
  }

  lemma Lines4()
    ensures Line("a", "15") == "a: 15\n" && Line("b", "true") == "b: true\n"
    ensures Line("c", "SerializableObject") == "c: SerializableObject\n" && Line("d", "0") == "d: 0\n"
  {
  }

  lemma Numerals()
    ensures Numeral(0) == "0" && Numeral(15) == "15"
  {
    assert Numeral(1) == "1";
  }

  // ----- names -----

  predicate Plain(s: string) { forall k :: 0 <= k < |s| ==> s[k] != ':' && s[k] != '\n' }

  predicate Padding(s: string) { forall k :: 0 <= k < |s| ==> s[k] == ' ' || s[k] == '\t' }

  predicate OneLine(s: string) { forall k :: 0 <= k < |s| ==> s[k] != '\n' }

  /** A line is taken for the field `name` exactly if its label, behind blanks and tabs, begins
      with that name; then its text starts one character behind the colon. */
  lemma NameMatched(before: string, blanks: string, tag: string, text: string, after: string, name: string)
    requires Padding(blanks) && Plain(tag) && tag != "" && tag[0] != ' ' && tag[0] != '\t'
    requires OneLine(text) && (blanks == "" ==> tag[0] != '#') && name != "" && Plain(name)
    ensures var buf := before + (blanks + tag + ":" + text + "\n") + after;
      var colon := |before| + |blanks| + |tag|;
      Head(buf, |before|, name) == if name <= tag && (text != "" || after != "") then Got(colon + 1 + |text|, colon + 2)
                                   else Failed
  {
    hide Find, NameStart;
    var line := blanks + tag + ":" + text + "\n";
    var buf := before + line + after;
    var cur := |before|;
    var start, colon := cur + |blanks|, cur + |blanks| + |tag|;
    var eol := colon + 1 + |text|;
    Places(before, blanks, tag, text, after);
    FindIs(buf, cur, '\n', eol);
    FindIs(buf, cur, ':', colon);
    StartIs(buf, cur, start, colon);
    SameStart(buf, start, tag, name);
  }

  lemma Places(before: string, blanks: string, tag: string, text: string, after: string)
    requires Padding(blanks) && Plain(tag) && OneLine(text)
    ensures var buf := before + (blanks + tag + ":" + text + "\n") + after;
      var cur := |before|;
      var start, colon := cur + |blanks|, cur + |blanks| + |tag|;
      var eol := colon + 1 + |text|;
      && |buf| == eol + 1 + |after| && buf[colon] == ':' && buf[eol] == '\n'
      && (forall k :: cur <= k < start ==> buf[k] == blanks[k - cur])
      && (forall k :: start <= k < colon ==> buf[k] == tag[k - start])
      && (forall k :: cur <= k < eol ==> buf[k] != '\n') && (forall k :: cur <= k < colon ==> buf[k] != ':')
  {
    var buf := before + (blanks + tag + ":" + text + "\n") + after;
    var colon := |before| + |blanks| + |tag|;
    assert forall k :: colon < k < colon + 1 + |text| ==> buf[k] == text[k - colon - 1];
  }

  lemma {:induction false} StartIs(buf: string, i: nat, start: nat, end: nat)
    requires i <= start < end <= |buf| && buf[start] != ' ' && buf[start] != '\t'
    requires forall k :: i <= k < start ==> buf[k] == ' ' || buf[k] == '\t'
    ensures NameStart(buf, i, end) == start
    decreases start - i
  {
    if i < start {
      StartIs(buf, i + 1, start, end);
    }
  }

  lemma SameStart(buf: string, start: nat, tag: string, name: string)
    requires start + |tag| < |buf| && buf[start + |tag|] == ':' && Plain(name)
    requires forall k :: start <= k < start + |tag| ==> buf[k] == tag[k - start]
    ensures start + |name| <= |buf| && buf[start..start + |name|] == name <==> name <= tag
  {
    if start + |name| <= |buf| {
      var part := buf[start..start + |name|];
      assert forall k :: 0 <= k < |name| ==> part[k] == buf[start + k];
      if |name| > |tag| {
        assert part[|tag|] == ':';
      } else {
        assert part == tag[..|name|];
      }
    }
  }

  /** A line without a colon is none, and neither is one without an end. */
  lemma NoName(before: string, line: string, after: string, name: string)
    requires Plain(line) && line != "" && line[0] != '#'
    ensures Head(before + line + "\n" + after, |before|, name) == Failed
    ensures Head(before + line, |before|, name) == Failed
  {
    hide NameStart, Find;
    var buf := before + line + "\n" + after;
    assert forall k :: |before| <= k < |before| + |line| ==> buf[k] == line[k - |before|];
    FindIs(buf, |before|, '\n', |before| + |line|);
    var cut := before + line;
    assert forall k :: |before| <= k < |cut| ==> cut[k] == line[k - |before|];
  }

  // ----- booleans -----

  /** Four characters decide: "true", or "fals". */
  lemma FlagLine(before: string, name: string, text: string, after: string)
    requires GoodName(name) && OneLine(text) && text != ""
    ensures ReadFlag(before + Line(name, text) + after, |before|, name)
         == if "true" <= text then Got(Bool(true), |before + Line(name, text)|)
            else if "fals" <= text then Got(Bool(false), |before + Line(name, text)|) else Failed
  {
    hide Head;
    HeadBack(before, name, text, after);
    LineAt(before, name, text, after);
    LineLength(name, text);
    var buf := before + Line(name, text) + after;
    var at := |before| + |name| + 2;
    if at + 4 < |buf| {
      FourOf(buf[at..], text, "\n" + after, "true");
      FourOf(buf[at..], text, "\n" + after, "fals");
      assert buf[at..][..4] == buf[at..at + 4];
    }
  }

  lemma FourOf(t: string, text: string, rest: string, word: string)
    requires t == text + rest && |t| > 4 && |word| == 4 && rest != "" && rest[0] == '\n' && OneLine(word)
    ensures t[..4] == word <==> word <= text
  {
    if |text| < 4 {
      assert t[..4][|text|] == rest[0];
    } else {
      assert t[..4] == text[..4];
    }
  }

  // ----- numbers -----

  function Power(base: nat, n: nat): nat { if n == 0 then 1 else base * Power(base, n - 1) }

  ghost predicate Digits(s: string, base: nat) { forall k :: 0 <= k < |s| ==> DigitIn(s[k], base).Some? }

  function Digit(c: char, base: nat): nat { DigitIn(c, base).GetOr(0) }

  /** The value of some digits, the first one counting most. */
  function ValueIn(s: string, base: nat): nat {
    if s == "" then 0 else Digit(s[0], base) * Power(base, |s| - 1) + ValueIn(s[1..], base)
  }

  lemma {:induction false} DigitsRead(s: string, base: nat, rest: string, n: nat)
    requires Digits(s, base) && (rest == "" || DigitIn(rest[0], base).None?)
    ensures ReadDigits(s + rest, base, n) == (n * Power(base, |s|) + ValueIn(s, base), |s|)
    decreases |s|
  {
    hide DigitIn;
    if s == "" {
      assert s + rest == rest;
    } else {
      assert (s + rest)[1..] == s[1..] + rest;
      var d := DigitIn(s[0], base).value;
      DigitsRead(s[1..], base, rest, base * n + d);
      Shifted(base, n, d, Power(base, |s| - 1));
    }
  }

  lemma Shifted(b: nat, n: nat, d: nat, p: nat)
    ensures (b * n + d) * p == n * (b * p) + d * p
  {
  }

  /** The numerals of C: decimal, octal with a leading 0, hexadecimal with a leading 0x. */
  ghost predicate Based(base: nat, prefix: string, digits: string, rest: string) {
    && digits != "" && Digits(digits, base) && (rest == "" || DigitIn(rest[0], base).None?)
    && ((base == 10 && prefix == "" && digits[0] != '0')
        || (base == 8 && prefix == "" && digits[0] == '0' && (rest == "" || (rest[0] != 'x' && rest[0] != 'X')))
        || (base == 16 && (prefix == "0x" || prefix == "0X")))
  }

  lemma {:induction false} SpacesAre(blanks: string, t: string)
    requires (forall k :: 0 <= k < |blanks| ==> IsSpace(blanks[k])) && (t == "" || !IsSpace(t[0]))
    ensures Spaces(blanks + t) == |blanks|
  {
    if blanks == "" {
      assert blanks + t == t;
    } else {
      assert (blanks + t)[1..] == blanks[1..] + t;
      SpacesAre(blanks[1..], t);
    }
  }

  /** A number in 64 bits: what is too large becomes the largest, a minus takes it from 2^64. */
  function Fitted(n: nat, sign: string): nat {
    var val := if n >= ULL_LIMIT then ULL_LIMIT - 1 else n;
    if sign == "-" then (ULL_LIMIT - val) % ULL_LIMIT else val
  }

  /** A numeral is read up to its last digit, whatever its base and sign and the blanks in front. */
  lemma NumeralMeans(blanks: string, sign: string, prefix: string, digits: string, base: nat, rest: string)
    requires (forall k :: 0 <= k < |blanks| ==> IsSpace(blanks[k])) && sign in {"", "+", "-"}
    requires Based(base, prefix, digits, rest)
    ensures StrToUll(blanks + (sign + (prefix + (digits + rest))))
         == (Fitted(ValueIn(digits, base), sign), |blanks| + |sign| + |prefix| + |digits|)
  {
    hide *;
    var u := prefix + (digits + rest);
    Starts(base, prefix, digits, rest);
    BasedParts(base, prefix, digits, rest);
    Cut(sign, u);
    Cut(prefix, digits + rest);
    SignedStart(sign, u);
    SpacesAre(blanks, sign + u);
    Cut(blanks, sign + u);
    DigitsRead(digits, base, rest, 0);
    Nothing(Power(base, |digits|), ValueIn(digits, base));
    ReadFrom(blanks + (sign + u), |blanks|, sign, u, base, |prefix|, ValueIn(digits, base), |digits|);
  }

  lemma Cut(a: string, b: string)
    ensures (a + b)[|a|..] == b
  {
  }

  lemma BasedParts(base: nat, prefix: string, digits: string, rest: string)
    requires Based(base, prefix, digits, rest)
    ensures digits != "" && Digits(digits, base) && (rest == "" || DigitIn(rest[0], base).None?)
    ensures (base == 10 || base == 8 || base == 16) && |prefix| == if base == 16 then 2 else 0
  {
    hide DigitIn;
  }

  lemma SignedStart(sign: string, u: string)
    requires sign in {"", "+", "-"} && u != "" && !IsSpace(u[0])
    ensures var t := sign + u; t != "" && !IsSpace(t[0]) && t[0] == if sign == "" then u[0] else sign[0]
  {
  }

  /** The steps of `strtoull`, when everything is where it should be. */
  lemma ReadFrom(t: string, s: nat, sign: string, u: string, base: nat, prefix: nat, n: nat, k: nat)
    requires Spaces(t) == s <= |t| && t[s..] == sign + u && sign in {"", "+", "-"} && u != ""
    requires u[0] != '-' && u[0] != '+' && prefix <= |u|
    requires base == 16 <==> |u| >= 3 && u[0] == '0' && (u[1] == 'x' || u[1] == 'X') && DigitIn(u[2], 16).Some?
    requires base != 10 <==> u[0] == '0'
    requires (base == 10 || base == 8 || base == 16) && prefix == if base == 16 then 2 else 0
    requires ReadDigits(u[prefix..], base, 0) == (n, k) && k > 0
    ensures StrToUll(t) == (Fitted(n, sign), s + |sign| + prefix + k)
  {
    hide Spaces, ReadDigits, DigitIn;
    var r := sign + u;
    assert t[s] == t[s..][0] == r[0] && t[s + |sign|..] == t[s..][|sign|..] == u;
    assert r[0] == if sign == "" then u[0] else sign[0];
  }

  lemma Nothing(p: nat, v: nat)
    ensures 0 * p + v == v
  {
  }

  /** How such a numeral starts, and that its base is told from it. */
  lemma Starts(base: nat, prefix: string, digits: string, rest: string)
    requires Based(base, prefix, digits, rest)
    ensures var u := prefix + (digits + rest);
      && u != "" && !IsSpace(u[0]) && u[0] != '-' && u[0] != '+'
      && (base == 16 <==> |u| >= 3 && u[0] == '0' && (u[1] == 'x' || u[1] == 'X') && DigitIn(u[2], 16).Some?)
      && (base != 10 <==> u[0] == '0')
  {
    var u := prefix + (digits + rest);
    if base == 16 {
      assert u[0] == prefix[0] && u[1] == prefix[1] && u[2] == digits[0];
    } else {
      assert u == digits + rest && u[0] == digits[0];
      if |u| >= 2 {
        assert u[1] == if |digits| > 1 then digits[1] else rest[0];
      }
    }
  }

  /** A number is what its line says, in the bytes of the field, if nothing stands behind it; other
      lines fail the assertion. */
  lemma NumLine(before: string, name: string, blanks: string, sign: string, prefix: string, digits: string, base: nat,
                junk: string, after: string, bytes: nat)
    requires GoodName(name) && Padding(blanks) && sign in {"", "+", "-"} && OneLine(junk)
    requires Based(base, prefix, digits, junk + "\n" + after)
    ensures var text := blanks + (sign + (prefix + (digits + junk)));
      ReadNum(before + Line(name, text) + after, |before|, name, bytes)
      == if junk != "" then Aborted
         else Got(Num(Fitted(ValueIn(digits, base), sign) % Limit(bytes)), |before + Line(name, text)|)
  {
    hide *;
    var text := blanks + (sign + (prefix + (digits + junk)));
    BasedParts(base, prefix, digits, junk + "\n" + after);
    Prefixes(base, prefix, digits, junk + "\n" + after);
    NoBreaks(blanks, sign, prefix, digits, junk, base);
    PaddingIsSpace(blanks);
    OneLineIs(text);
    HeadBack(before, name, text, after);
    LineAt(before, name, text, after);
    LineLength(name, text);
    NumeralMeans(blanks, sign, prefix, digits, base, junk + "\n" + after);
    JunkBehind(blanks, sign, prefix, digits, junk, after);
    var at, used := |before| + |name| + 2, |blanks| + |sign| + |prefix| + |digits|;
    NumAt(before + Line(name, text) + after, |before|, name, bytes, at, used, text, junk);
  }

  lemma Prefixes(base: nat, prefix: string, digits: string, rest: string)
    requires Based(base, prefix, digits, rest)
    ensures prefix == "" || prefix == "0x" || prefix == "0X"
  {
  }

  lemma OneLineIs(text: string)
    requires OneLine(text)
    ensures forall k :: 0 <= k < |text| ==> text[k] != '\n'
  {
  }

  lemma PaddingIsSpace(blanks: string)
    requires Padding(blanks)
    ensures forall k :: 0 <= k < |blanks| ==> IsSpace(blanks[k])
  {
  }

  lemma JunkBehind(a: string, b: string, c: string, d: string, junk: string, after: string)
    ensures var text := a + (b + (c + (d + junk)));
      && |text| == |a| + |b| + |c| + |d| + |junk|
      && (forall k :: 0 <= k < |junk| ==> text[|a| + |b| + |c| + |d| + k] == junk[k])
      && text + ("\n" + after) == a + (b + (c + (d + (junk + "\n" + after))))
  {
  }

  /** What is behind the number decides. */
  lemma NumAt(buf: string, cur: nat, name: string, bytes: nat, at: nat, used: nat, text: string, junk: string)
    requires Head(buf, cur, name) == Got(at + |text|, at) && at + |text| < |buf| && buf[at + |text|] == '\n'
    requires forall k :: at <= k < at + |text| ==> buf[k] == text[k - at]
    requires |text| == used + |junk| && OneLine(junk) && forall k :: 0 <= k < |junk| ==> text[used + k] == junk[k]
    requires StrToUll(buf[at..]).1 == used
    ensures ReadNum(buf, cur, name, bytes)
         == if junk != "" then Aborted else Got(Num(StrToUll(buf[at..]).0 % Limit(bytes)), at + |text| + 1)
  {
    hide Head, StrToUll, Limit;
    if junk != "" {
      assert buf[at + used] == text[used] == junk[0];
    }
  }

  lemma NoBreaks(blanks: string, sign: string, prefix: string, digits: string, junk: string, base: nat)
    requires Padding(blanks) && sign in {"", "+", "-"} && OneLine(junk) && Digits(digits, base) && digits != "" && base <= 16
    requires prefix == "" || prefix == "0x" || prefix == "0X"
    ensures var text := blanks + (sign + (prefix + (digits + junk))); text != "" && OneLine(text)
  {
    var text := blanks + (sign + (prefix + (digits + junk)));
    forall k | 0 <= k < |digits| ensures digits[k] != '\n' {
      assert DigitIn(digits[k], base).Some?;
    }
    assert OneLine(blanks) && OneLine(sign) && OneLine(prefix) && OneLine(digits);
    hide DigitIn;
    LinesJoin(digits, junk);
    LinesJoin(prefix, digits + junk);
    LinesJoin(sign, prefix + (digits + junk));
    LinesJoin(blanks, sign + (prefix + (digits + junk)));
  }

  lemma LinesJoin(a: string, b: string)
    requires OneLine(a) && OneLine(b)
    ensures OneLine(a + b)
  {
  }
}
