/** The text serializers of serialize/TextSerialize.cc: `TextMarshal` and `TextUnmarshal` on
    objects of integers, booleans and objects. */
module TextSerialize {
  import opened Util
  import opened Serialize
  import PrintfDigits

  /** The schemas covered. */
  predicate Covered(s: Schema) {
    match s
    case Int(bytes) => bytes == 1 || bytes == 2 || bytes == 4 || bytes == 8
    case Flag => true
    case Record(fields) => CoveredAll(fields)
    case _ => false
  }

  predicate CoveredAll(ss: Fields) {
    match ss
    case NoField => true
    case Field(_, s, rest) => Covered(s) && CoveredAll(rest)
  }

  // ----- writing -----

  function Numeral(n: nat): (r: string)
    ensures |r| > 0
  {
    PrintfDigits.Digits(n, 10, PrintfDigits.LOWER)
  }

  function Line(name: string, text: string): string { name + ": " + text + "\n" }

  /** The lines of an object's fields; the code never indents them. */
  function Write(ss: Fields, vs: Values): string
    requires CoveredAll(ss) && FitAll(ss, vs)
    decreases ss
  {
    match ss
    case NoField => ""
    case Field(name, s, rest) => WriteField(name, s, vs.value) + Write(rest, vs.rest)
  }

  function WriteField(name: string, s: Schema, v: Value): string
    requires Covered(s) && Fits(s, v)
    decreases s, 1
  {
    match s
    case Int(_) => Line(name, Numeral(v.n))
    case Flag => Line(name, if v.b then "true" else "false")
    case Record(fields) => Line(name, "SerializableObject") + Write(fields, v.values)
  }

  const START := "# -- text marshal start --\n"

  // ----- numbers in the C library's way -----

  predicate IsSpace(c: char) { c == ' ' || '\t' <= c <= '\r' }

  function DigitIn(c: char, base: nat): Option<nat> {
    var d: nat := if '0' <= c <= '9' then (c - '0') as nat
      else if 'a' <= c <= 'z' then 10 + (c - 'a') as nat
      else if 'A' <= c <= 'Z' then 10 + (c - 'A') as nat
      else base;
    if d < base then Some(d) else None
  }

  /** Digits in front of `n`: the value, and how many there are. */
  function ReadDigits(t: string, base: nat, n: nat): (r: (nat, nat))
    ensures r.1 <= |t|
  {
    if t == "" || DigitIn(t[0], base).None? then (n, 0)
    else
      var (v, k) := ReadDigits(t[1..], base, base * n + DigitIn(t[0], base).value);
      (v, k + 1)
  }

  function Spaces(t: string): (k: nat)
    ensures k <= |t|
  {
    if t != "" && IsSpace(t[0]) then 1 + Spaces(t[1..]) else 0
  }

  const ULL_LIMIT: nat := 0x1_0000_0000_0000_0000

  /** `strtoul` and `strtoull` with base 0: the value, and how many characters were used. */
  function StrToUll(t: string): (r: (nat, nat))
    ensures r.1 <= |t|
  {
    var s := Spaces(t);
    var sign := if s < |t| && (t[s] == '-' || t[s] == '+') then 1 else 0;
    var u := t[s + sign..];
    var (base, prefix) := if |u| >= 3 && u[0] == '0' && (u[1] == 'x' || u[1] == 'X') && DigitIn(u[2], 16).Some? then (16, 2)
                          else if |u| >= 1 && u[0] == '0' then (8, 0) else (10, 0);
    var (n, k) := ReadDigits(u[prefix..], base, 0);
    if k == 0 then (0, 0)
    else
      var val := if n >= ULL_LIMIT then ULL_LIMIT - 1 else n;
      (if sign == 1 && t[s] == '-' then (ULL_LIMIT - val) % ULL_LIMIT else val, s + sign + prefix + k)
  }

  // ----- reading -----

  /** A value and the place behind it; an error; a failed ASSERT; or something undefined, a
      null pointer or the character behind the buffer. */
  datatype Parsed<T> = Got(value: T, cur: nat) | Failed | Aborted | Undefined

  /** The place of the next `c`, or the end. */
  function Find(buf: string, i: nat, c: char): (r: nat)
    requires i <= |buf|
    ensures i <= r <= |buf| && (r < |buf| ==> buf[r] == c)
    ensures forall k :: i <= k < r ==> buf[k] != c
    decreases |buf| - i
  {
    if i == |buf| || buf[i] == c then i else Find(buf, i + 1, c)
  }

  /** `get_line`: skips comments; where the line starts and where it ends. */
  function GetLine(buf: string, cur: nat): (r: Option<(nat, nat)>)
    ensures r.Some? ==> cur <= r.value.0 <= r.value.1 < |buf|
    decreases |buf| - cur
  {
    if cur >= |buf| then None
    else
      var eol := Find(buf, cur, '\n');
      if eol == |buf| then None
      else if buf[cur] == '#' then GetLine(buf, eol + 1)
      else Some((cur, eol))
  }

  /** The first character of a name: not a blank and not a tab. */
  function NameStart(buf: string, i: nat, end: nat): (r: nat)
    requires i <= end <= |buf|
    ensures i <= r <= end
    decreases end - i
  {
    if i == end || (buf[i] != '\t' && buf[i] != ' ') then i else NameStart(buf, i + 1, end)
  }

  /** `match_fieldname`: the place of the field's text. */
  function MatchName(buf: string, cur: nat, eol: nat, name: string): Parsed<()>
    requires cur <= eol < |buf|
  {
    var colon := Find(buf, cur, ':');
    if colon == |buf| || colon > eol then Failed
    else
      var start := NameStart(buf, cur, colon);
      if start == colon && name != "" then Undefined
      else if start < colon && !(start + |name| <= |buf| && buf[start..start + |name|] == name) then Failed
      else if colon + 2 >= |buf| then Failed
      else Got((), colon + 2)
  }

  /** A line with the given name: where its text and its end are. */
  function Head(buf: string, cur: nat, name: string): (r: Parsed<nat>)
    ensures r.Got? ==> r.cur < |buf| && r.value < |buf|
  {
    var line := GetLine(buf, cur);
    if line.None? then Failed
    else
      match MatchName(buf, line.value.0, line.value.1, name)
      case Got(_, next) => Got(line.value.1, next)
      case Failed => Failed
      case Aborted => Aborted
      case Undefined => Undefined
  }

  function ReadNum(buf: string, cur: nat, name: string, bytes: nat): Parsed<Value> {
    match Head(buf, cur, name)
    case Got(_, at) =>
      var (n, used) := StrToUll(buf[at..]);
      if at + used == |buf| then Undefined
      else if buf[at + used] != '\n' then Aborted
      else Got(Num(n % Limit(bytes)), at + used + 1)
    case Failed => Failed
    case Aborted => Aborted
    case Undefined => Undefined
  }

  function ReadFlag(buf: string, cur: nat, name: string): Parsed<Value> {
    match Head(buf, cur, name)
    case Got(eol, at) =>
      if at + 4 >= |buf| then Failed
      else if buf[at..at + 4] == "true" then Got(Bool(true), eol + 1)
      else if buf[at..at + 4] == "fals" then Got(Bool(false), eol + 1)
      else Failed
    case Failed => Failed
    case Aborted => Aborted
    case Undefined => Undefined
  }

  function ReadField(name: string, s: Schema, buf: string, cur: nat): Parsed<Value>
    requires Covered(s)
    decreases s, 1
  {
    match s
    case Int(bytes) => ReadNum(buf, cur, name, bytes)
    case Flag => ReadFlag(buf, cur, name)
    case Record(fields) =>
      match Head(buf, cur, name)
      case Failed => Failed
      case Aborted => Aborted
      case Undefined => Undefined
      case Got(eol, _) =>
        if eol + 1 >= |buf| then Failed
        else
          match Read(fields, buf, eol + 1)
          case Got(vs, end) => Got(Group(vs), end)
          case Failed => Failed
          case Aborted => Aborted
          case Undefined => Undefined
  }

  function Read(ss: Fields, buf: string, cur: nat): Parsed<Values>
    requires CoveredAll(ss)
    decreases ss
  {
    match ss
    case NoField => Got(NoValue, cur)
    case Field(name, s, rest) =>
      match ReadField(name, s, buf, cur)
      case Failed => Failed
      case Aborted => Aborted
      case Undefined => Undefined
      case Got(v, next) =>
        match Read(rest, buf, next)
        case Got(vs, end) => Got(And(v, vs), end)
        case Failed => Failed
        case Aborted => Aborted
        case Undefined => Undefined
  }

  // ----- numerals come back -----

  lemma {:induction false} ReadMore(t: string, d: char, rest: string, n: nat)
    requires forall k :: 0 <= k < |t| ==> DigitIn(t[k], 10).Some?
    requires DigitIn(d, 10).Some? && (rest == "" || DigitIn(rest[0], 10).None?)
    ensures var (v, k) := ReadDigits(t + rest, 10, n);
      k == |t| && ReadDigits(t + [d] + rest, 10, n) == (10 * v + DigitIn(d, 10).value, k + 1)
    decreases |t|
  {
    hide DigitIn, ReadDigits;
    if t == "" {
      assert t + rest == rest && t + [d] + rest == [d] + rest;
      ReadOne(d, rest, n);
      ReadNone(rest, n);
      ReadNone(rest, 10 * n + DigitIn(d, 10).value);
    } else {
      assert t + rest == [t[0]] + (t[1..] + rest) && t + [d] + rest == [t[0]] + (t[1..] + [d] + rest);
      ReadOne(t[0], t[1..] + rest, n);
      ReadOne(t[0], t[1..] + [d] + rest, n);
      ReadMore(t[1..], d, rest, 10 * n + DigitIn(t[0], 10).value);
    }
  }

  lemma ReadOne(d: char, rest: string, n: nat)
    requires DigitIn(d, 10).Some?
    ensures var (v, k) := ReadDigits(rest, 10, 10 * n + DigitIn(d, 10).value);
      ReadDigits([d] + rest, 10, n) == (v, k + 1)
  {
    hide DigitIn;
    assert ([d] + rest)[1..] == rest;
  }

  lemma ReadNone(rest: string, n: nat)
    requires rest == "" || DigitIn(rest[0], 10).None?
    ensures ReadDigits(rest, 10, n) == (n, 0)
  {
  }

  lemma LowerDigit(d: nat)
    requires d < 10
    ensures DigitIn(PrintfDigits.LOWER[d], 10) == Some(d) && !IsSpace(PrintfDigits.LOWER[d])
    ensures PrintfDigits.LOWER[d] != '-' && PrintfDigits.LOWER[d] != '+' && (PrintfDigits.LOWER[d] == '0' <==> d == 0)
  {
  }

  lemma {:induction false} NumeralRead(n: nat, rest: string)
    requires rest == "" || DigitIn(rest[0], 10).None?
    ensures ReadDigits(Numeral(n) + rest, 10, 0) == (n, |Numeral(n)|)
    ensures forall k :: 0 <= k < |Numeral(n)| ==> DigitIn(Numeral(n)[k], 10).Some?
    ensures var c := Numeral(n)[0]; !IsSpace(c) && c != '-' && c != '+' && (c == '0' <==> n == 0)
    decreases n
  {
    hide PrintfDigits.Digits, DigitIn, ReadDigits;
    PrintfDigits.DigitsStep(n, 10, PrintfDigits.LOWER, "");
    LowerDigit(n % 10);
    var d := PrintfDigits.LOWER[n % 10];
    assert Numeral(n) + "" == Numeral(n) && [d] + "" == [d];
    if n / 10 == 0 {
      ReadMore("", d, rest, 0);
      ReadNone(rest, 0);
      assert "" + rest == rest && "" + [d] + rest == [d] + rest;
    } else {
      NumeralRead(n / 10, rest);
      ReadMore(Numeral(n / 10), d, rest, 0);
      assert Numeral(n) == Numeral(n / 10) + [d];
    }
  }

  /** A numeral in front of a line end is read as its number. */
  lemma NumberBack(n: nat, rest: string)
    requires n < ULL_LIMIT
    ensures StrToUll(Numeral(n) + ("\n" + rest)) == (n, |Numeral(n)|)
  {
    hide ReadDigits, Numeral;
    var t := Numeral(n) + ("\n" + rest);
    NumeralRead(n, "\n" + rest);
    assert t[0] == Numeral(n)[0] && t[0..] == t;
    if n == 0 {
      ZeroNumeral();
      assert t == "0" + ("\n" + rest) && t[1] == '\n';
      ZeroRead(rest);
    }
  }

  lemma ZeroNumeral()
    ensures Numeral(0) == "0"
  {
  }

  lemma ZeroRead(rest: string)
    ensures ReadDigits("0" + ("\n" + rest), 8, 0) == (0, 1)
  {
    var t := "0" + ("\n" + rest);
    assert t[1..] == "\n" + rest && t[0] == '0';
    assert ReadDigits(t[1..], 8, 0) == (0, 0);
  }

  // ----- lines come back -----

  /** Names that a reader does not misunderstand. */
  ghost predicate GoodName(name: string) {
    && (forall k :: 0 <= k < |name| ==> name[k] != ':' && name[k] != '\n')
    && (name != "" ==> name[0] != '#' && name[0] != ' ' && name[0] != '\t')
  }

  ghost predicate GoodNames(ss: Fields) {
    match ss
    case NoField => true
    case Field(name, s, rest) => GoodName(name) && (s.Record? ==> GoodNames(s.fields)) && GoodNames(rest)
  }

  lemma {:induction false} FindIs(buf: string, i: nat, c: char, r: nat)
    requires i <= r < |buf| && buf[r] == c && forall k :: i <= k < r ==> buf[k] != c
    ensures Find(buf, i, c) == r
    decreases r - i
  {
    if i < r {
      FindIs(buf, i + 1, c, r);
    }
  }

  /** A line is found by its name, and its text and its end with it. */
  lemma HeadBack(before: string, name: string, text: string, after: string)
    requires GoodName(name) && text != "" && forall k :: 0 <= k < |text| ==> text[k] != '\n'
    ensures var buf := before + Line(name, text) + after;
      Head(buf, |before|, name) == Got(|before| + |name| + 2 + |text|, |before| + |name| + 2)
  {
    hide Find;
    var buf := before + Line(name, text) + after;
    var cur := |before|;
    var colon, eol := cur + |name|, cur + |name| + 2 + |text|;
    LineAt(before, name, text, after);
    FindIs(buf, cur, '\n', eol);
    FindIs(buf, cur, ':', colon);
  }

  /** Where the characters of a line are. */
  lemma LineAt(before: string, name: string, text: string, after: string)
    ensures var buf := before + Line(name, text) + after;
      var cur := |before|;
      var at := cur + |name| + 2;
      && |buf| == at + |text| + 1 + |after|
      && (forall k :: cur <= k < cur + |name| ==> buf[k] == name[k - cur])
      && buf[cur..cur + |name|] == name
      && buf[cur + |name|] == ':' && buf[cur + |name| + 1] == ' '
      && (forall k :: at <= k < at + |text| ==> buf[k] == text[k - at])
      && buf[at + |text|] == '\n'
      && buf[at..] == text + ("\n" + after)
  {
    var buf := before + Line(name, text) + after;
    var cur := |before|;
    assert buf[cur..cur + |name|] == name;
    assert buf[cur + |name| + 2..] == text + ("\n" + after);
  }

  /** The last line belongs to an object without fields. */
  predicate EndsInObject(ss: Fields)
    decreases ss
  {
    match ss
    case NoField => false
    case Field(_, s, rest) =>
      if rest.NoField? then s.Record? && (s.fields.NoField? || EndsInObject(s.fields)) else EndsInObject(rest)
  }

  lemma NumBack(before: string, name: string, n: nat, bytes: nat, after: string)
    requires GoodName(name) && (bytes == 1 || bytes == 2 || bytes == 4 || bytes == 8) && n < Limit(bytes)
    ensures var line := Line(name, Numeral(n));
      ReadNum(before + line + after, |before|, name, bytes) == Got(Num(n), |before + line|)
  {
    hide Head, StrToUll, Numeral, Limit;
    var text := Numeral(n);
    NumeralRead(n, "");
    NumeralClean(text);
    HeadBack(before, name, text, after);
    LineAt(before, name, text, after);
    EightBytes(n, bytes);
    NumberBack(n, after);
  }

  lemma NumeralClean(text: string)
    requires forall k :: 0 <= k < |text| ==> DigitIn(text[k], 10).Some?
    ensures forall k :: 0 <= k < |text| ==> text[k] != '\n'
  {
  }

  lemma EightBytes(n: nat, bytes: nat)
    requires (bytes == 1 || bytes == 2 || bytes == 4 || bytes == 8) && n < Limit(bytes)
    ensures n < ULL_LIMIT && n % Limit(bytes) == n
  {
    assert Limit(2) == 0x1_0000 && Limit(4) == 0x1_0000_0000 by { assert Limit(2) == 0x1_0000; }
    assert Limit(6) == 0x1_0000_0000_0000;
  }

  lemma FlagBack(before: string, name: string, b: bool, after: string)
    requires GoodName(name)
    ensures var line := Line(name, if b then "true" else "false");
      ReadFlag(before + line + after, |before|, name) == Got(Bool(b), |before + line|)
  {
    hide Head;
    var text := if b then "true" else "false";
    HeadBack(before, name, text, after);
    LineAt(before, name, text, after);
    var buf := before + Line(name, text) + after;
    var at := |before| + |name| + 2;
    LineLength(name, text);
    assert buf[at..][..4] == buf[at..at + 4];
    assert (text + ("\n" + after))[..4] == text[..4];
    assert text[..4] == if b then "true" else "fals";
  }

  /** Reading undoes writing, unless the text ends with an object without fields: then it fails. */
  lemma {:induction false} RoundTrip(ss: Fields, vs: Values, before: string, after: string)
    requires CoveredAll(ss) && FitAll(ss, vs) && GoodNames(ss)
    ensures Read(ss, before + Write(ss, vs) + after, |before|)
            == if after == "" && EndsInObject(ss) then Failed else Got(vs, |before + Write(ss, vs)|)
    decreases ss
  {
    if ss.Field? {
      hide ReadField, WriteField;
      var line, rest := WriteField(ss.name, ss.schema, vs.value), Write(ss.rest, vs.rest);
      Regroup(before, line, rest, after);
      FieldRoundTrip(ss.name, ss.schema, vs.value, before, rest + after);
      if ss.rest.Field? {
        SomethingWritten(ss.rest, vs.rest);
      }
      RoundTrip(ss.rest, vs.rest, before + line, after);
    }
  }

  lemma Regroup(before: string, e: string, rest: string, after: string)
    ensures before + (e + rest) + after == before + e + (rest + after)
    ensures before + (e + rest) + after == before + e + rest + after
    ensures before + (e + rest) == before + e + rest
  {
  }

  lemma SomethingWritten(ss: Fields, vs: Values)
    requires CoveredAll(ss) && FitAll(ss, vs) && ss.Field?
    ensures Write(ss, vs) != ""
  {
  }

  lemma {:induction false} FieldRoundTrip(name: string, s: Schema, v: Value, before: string, after: string)
    requires Covered(s) && Fits(s, v) && GoodName(name) && (s.Record? ==> GoodNames(s.fields))
    ensures ReadField(name, s, before + WriteField(name, s, v) + after, |before|)
            == if after == "" && s.Record? && (s.fields.NoField? || EndsInObject(s.fields)) then Failed
               else Got(v, |before + WriteField(name, s, v)|)
    decreases s, 1
  {
    hide Head, ReadNum, ReadFlag, Numeral, Limit, Line;
    match s {
      case Int(bytes) => NumBack(before, name, v.n, bytes, after);
      case Flag => FlagBack(before, name, v.b, after);
      case Record(fields) =>
        var head, body := Line(name, "SerializableObject"), Write(fields, v.values);
        Regroup(before, head, body, after);
        LineLength(name, "SerializableObject");
        HeadBack(before, name, "SerializableObject", body + after);
        if fields.Field? {
          SomethingWritten(fields, v.values);
        }
        RoundTrip(fields, v.values, before + head, after);
    }
  }

  lemma LineLength(name: string, text: string)
    ensures |Line(name, text)| == |name| + 2 + |text| + 1
  {
  }

  /** Comments: nothing, or lines that start with '#'. */
  ghost predicate Comment(text: string)
    decreases |text|
  {
    text == "" || (text[0] == '#' && Find(text, 0, '\n') < |text| && Comment(text[Find(text, 0, '\n') + 1..]))
  }

  lemma {:induction false} SkipComment(before: string, comment: string, after: string)
    requires Comment(comment)
    ensures GetLine(before + comment + after, |before|) == GetLine(before + comment + after, |before + comment|)
    decreases |comment|
  {
    hide Find;
    if comment == "" {
      assert before + "" == before;
    } else {
      var n := Find(comment, 0, '\n');
      var first, rest := comment[..n + 1], comment[n + 1..];
      assert comment == first + rest;
      Regroup(before, first, rest, after);
      OneComment(before, first, rest + after);
      SkipComment(before + first, rest, after);
    }
  }

  lemma OneComment(before: string, line: string, after: string)
    requires |line| > 0 && line[0] == '#' && line[|line| - 1] == '\n' && forall k :: 0 <= k < |line| - 1 ==> line[k] != '\n'
    ensures GetLine(before + line + after, |before|) == GetLine(before + line + after, |before + line|)
  {
    hide Find;
    var buf := before + line + after;
    var n := |line| - 1;
    assert forall k :: 0 <= k < |line| ==> buf[|before| + k] == line[k];
    forall k | |before| <= k < |before| + n ensures buf[k] != '\n' {
      assert buf[|before| + (k - |before|)] == line[k - |before|];
    }
    FindIs(buf, |before|, '\n', |before| + n);
  }

  /** Reading an object with fields starts behind the comments. */
  lemma CommentsSkipped(ss: Fields, before: string, comment: string, after: string)
    requires CoveredAll(ss) && ss.Field? && Comment(comment)
    ensures var buf := before + comment + after;
      Read(ss, buf, |before|) == Read(ss, buf, |before + comment|)
  {
    hide ReadField, GetLine, Comment;
    SkipComment(before, comment, after);
    SameHead(ss.name, before + comment + after, |before|, |before + comment|);
    SameField(ss.name, ss.schema, before + comment + after, |before|, |before + comment|);
  }

  lemma SameField(name: string, s: Schema, buf: string, i: nat, j: nat)
    requires Covered(s) && Head(buf, i, name) == Head(buf, j, name)
    ensures ReadField(name, s, buf, i) == ReadField(name, s, buf, j)
  {
    hide Head, StrToUll, Limit, Read;
  }

  lemma SameHead(name: string, buf: string, i: nat, j: nat)
    requires GetLine(buf, i) == GetLine(buf, j)
    ensures Head(buf, i, name) == Head(buf, j, name)
  {
  }

  lemma StartIsComment()
    ensures Comment(START)
  {
    var n := |START| - 1;
    FindIs(START, 0, '\n', n);
    assert START[n + 1..] == "";
  }

  lemma {:induction false} CommentJoin(a: string, b: string)
    requires Comment(a) && Comment(b)
    ensures Comment(a + b)
    decreases |a|
  {
    if a == "" {
      assert a + b == b;
    } else {
      var n := Find(a, 0, '\n');
      FindIs(a + b, 0, '\n', n);
      assert (a + b)[n + 1..] == a[n + 1..] + b;
      CommentJoin(a[n + 1..], b);
    }
  }

  /** A marshalled object is unmarshalled, past its header and any comment, up to the end of the
      text, exactly if its last line is not that of an object without fields. */
  lemma TextRoundTrip(ss: Fields, vs: Values, comment: string)
    requires CoveredAll(ss) && FitAll(ss, vs) && GoodNames(ss) && ss.Field? && Comment(comment)
    ensures var text := START + comment + Write(ss, vs);
      && Read(ss, text, 0) == if EndsInObject(ss) then Failed else Got(vs, |text|)
  {
    hide Read, Write, Comment, START, EndsInObject;
    StartIsComment();
    CommentJoin(START, comment);
    var head, body := START + comment, Write(ss, vs);
    assert "" + head + body == head + body == head + body + "" && "" + head == head;
    CommentsSkipped(ss, "", head, body);
    RoundTrip(ss, vs, head, "");
  }

  // ----- the serializers -----

  class TextMarshal {
    var buf: string

    constructor (comment: string)
      ensures buf == START + comment
    {
      buf := START + comment;
    }

    method Append(text: string)
      modifies this
      ensures buf == old(buf) + text
    {
      buf := buf + text;
    }

    method Process(name: string, s: Schema, v: Value)
      requires Covered(s) && Fits(s, v)
      modifies this
      ensures buf == old(buf) + WriteField(name, s, v)
      decreases s, 1
    {
      hide Numeral, Line;
      match s {
        case Int(_) => Append(Line(name, Numeral(v.n)));
        case Flag => Append(Line(name, if v.b then "true" else "false"));
        case Record(fields) =>
          Regroup(buf, Line(name, "SerializableObject"), Write(fields, v.values), "");
          Append(Line(name, "SerializableObject"));
          ProcessAll(fields, v.values);
      }
    }

    method ProcessAll(ss: Fields, vs: Values)
      requires CoveredAll(ss) && FitAll(ss, vs)
      modifies this
      ensures buf == old(buf) + Write(ss, vs)
      decreases ss
    {
      if ss.Field? {
        hide WriteField;
        Regroup(buf, WriteField(ss.name, ss.schema, vs.value), Write(ss.rest, vs.rest), "");
        Process(ss.name, ss.schema, vs.value);
        ProcessAll(ss.rest, vs.rest);
      }
    }
  }

  /** How reading went wrong, if it did. */
  datatype Trouble = Fine | Error | Abort | Undef

  class TextUnmarshal {
    const buf: string
    var cur: nat
    var trouble: Trouble

    constructor (buf: string)
      ensures this.buf == buf && cur == 0 && trouble == Fine
    {
      this.buf, cur, trouble := buf, 0, Fine;
    }

    ghost predicate After<T>(p: Parsed<T>, v: T)
      reads this
    {
      match p
      case Got(w, next) => trouble == Fine && v == w && cur == next
      case Failed => trouble == Error
      case Aborted => trouble == Abort
      case Undefined => trouble == Undef
    }

    /** `get_line` */
    method GetNextLine() returns (eol: Option<nat>)
      modifies this`cur
      ensures match GetLine(buf, old(cur))
        case None => eol == None
        case Some((start, end)) => cur == start && eol == Some(end)
    {
      while true
        invariant GetLine(buf, cur) == GetLine(buf, old(cur))
        decreases |buf| - cur
      {
        var offset := 0;
        while cur + offset < |buf| && buf[cur + offset] != '\n'
          invariant cur <= |buf| ==> cur + offset <= |buf| && Find(buf, cur, '\n') == Find(buf, cur + offset, '\n')
        {
          offset := offset + 1;
        }
        if cur + offset >= |buf| {
          return None;
        }
        if buf[cur] == '#' {
          cur := cur + offset + 1;
        } else {
          return Some(cur + offset);
        }
      }
    }

    /** Scans to the colon, or the end, and remembers where the name starts. */
    method FindColon() returns (ptr: Option<nat>)
      requires cur <= |buf|
      modifies this`cur
      ensures cur == Find(buf, old(cur), ':') <= |buf|
      ensures NameStart(buf, old(cur), cur) == ptr.GetOr(cur)
      ensures ptr.Some? ==> old(cur) <= ptr.value < cur
      ensures ptr.None? ==> NameStart(buf, old(cur), cur) == cur
    {
      ghost var start := cur;
      ptr := None;
      while cur < |buf| && buf[cur] != ':'
        invariant start <= cur <= |buf| && Find(buf, cur, ':') == Find(buf, start, ':')
        invariant ptr.Some? ==> start <= ptr.value < cur
        invariant forall end :: cur <= end <= |buf| ==>
          NameStart(buf, start, end) == if ptr.Some? then ptr.value else NameStart(buf, cur, end)
      {
        if buf[cur] != '\t' && buf[cur] != ' ' && ptr == None {
          ptr := Some(cur);
        }
        cur := cur + 1;
      }
    }

    /** `match_fieldname` */
    method MatchFieldName(name: string, eol: nat)
      requires trouble == Fine && cur <= eol < |buf|
      modifies this
      ensures After(MatchName(buf, old(cur), eol, name), ())
    {
      hide Find, NameStart;
      var ptr := FindColon();
      if cur == |buf| || cur > eol {
        trouble := Error;
        return;
      }
      if ptr == None {
        if name != "" {
          trouble := Undef;
          return;
        }
      } else if !(ptr.value + |name| <= |buf| && buf[ptr.value..ptr.value + |name|] == name) {
        trouble := Error;
        return;
      }
      cur := cur + 2;
      if cur >= |buf| {
        trouble := Error;
      }
    }

    /** The beginning of all `process` functions: a line, and the field's name in it. */
    method Begin(name: string) returns (eol: nat)
      requires trouble == Fine
      modifies this
      ensures After(Head(buf, old(cur), name), eol)
    {
      hide GetLine, MatchName;
      var line := GetNextLine();
      if line == None {
        trouble := Error;
        return 0;
      }
      eol := line.value;
      MatchFieldName(name, eol);
    }

    /** `get_num` */
    method GetNum(name: string, bytes: nat) returns (v: Value)
      requires trouble == Fine
      modifies this
      ensures After(ReadNum(buf, old(cur), name, bytes), v)
    {
      hide Head, StrToUll;
      v := Num(0);
      var eol := Begin(name);
      if trouble != Fine {
        return;
      }
      var (n, used) := StrToUll(buf[cur..]);
      if cur + used == |buf| {
        trouble := Undef;
        return;
      }
      if buf[cur + used] != '\n' {
        trouble := Abort;
        return;
      }
      v := Num(n % Limit(bytes));
      cur := cur + used + 1;
    }

    method GetFlag(name: string) returns (v: Value)
      requires trouble == Fine
      modifies this
      ensures After(ReadFlag(buf, old(cur), name), v)
    {
      hide Head;
      v := Num(0);
      var eol := Begin(name);
      if trouble != Fine {
        return;
      }
      if cur + 4 >= |buf| {
        trouble := Error;
      } else if buf[cur..cur + 4] == "true" {
        v := Bool(true);
        cur := eol + 1;
      } else if buf[cur..cur + 4] == "fals" {
        v := Bool(false);
        cur := eol + 1;
      } else {
        trouble := Error;
      }
    }

    /** The `process` functions. */
    method Process(name: string, s: Schema) returns (v: Value)
      requires Covered(s) && trouble == Fine
      modifies this
      ensures After(ReadField(name, s, buf, old(cur)), v)
      decreases s, 1
    {
      hide ReadNum, ReadFlag, Head;
      v := Num(0);
      match s {
        case Int(bytes) => v := GetNum(name, bytes);
        case Flag => v := GetFlag(name);
        case Record(fields) =>
          var eol := Begin(name);
          if trouble != Fine {
            return;
          }
          cur := eol + 1;
          if cur >= |buf| {
            trouble := Error;
            return;
          }
          var vs := ProcessAll(fields);
          v := Group(vs);
      }
    }

    method ProcessAll(ss: Fields) returns (vs: Values)
      requires CoveredAll(ss) && trouble == Fine
      modifies this
      ensures After(Read(ss, buf, old(cur)), vs)
      decreases ss
    {
      hide ReadField;
      vs := NoValue;
      if ss.Field? {
        var v := Process(ss.name, ss.schema);
        if trouble != Fine {
          return;
        }
        var rest := ProcessAll(ss.rest);
        vs := And(v, rest);
      }
    }
  }
}
