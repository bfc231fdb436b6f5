/** Keys in hexadecimal text: `KeyMarshal` and `KeyUnmarshal` of serialize/KeySerialize.cc.
    Integers of 8 bytes, whose format has another width than what it prints, are left out. */
module KeySerialize {
  import opened Util
  import opened Serialize

  // ----- hexadecimal numbers -----

  const HEX := "0123456789abcdef"

  /** `width` digits, zero padded. */
  function Hex(n: nat, width: nat): (r: string)
    ensures |r| == width
  {
    if width == 0 then "" else Hex(n / 16, width - 1) + [HEX[n % 16]]
  }

  function Power(width: nat): nat {
    if width == 0 then 1 else 16 * Power(width - 1)
  }

  function HexValue(c: char): Option<nat> {
    if '0' <= c <= '9' then Some((c - '0') as nat)
    else if 'a' <= c <= 'f' then Some(10 + (c - 'a') as nat)
    else if 'A' <= c <= 'F' then Some(10 + (c - 'A') as nat)
    else None
  }

  predicate IsSpace(c: char) { c == ' ' || '\t' <= c <= '\r' }

  function SkipSpace(s: string): string {
    if s != "" && IsSpace(s[0]) then SkipSpace(s[1..]) else s
  }

  function ReadHex(s: string, n: nat): nat {
    if s == "" || HexValue(s[0]).None? then n else ReadHex(s[1..], 16 * n + HexValue(s[0]).value)
  }

  /** `strtoul` in base 16, as a 32-bit value: anything it does not understand is 0. */
  function StrToUl(s: string): nat {
    var t := SkipSpace(s);
    var signed := t != "" && (t[0] == '-' || t[0] == '+');
    var u := if signed then t[1..] else t;
    var w := if |u| >= 3 && u[0] == '0' && (u[1] == 'x' || u[1] == 'X') && HexValue(u[2]).Some? then u[2..] else u;
    var val: int := ReadHex(w, 0);
    (if signed && t[0] == '-' then -val else val) % LEN_LIMIT
  }

  lemma HexDigit(d: nat)
    requires d < 16
    ensures HexValue(HEX[d]) == Some(d) && !IsSpace(HEX[d]) && HEX[d] != '-' && HEX[d] != '+' && HEX[d] != 'x' && HEX[d] != 'X'
  {
  }

  lemma {:induction false} ReadHexMore(s: string, c: char, n: nat)
    requires forall k :: 0 <= k < |s| ==> HexValue(s[k]).Some?
    ensures ReadHex(s + [c], n) == if HexValue(c).Some? then 16 * ReadHex(s, n) + HexValue(c).value else ReadHex(s, n)
    decreases |s|
  {
    if s == "" {
      assert s + [c] == [c] && [c][1..] == "";
    } else {
      assert (s + [c])[1..] == s[1..] + [c];
      ReadHexMore(s[1..], c, 16 * n + HexValue(s[0]).value);
    }
  }

  lemma {:induction false} HexDigits(n: nat, width: nat)
    ensures forall k :: 0 <= k < width ==>
      var c := Hex(n, width)[k]; HexValue(c).Some? && !IsSpace(c) && c != '-' && c != '+' && c != 'x' && c != 'X'
  {
    if width > 0 {
      HexDigits(n / 16, width - 1);
      HexDigit(n % 16);
    }
  }

  lemma {:induction false} ReadHexOf(n: nat, width: nat)
    requires n < Power(width)
    ensures ReadHex(Hex(n, width), 0) == n
    decreases width
  {
    if width > 0 {
      ReadHexOf(n / 16, width - 1);
      HexDigits(n / 16, width - 1);
      HexDigit(n % 16);
      ReadHexMore(Hex(n / 16, width - 1), HEX[n % 16], 0);
    }
  }

  /** A number comes back from its digits. */
  lemma HexRoundTrip(n: nat, width: nat)
    requires n < Power(width) && n < LEN_LIMIT
    ensures StrToUl(Hex(n, width)) == n
  {
    hide Hex, HexValue, ReadHex, Power;
    HexDigits(n, width);
    ReadHexOf(n, width);
    var s := Hex(n, width);
    assert SkipSpace(s) == s;
  }

  /** The value of some digits, the first one counting most. */
  function ValueOf(s: string): nat {
    if s == "" then 0 else HexValue(s[0]).GetOr(0) * Power(|s| - 1) + ValueOf(s[1..])
  }

  predicate Digits(s: string) { forall k :: 0 <= k < |s| ==> HexValue(s[k]).Some? }

  lemma {:induction false} DigitsRead(s: string, rest: string, n: nat)
    requires Digits(s) && (rest == "" || HexValue(rest[0]).None?)
    ensures ReadHex(s + rest, n) == n * Power(|s|) + ValueOf(s)
    decreases |s|
  {
    hide HexValue;
    if s == "" {
      assert s + rest == rest;
    } else {
      assert (s + rest)[1..] == s[1..] + rest;
      DigitsRead(s[1..], rest, 16 * n + HexValue(s[0]).value);
      Sixteen(n, HexValue(s[0]).value, Power(|s| - 1));
    }
  }

  lemma Sixteen(n: nat, d: nat, p: nat)
    ensures (16 * n + d) * p == n * (16 * p) + d * p
  {
  }

  lemma {:induction false} SpaceSkipped(blanks: string, t: string)
    requires (forall k :: 0 <= k < |blanks| ==> IsSpace(blanks[k])) && (t == "" || !IsSpace(t[0]))
    ensures SkipSpace(blanks + t) == t
  {
    if blanks == "" {
      assert blanks + t == t;
    } else {
      assert (blanks + t)[1..] == blanks[1..] + t;
      SpaceSkipped(blanks[1..], t);
    }
  }

  /** `strtoul` in base 16, as a 32-bit value: digits of either case, with blanks and a sign in
      front, up to anything else; no digits are 0. */
  lemma HexMeans(blanks: string, sign: string, digits: string, rest: string)
    requires (forall k :: 0 <= k < |blanks| ==> IsSpace(blanks[k])) && sign in {"", "+", "-"}
    requires Digits(digits) && (rest == "" || HexValue(rest[0]).None?)
    requires digits == "0" ==> rest == "" || (rest[0] != 'x' && rest[0] != 'X')
    requires sign == "" && digits == "" ==> rest == "" || (!IsSpace(rest[0]) && rest[0] != '-' && rest[0] != '+')
    ensures StrToUl(blanks + (sign + (digits + rest)))
         == (if sign == "-" then -(ValueOf(digits) as int) else ValueOf(digits)) % LEN_LIMIT
  {
    var u := digits + rest;
    DigitsStart(digits, rest);
    hide SkipSpace, ReadHex, ValueOf, Power, HexValue, IsSpace, Digits;
    SignStart(sign, u);
    SpaceSkipped(blanks, sign + u);
    DigitsRead(digits, rest, 0);
    NoMore(Power(|digits|), ValueOf(digits));
    UnsignedRead(blanks + (sign + u), sign, u);
  }

  lemma NoMore(p: nat, v: nat)
    ensures 0 * p + v == v
  {
  }

  lemma DigitsStart(digits: string, rest: string)
    requires Digits(digits) && (rest == "" || HexValue(rest[0]).None?)
    requires digits == "0" ==> rest == "" || (rest[0] != 'x' && rest[0] != 'X')
    ensures var u := digits + rest;
      && (digits != "" ==> u != "" && !IsSpace(u[0]) && u[0] != '-' && u[0] != '+')
      && (digits == "" ==> u == rest)
      && !(|u| >= 3 && u[0] == '0' && (u[1] == 'x' || u[1] == 'X') && HexValue(u[2]).Some?)
  {
    var u := digits + rest;
    if digits != "" {
      assert u[0] == digits[0];
      if |u| >= 2 {
        assert u[1] == if |digits| > 1 then digits[1] else rest[0];
      }
      if |digits| == 1 && digits[0] == '0' {
        assert digits == "0";
      }
    } else {
      assert u == rest;
    }
  }

  lemma SignStart(sign: string, u: string)
    requires sign in {"", "+", "-"} && (sign == "" ==> u == "" || (!IsSpace(u[0]) && u[0] != '-' && u[0] != '+'))
    ensures var t := sign + u;
      && (t == "" || !IsSpace(t[0]))
      && (t != "" && (t[0] == '-' || t[0] == '+') <==> sign != "") && (sign != "" ==> t[0] == sign[0] && t[1..] == u)
  {
  }

  lemma UnsignedRead(t: string, sign: string, u: string)
    requires SkipSpace(t) == sign + u && sign in {"", "+", "-"}
    requires var r := sign + u;
      (r != "" && (r[0] == '-' || r[0] == '+') <==> sign != "") && (sign != "" ==> r[0] == sign[0] && r[1..] == u)
    requires !(|u| >= 3 && u[0] == '0' && (u[1] == 'x' || u[1] == 'X') && HexValue(u[2]).Some?)
    ensures StrToUl(t) == (if sign == "-" then -(ReadHex(u, 0) as int) else ReadHex(u, 0)) % LEN_LIMIT
  {
    hide SkipSpace, ReadHex, HexValue;
    if sign == "" {
      assert sign + u == u;
    }
  }

  lemma Powers()
    ensures Power(2) == 0x100 && Power(4) == 0x1_0000 && Power(8) == LEN_LIMIT
    ensures Limit(1) == 0x100 && Limit(2) == 0x1_0000 && Limit(4) == LEN_LIMIT
  {
    assert Power(4) == 0x1_0000;
    assert Power(6) == 0x100_0000;
    assert Limit(2) == 0x1_0000;
  }

  // ----- keys -----

  /** The schemas that keys are made for. */
  predicate Keyed(s: Schema) {
    match s
    case Int(bytes) => bytes == 1 || bytes == 2 || bytes == 4
    case Record(fields) => KeyedAll(fields)
    case _ => true
  }

  predicate KeyedAll(ss: Fields) {
    match ss
    case NoField => true
    case Field(_, s, rest) => Keyed(s) && KeyedAll(rest)
  }

  /** The key of a field, with the border behind it; no border is "". */
  function Encode(s: Schema, v: Value, border: string): string
    requires Fits(s, v) && Keyed(s)
    decreases s
  {
    match s
    case Int(bytes) => Hex(v.n, 2 * bytes) + border
    case Flag => (if v.b then "1" else "0") + border
    case Fixed(len) => v.bytes + border
    case Buffer => Hex(|v.bytes|, 8) + v.bytes + border
    case Text => Hex(|v.bytes|, 8) + v.bytes + border
    case Record(fields) => EncodeAll(fields, v.values, border) + border
  }

  function EncodeAll(ss: Fields, vs: Values, border: string): string
    requires FitAll(ss, vs) && KeyedAll(ss)
    decreases ss
  {
    match ss
    case NoField => ""
    case Field(_, s, rest) => Encode(s, vs.value, border) + EncodeAll(rest, vs.rest, border)
  }

  /** What reading at a place comes to: a value and the place behind it, an error, or a read
      beyond the end of the buffer. */
  datatype Parsed<T> = Got(value: T, cur: nat) | Failed | Overrun

  /** Offsets are added in 32 bits. */
  function Sum32(a: nat, b: nat): nat { (a + b) % LEN_LIMIT }

  /** Takes `n` bytes, if the check lets it. */
  function Take(buf: string, cur: nat, n: nat): Parsed<string> {
    if Sum32(cur, n) > |buf| then Failed
    else if cur + n > |buf| then Overrun
    else Got(buf[cur..cur + n], Sum32(cur, n))
  }

  /** Takes `n` bytes without a check. */
  function TakeUnchecked(buf: string, cur: nat, n: nat): Parsed<string> {
    if cur + n > |buf| then Overrun else Got(buf[cur..cur + n], Sum32(cur, n))
  }

  function Border<T>(p: Parsed<T>, borderLen: nat): Parsed<T> {
    if p.Got? then p.(cur := Sum32(p.cur, borderLen)) else p
  }

  function ToValue(p: Parsed<string>, f: string -> Value): Parsed<Value> {
    match p
    case Got(t, cur) => Got(f(t), cur)
    case Failed => Failed
    case Overrun => Overrun
  }

  function Decode(s: Schema, buf: string, cur: nat, borderLen: nat): Parsed<Value>
    decreases s
  {
    match s
    case Int(bytes) => Border(ToValue(Take(buf, cur, 2 * bytes), t => Num(StrToUl(t) % Limit(bytes))), borderLen)
    case Flag => Border(ToValue(Take(buf, cur, 1), t => Bool(t == "1")), borderLen)
    case Fixed(len) => Border(ToValue(Take(buf, cur, len), t => Data(t)), borderLen)
    case Buffer =>
      var len := Take(buf, cur, 8);
      if !len.Got? then ToValue(len, t => Data(t))
      else Border(ToValue(Take(buf, len.cur, StrToUl(len.value)), t => Data(t)), borderLen)
    case Text =>
      var len := Take(buf, cur, 8);
      if !len.Got? then ToValue(len, t => Data(t))
      else Border(ToValue(TakeUnchecked(buf, len.cur, StrToUl(len.value)), t => Data(t)), borderLen)
    case Record(fields) =>
      match DecodeAll(fields, buf, cur, borderLen)
      case Got(vs, next) => Got(Group(vs), Sum32(next, borderLen))
      case Failed => Failed
      case Overrun => Overrun
  }

  function DecodeAll(ss: Fields, buf: string, cur: nat, borderLen: nat): Parsed<Values>
    decreases ss
  {
    match ss
    case NoField => Got(NoValue, cur)
    case Field(_, s, rest) =>
      match Decode(s, buf, cur, borderLen)
      case Failed => Failed
      case Overrun => Overrun
      case Got(v, next) =>
        match DecodeAll(rest, buf, next, borderLen)
        case Failed => Failed
        case Overrun => Overrun
        case Got(vs, end) => Got(And(v, vs), end)
  }

  // ----- the text of a key -----

  /** Fields one behind the other, each with the border behind it, in lower-case digits; lengths
      have eight digits. */
  lemma Example()
    ensures var ss := Field("n", Int(2), Field("b", Flag, Field("o", Record(Field("s", Text, NoField)), NoField)));
      var vs := And(Num(0x1f), And(Bool(true), And(Group(And(Data("xy"), NoValue)), NoValue)));
      && FitAll(ss, vs) && KeyedAll(ss)
      && EncodeAll(ss, vs, "|") == "001f" + "|" + ("1" + "|" + ("00000002" + "xy" + "|" + "|"))
  {
    Powers();
    HexOfTwo();
    var o, w := Field("s", Text, NoField), And(Data("xy"), NoValue);
    var s2, v2 := Field("o", Record(o), NoField), And(Group(w), NoValue);
    var s1, v1 := Field("b", Flag, s2), And(Bool(true), v2);
    hide Hex, EncodeAll, Limit;
    OneField(Field("n", Int(2), s1), And(Num(0x1f), v1), "|");
    OneField(s1, v1, "|");
    LastField(s2, v2, "|");
    LastField(o, w, "|");
  }

  lemma OneField(ss: Fields, vs: Values, border: string)
    requires ss.Field? && FitAll(ss, vs) && KeyedAll(ss)
    ensures EncodeAll(ss, vs, border) == Encode(ss.schema, vs.value, border) + EncodeAll(ss.rest, vs.rest, border)
  {
    hide Encode;
  }

  lemma LastField(ss: Fields, vs: Values, border: string)
    requires ss.Field? && ss.rest.NoField? && FitAll(ss, vs) && KeyedAll(ss)
    ensures EncodeAll(ss, vs, border) == Encode(ss.schema, vs.value, border)
  {
    hide Encode;
    assert EncodeAll(ss.rest, vs.rest, border) == "";
  }

  lemma HexOfTwo()
    ensures Hex(2, 8) == "00000002" && Hex(0x1f, 4) == "001f"
  {
    assert Hex(0, 4) == "0000" && Hex(0, 6) == "000000" && Hex(0, 7) == "0000000";
    assert Hex(1, 3) == "001" && Hex(0x1f / 16, 3) == Hex(1, 3);
  }

  // ----- what cannot be read -----

  /** How much of a field has to be there: all but its border. */
  function Needed(s: Schema, v: Value): nat
    requires Fits(s, v) && Keyed(s)
  {
    match s
    case Int(bytes) => 2 * bytes
    case Flag => 1
    case Fixed(len) => len
    case Buffer => 8 + |v.bytes|
    case Text => 8 + |v.bytes|
    case Record(_) => 0
  }

  /** A key that ends inside a field cannot be read: it is an error, or, inside a string, a read
      beyond the end. */
  lemma CutFieldFails(s: Schema, v: Value, border: string, before: string, n: nat)
    requires Fits(s, v) && Keyed(s) && !s.Record? && n < Needed(s, v)
    requires |before + Encode(s, v, border)| < LEN_LIMIT && n <= |Encode(s, v, border)|
    ensures Decode(s, before + Encode(s, v, border)[..n], |before|, |border|)
         == if s.Text? && n >= 8 then Overrun else Failed
  {
    hide Hex, StrToUl, Take, TakeUnchecked, Sum32, Power, Limit;
    var e := Encode(s, v, border);
    var buf, cur := before + e[..n], |before|;
    if (s.Buffer? || s.Text?) && n >= 8 {
      var h := Hex(|v.bytes|, 8);
      Powers();
      HexRoundTrip(|v.bytes|, 8);
      LengthFirst(before, h, v.bytes + border, n);
      assert e == h + (v.bytes + border);
      CutTake(buf, cur + 8, |v.bytes|);
    } else {
      CutTake(buf, cur, match s case Int(bytes) => 2 * bytes case Flag => 1 case Fixed(len) => len case _ => 8);
    }
  }

  lemma CutTake(buf: string, cur: nat, want: nat)
    requires cur <= |buf| < cur + want < LEN_LIMIT
    ensures Take(buf, cur, want) == Failed && TakeUnchecked(buf, cur, want) == Overrun
  {
  }

  lemma LengthFirst(before: string, h: string, rest: string, n: nat)
    requires |h| == 8 <= n <= |h + rest| && |before| + 8 < LEN_LIMIT
    ensures Take(before + (h + rest)[..n], |before|, 8) == Got(h, |before| + 8)
  {
    assert (before + (h + rest)[..n])[|before|..|before| + 8] == h;
  }

  /** Only '1' is true. */
  lemma FlagRead(c: char, before: string, after: string, border: nat)
    requires |before| + 1 < LEN_LIMIT
    ensures Decode(Flag, before + [c] + after, |before|, border)
         == Got(Bool(c == '1'), Sum32(|before| + 1, border))
  {
    assert (before + [c] + after)[|before|..|before| + 1] == [c];
  }

  // ----- round trip -----

  lemma TakeAt(before: string, t: string, after: string)
    requires |before + t + after| < LEN_LIMIT
    ensures Take(before + t + after, |before|, |t|) == Got(t, |before| + |t|)
    ensures TakeUnchecked(before + t + after, |before|, |t|) == Got(t, |before| + |t|)
  {
    assert (before + t + after)[|before|..|before| + |t|] == t;
  }

  /** A key is read back wherever it stands, and reading ends right behind it. */
  lemma {:induction false} RoundTrip(s: Schema, v: Value, border: string, before: string, after: string)
    requires Fits(s, v) && Keyed(s) && |before + Encode(s, v, border) + after| < LEN_LIMIT
    ensures Decode(s, before + Encode(s, v, border) + after, |before|, |border|)
            == Got(v, |before| + |Encode(s, v, border)|)
    decreases s
  {
    hide Take, TakeUnchecked, Hex, StrToUl, Limit, Sum32;
    match s {
      case Int(bytes) =>
        IntRoundTrip(v.n, bytes);
        TakeField(before, Hex(v.n, 2 * bytes), border, after);
      case Flag => TakeField(before, if v.b then "1" else "0", border, after);
      case Fixed(len) => TakeField(before, v.bytes, border, after);
      case Buffer => LongRoundTrip(v.bytes, border, before, after);
      case Text => LongRoundTrip(v.bytes, border, before, after);
      case Record(fields) =>
        var e := EncodeAll(fields, v.values, border);
        TakeField(before, e, border, after);
        Split3(before, e, border, after);
        RoundTripAll(fields, v.values, border, before, border + after);
    }
  }

  /** A field and its border. */
  lemma TakeField(before: string, t: string, border: string, after: string)
    requires |before + (t + border) + after| < LEN_LIMIT
    ensures Take(before + (t + border) + after, |before|, |t|) == Got(t, |before| + |t|)
    ensures Sum32(|before| + |t|, |border|) == |before| + |t + border|
  {
    hide Take, Sum32;
    Split3(before, t, border, after);
    TakeAt(before, t, border + after);
    SmallSum(|before| + |t|, |border|);
  }

  lemma IntRoundTrip(n: nat, bytes: nat)
    requires (bytes == 1 || bytes == 2 || bytes == 4) && n < Limit(bytes)
    ensures StrToUl(Hex(n, 2 * bytes)) % Limit(bytes) == n
  {
    hide StrToUl, Hex;
    Powers();
    HexRoundTrip(n, 2 * bytes);
  }

  lemma Split3(before: string, t: string, border: string, after: string)
    ensures before + (t + border) + after == before + t + (border + after)
  {
  }

  lemma LongRoundTrip(b: string, border: string, before: string, after: string)
    requires |b| < LEN_LIMIT && |before + (Hex(|b|, 8) + b + border) + after| < LEN_LIMIT
    ensures var buf := before + (Hex(|b|, 8) + b + border) + after;
      && Take(buf, |before|, 8) == Got(Hex(|b|, 8), |before| + 8) && StrToUl(Hex(|b|, 8)) == |b|
      && Take(buf, |before| + 8, |b|) == Got(b, |before| + 8 + |b|)
      && TakeUnchecked(buf, |before| + 8, |b|) == Got(b, |before| + 8 + |b|)
      && Sum32(|before| + 8 + |b|, |border|) == |before| + |Hex(|b|, 8) + b + border|
  {
    hide Take, TakeUnchecked, StrToUl, Power, Limit, Hex, Sum32;
    Powers();
    HexRoundTrip(|b|, 8);
    var h := Hex(|b|, 8);
    Split4(before, h, b, border, after);
    TakeAt(before, h, b + border + after);
    TakeAt(before + h, b, border + after);
    SmallSum(|before| + 8 + |b|, |border|);
  }

  lemma SmallSum(a: nat, b: nat)
    requires a + b < LEN_LIMIT
    ensures Sum32(a, b) == a + b
  {
  }

  lemma Split4(before: string, h: string, b: string, border: string, after: string)
    ensures before + (h + b + border) + after == before + h + (b + border + after)
    ensures before + (h + b + border) + after == before + h + b + (border + after)
  {
  }

  lemma {:induction false} RoundTripAll(ss: Fields, vs: Values, border: string, before: string, after: string)
    requires FitAll(ss, vs) && KeyedAll(ss) && |before + EncodeAll(ss, vs, border) + after| < LEN_LIMIT
    ensures DecodeAll(ss, before + EncodeAll(ss, vs, border) + after, |before|, |border|)
            == Got(vs, |before| + |EncodeAll(ss, vs, border)|)
    decreases ss
  {
    hide Encode, Decode, EncodeAll, DecodeAll;
    if ss.Field? {
      var e, rest := Encode(ss.schema, vs.value, border), EncodeAll(ss.rest, vs.rest, border);
      EncodeField(ss, vs, border);
      Regroup(before, e, rest, after);
      RoundTrip(ss.schema, vs.value, border, before, rest + after);
      RoundTripAll(ss.rest, vs.rest, border, before + e, after);
      DecodeField(ss, vs, before + (e + rest) + after, |before|, |before| + |e|, |before| + |e + rest|, |border|);
    } else {
      EncodeNothing(ss, vs, before + EncodeAll(ss, vs, border) + after, |before|, border);
    }
  }

  lemma EncodeField(ss: Fields, vs: Values, border: string)
    requires ss.Field? && FitAll(ss, vs) && KeyedAll(ss)
    ensures EncodeAll(ss, vs, border) == Encode(ss.schema, vs.value, border) + EncodeAll(ss.rest, vs.rest, border)
  {
    hide Encode;
  }

  lemma DecodeField(ss: Fields, vs: Values, buf: string, cur: nat, mid: nat, end: nat, border: nat)
    requires ss.Field? && FitAll(ss, vs) && KeyedAll(ss)
    requires Decode(ss.schema, buf, cur, border) == Got(vs.value, mid)
    requires DecodeAll(ss.rest, buf, mid, border) == Got(vs.rest, end)
    ensures DecodeAll(ss, buf, cur, border) == Got(vs, end)
  {
    hide Decode;
  }

  lemma EncodeNothing(ss: Fields, vs: Values, buf: string, cur: nat, border: string)
    requires ss.NoField? && FitAll(ss, vs)
    ensures EncodeAll(ss, vs, border) == "" && DecodeAll(ss, buf, cur, |border|) == Got(vs, cur)
  {
  }

  lemma Regroup(before: string, e: string, rest: string, after: string)
    ensures before + (e + rest) + after == before + e + (rest + after)
    ensures before + (e + rest) + after == before + e + rest + after
  {
  }

  /** Keys of one schema are prefix free. */
  lemma PrefixFree(ss: Fields, vs: Values, ws: Values, border: string, x: string, y: string)
    requires FitAll(ss, vs) && FitAll(ss, ws) && KeyedAll(ss)
    requires EncodeAll(ss, vs, border) + x == EncodeAll(ss, ws, border) + y
    requires |EncodeAll(ss, vs, border) + x| < LEN_LIMIT
    ensures vs == ws && x == y
  {
    hide EncodeAll, DecodeAll;
    var a, b := EncodeAll(ss, vs, border), EncodeAll(ss, ws, border);
    assert "" + a + x == a + x && "" + b + y == b + y;
    RoundTripAll(ss, vs, border, "", x);
    RoundTripAll(ss, ws, border, "", y);
    assert (a + x)[|a|..] == x && (b + y)[|b|..] == y;
  }

  // ----- order -----

  /** Byte order. */
  function Compare(a: string, b: string): int {
    if a == "" then (if b == "" then 0 else -1)
    else if b == "" then 1
    else if a[0] < b[0] then -1
    else if a[0] > b[0] then 1
    else Compare(a[1..], b[1..])
  }

  function CompareNumbers(m: nat, n: nat): int { if m < n then -1 else if m > n then 1 else 0 }

  function Then(c: int, d: int): int { if c != 0 then c else d }

  lemma {:induction false} CompareJoin(a: string, b: string, x: string, y: string)
    requires |a| == |b|
    ensures Compare(a + x, b + y) == Then(Compare(a, b), Compare(x, y))
    decreases |a|
  {
    if a == "" {
      assert a + x == x && b + y == y;
    } else {
      assert (a + x)[1..] == a[1..] + x && (b + y)[1..] == b[1..] + y;
      CompareJoin(a[1..], b[1..], x, y);
    }
  }

  lemma {:induction false} CompareSelf(a: string)
    ensures Compare(a, a) == 0
  {
    if a != "" {
      CompareSelf(a[1..]);
    }
  }

  lemma {:induction false} CompareHex(m: nat, n: nat, width: nat)
    requires m < Power(width) && n < Power(width)
    ensures Compare(Hex(m, width), Hex(n, width)) == CompareNumbers(m, n)
    decreases width
  {
    if width > 0 {
      CompareHex(m / 16, n / 16, width - 1);
      CompareJoin(Hex(m / 16, width - 1), Hex(n / 16, width - 1), [HEX[m % 16]], [HEX[n % 16]]);
      DigitOrder(m % 16, n % 16);
      assert m == m / 16 * 16 + m % 16 && n == n / 16 * 16 + n % 16;
    }
  }

  lemma DigitOrder(d: nat, e: nat)
    requires d < 16 && e < 16
    ensures Compare([HEX[d]], [HEX[e]]) == CompareNumbers(d, e)
  {
    assert [HEX[d]][1..] == "" && [HEX[e]][1..] == "";
  }

  predicate FixedWidth(s: Schema) {
    match s
    case Buffer => false
    case Text => false
    case Record(fields) => FixedWidthAll(fields)
    case _ => true
  }

  predicate FixedWidthAll(ss: Fields) {
    match ss
    case NoField => true
    case Field(_, s, rest) => FixedWidth(s) && FixedWidthAll(rest)
  }

  /** Field by field: numbers by value, bytes in byte order. */
  function CompareValues(s: Schema, v: Value, w: Value): int
    requires Fits(s, v) && Fits(s, w)
    decreases s
  {
    match s
    case Int(_) => CompareNumbers(v.n, w.n)
    case Flag => if v.b == w.b then 0 else if w.b then -1 else 1
    case Record(fields) => CompareAll(fields, v.values, w.values)
    case _ => Compare(v.bytes, w.bytes)
  }

  function CompareAll(ss: Fields, vs: Values, ws: Values): int
    requires FitAll(ss, vs) && FitAll(ss, ws)
    decreases ss
  {
    match ss
    case NoField => 0
    case Field(_, s, rest) => Then(CompareValues(s, vs.value, ws.value), CompareAll(rest, vs.rest, ws.rest))
  }

  lemma {:induction false} OrderPreserved(s: Schema, v: Value, w: Value, border: string)
    requires Fits(s, v) && Fits(s, w) && Keyed(s) && FixedWidth(s)
    ensures |Encode(s, v, border)| == |Encode(s, w, border)|
    ensures Compare(Encode(s, v, border), Encode(s, w, border)) == CompareValues(s, v, w)
    decreases s
  {
    hide Hex, Power, Limit, Compare;
    Powers();
    CompareSelf(border);
    match s {
      case Int(bytes) =>
        CompareHex(v.n, w.n, 2 * bytes);
        CompareJoin(Hex(v.n, 2 * bytes), Hex(w.n, 2 * bytes), border, border);
      case Flag =>
        FlagOrder();
        CompareJoin(if v.b then "1" else "0", if w.b then "1" else "0", border, border);
      case Fixed(_) => CompareJoin(v.bytes, w.bytes, border, border);
      case Record(fields) =>
        OrderPreservedAll(fields, v.values, w.values, border);
        CompareJoin(EncodeAll(fields, v.values, border), EncodeAll(fields, w.values, border), border, border);
    }
  }

  lemma FlagOrder()
    ensures Compare("0", "1") == -1 && Compare("1", "0") == 1 && Compare("0", "0") == 0 && Compare("1", "1") == 0
  {
    CompareSelf("0");
    CompareSelf("1");
  }

  /** Keys of fixed width sort like the tuples they stand for. */
  lemma {:induction false} OrderPreservedAll(ss: Fields, vs: Values, ws: Values, border: string)
    requires FitAll(ss, vs) && FitAll(ss, ws) && KeyedAll(ss) && FixedWidthAll(ss)
    ensures |EncodeAll(ss, vs, border)| == |EncodeAll(ss, ws, border)|
    ensures Compare(EncodeAll(ss, vs, border), EncodeAll(ss, ws, border)) == CompareAll(ss, vs, ws)
    decreases ss
  {
    if ss.Field? {
      hide Encode, Compare, CompareValues;
      OrderPreserved(ss.schema, vs.value, ws.value, border);
      OrderPreservedAll(ss.rest, vs.rest, ws.rest, border);
      CompareJoin(Encode(ss.schema, vs.value, border), Encode(ss.schema, ws.value, border),
                  EncodeAll(ss.rest, vs.rest, border), EncodeAll(ss.rest, ws.rest, border));
    }
  }

  // ----- the serializers -----

  lemma Join(a: string, b: string, c: string)
    ensures a + b + c == a + (b + c)
  {
  }

  class KeyMarshal {
    /** The contents of the expandable buffer. */
    var buf: string
    const border: string

    constructor (border: string)
      ensures this.border == border && buf == ""
    {
      this.border := border;
      buf := "";
    }

    method Append(text: string)
      modifies this
      ensures buf == old(buf) + text
    {
      buf := buf + text;
    }

    /** The `process` functions. */
    method Process(s: Schema, v: Value)
      requires Fits(s, v) && Keyed(s)
      modifies this
      ensures buf == old(buf) + Encode(s, v, border)
      decreases s
    {
      hide Hex;
      ghost var was := buf;
      ghost var text := "";
      match s {
        case Int(bytes) =>
          text := Hex(v.n, 2 * bytes);
          Append(Hex(v.n, 2 * bytes));
        case Flag =>
          text := if v.b then "1" else "0";
          Append(if v.b then "1" else "0");
        case Fixed(_) =>
          text := v.bytes;
          Append(v.bytes);
        case Buffer =>
          text := Hex(|v.bytes|, 8) + v.bytes;
          AppendLong(v.bytes);
        case Text =>
          text := Hex(|v.bytes|, 8) + v.bytes;
          AppendLong(v.bytes);
        case Record(fields) =>
          text := EncodeAll(fields, v.values, border);
          ProcessAll(fields, v.values);
      }
      Append(border);
      assert Encode(s, v, border) == text + border;
      Join(was, text, border);
    }

    /** A length and as many bytes. */
    method AppendLong(b: string)
      modifies this
      ensures buf == old(buf) + (Hex(|b|, 8) + b)
    {
      hide Hex;
      Join(buf, Hex(|b|, 8), b);
      Append(Hex(|b|, 8));
      Append(b);
    }

    /** An object's fields: `action`. */
    method ProcessAll(ss: Fields, vs: Values)
      requires FitAll(ss, vs) && KeyedAll(ss)
      modifies this
      ensures buf == old(buf) + EncodeAll(ss, vs, border)
      decreases ss
    {
      if ss.Field? {
        hide Encode;
        Join(buf, Encode(ss.schema, vs.value, border), EncodeAll(ss.rest, vs.rest, border));
        Process(ss.schema, vs.value);
        ProcessAll(ss.rest, vs.rest);
      }
    }
  }

  class KeyUnmarshal {
    const buf: string
    const borderLen: nat
    var cur: nat
    var error: bool
    /** Set where the code would read beyond the buffer. */
    var overrun: bool

    constructor (buf: string, border: string)
      ensures this.buf == buf && borderLen == |border| && cur == 0 && !error && !overrun
    {
      this.buf, borderLen := buf, |border|;
      cur, error, overrun := 0, false, false;
    }

    /** Nothing has gone wrong. */
    ghost predicate Fine()
      reads this
    {
      !error && !overrun
    }

    /** Whether the state is what reading came to. */
    ghost predicate After<T>(p: Parsed<T>, v: T)
      reads this
    {
      match p
      case Got(w, next) => Fine() && v == w && cur == next
      case Failed => error
      case Overrun => overrun
    }

    /** Copies `n` bytes out, after the check against the length or without it. */
    method Copy(n: nat, checked: bool) returns (text: string)
      requires Fine()
      modifies this
      ensures After(if checked then Take(buf, old(cur), n) else TakeUnchecked(buf, old(cur), n), text)
    {
      text := "";
      if checked && Sum32(cur, n) > |buf| {
        error := true;
        return;
      }
      if cur + n > |buf| {
        overrun := true;
        return;
      }
      text := buf[cur..cur + n];
      cur := Sum32(cur, n);
    }

    /** The `process` functions. */
    method Process(s: Schema) returns (v: Value)
      requires Fine()
      modifies this
      ensures After(Decode(s, buf, old(cur), borderLen), v)
      decreases s
    {
      hide Take, TakeUnchecked, StrToUl, Limit, Sum32;
      v := Num(0);
      match s {
        case Int(bytes) =>
          var text := Copy(2 * bytes, true);
          v := Num(StrToUl(text) % Limit(bytes));
        case Flag =>
          var text := Copy(1, true);
          v := Bool(text == "1");
        case Fixed(len) =>
          var text := Copy(len, true);
          v := Data(text);
        case Buffer =>
          var len := Copy(8, true);
          if error || overrun {
            return;
          }
          var text := Copy(StrToUl(len), true);
          v := Data(text);
        case Text =>
          var len := Copy(8, true);
          if error || overrun {
            return;
          }
          var text := Copy(StrToUl(len), false);
          v := Data(text);
        case Record(fields) =>
          var vs := ProcessAll(fields);
          v := Group(vs);
      }
      if !error && !overrun {
        cur := Sum32(cur, borderLen);
      }
    }

    method ProcessAll(ss: Fields) returns (vs: Values)
      requires Fine()
      modifies this
      ensures After(DecodeAll(ss, buf, old(cur), borderLen), vs)
      decreases ss
    {
      hide Decode;
      vs := NoValue;
      if ss.Field? {
        var v := Process(ss.schema);
        if error || overrun {
          return;
        }
        var rest := ProcessAll(ss.rest);
        vs := And(v, rest);
      }
    }
  }
}
