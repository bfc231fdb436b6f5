/** The binary serializers: `Marshal`, `Unmarshal` and `MarshalSize` of
    serialize/MarshalSerialize.cc over the cursor of BufferedSerializeAction.cc, and
    `StreamSerialize` and `StreamUnserialize` of serialize/StreamSerialize.cc. */
module MarshalSerialize {
  import opened Util
  import opened Serialize

  // ----- big-endian numbers -----

  function ToBytes(n: nat, k: nat): (b: string)
    ensures |b| == k
  {
    if k == 0 then "" else ToBytes(n / 0x100, k - 1) + [(n % 0x100) as char]
  }

  function FromBytes(b: string): nat {
    if b == "" then 0 else 0x100 * FromBytes(b[..|b| - 1]) + (b[|b| - 1] as nat) % 0x100
  }

  lemma {:induction false} BytesRoundTrip(n: nat, k: nat)
    requires n < Limit(k)
    ensures FromBytes(ToBytes(n, k)) == n
  {
    if k > 0 {
      var b := ToBytes(n, k);
      assert n / 0x100 < Limit(k - 1);
      BytesRoundTrip(n / 0x100, k - 1);
      assert b[..k - 1] == ToBytes(n / 0x100, k - 1);
    }
  }

  /** The first byte counts most. */
  lemma {:induction false} ByteAt(n: nat, k: nat, i: nat)
    requires i < k
    ensures ToBytes(n, k)[i] as nat == n / Limit(k - 1 - i) % 0x100
    decreases k
  {
    if i < k - 1 {
      ByteAt(n / 0x100, k - 1, i);
      DivideTwice(n, Limit(k - 2 - i));
    }
  }

  lemma DivideTwice(n: nat, m: nat)
    requires m > 0
    ensures n / 0x100 / m == n / (0x100 * m)
  {
    var q, r := n / 0x100 / m, n / 0x100 % m;
    var s := n % 0x100;
    assert n / 0x100 == q * m + r;
    assert n == 0x100 * (q * m + r) + s;
    Unnested(q, m, r, s);
    Quotient(n, 0x100 * m, q, 0x100 * r + s);
  }

  lemma Unnested(q: nat, m: nat, r: nat, s: nat)
    ensures 0x100 * (q * m + r) + s == q * (0x100 * m) + (0x100 * r + s)
  {
  }

  lemma Quotient(n: nat, d: nat, q: nat, r: nat)
    requires d > 0 && n == q * d + r && r < d
    ensures n / d == q
  {
    assert n == (n / d) * d + n % d;
    Between(n / d - q, d, r - n % d);
  }

  lemma Between(e: int, d: int, x: int)
    requires d > 0 && e * d == x && -d < x < d
    ensures e == 0
  {
    if e >= 1 { Monotone(1, e, d); }
    if e <= -1 { Monotone(e, -1, d); }
  }

  lemma Monotone(a: int, b: int, d: int)
    requires a <= b && d >= 0
    ensures a * d <= b * d
  {
  }

  lemma LimitFour()
    ensures Limit(4) == LEN_LIMIT
  {
    assert Limit(2) == 0x1_0000;
  }

  // ----- what is written -----

  /** The slices that a field is written in, one for each call of `next_slice`. */
  function Slices(s: Schema, v: Value): (r: seq<string>)
    requires Fits(s, v)
    decreases s
  {
    match s
    case Int(bytes) => [ToBytes(v.n, bytes)]
    case Flag => [if v.b then "\U{01}" else "\0"]
    case Fixed(len) => [v.bytes]
    case Buffer => [ToBytes(|v.bytes|, 4), v.bytes]
    case Text => [ToBytes(|v.bytes|, 4), v.bytes]
    case Record(fields) => AllSlices(fields, v.values)
  }

  function AllSlices(ss: Fields, vs: Values): (r: seq<string>)
    requires FitAll(ss, vs)
    decreases ss
  {
    match ss
    case NoField => []
    case Field(_, s, rest) => Slices(s, vs.value) + AllSlices(rest, vs.rest)
  }

  function Encode(s: Schema, v: Value): string
    requires Fits(s, v)
  {
    Concat(Slices(s, v))
  }

  function EncodeAll(ss: Fields, vs: Values): string
    requires FitAll(ss, vs)
  {
    Concat(AllSlices(ss, vs))
  }

  lemma {:induction false} ConcatJoin(a: seq<string>, b: seq<string>)
    ensures Concat(a + b) == Concat(a) + Concat(b)
  {
    if a == [] {
      assert a + b == b && Concat(b) == "" + Concat(b);
    } else {
      assert (a + b)[1..] == a[1..] + b;
      ConcatJoin(a[1..], b);
      assert a[0] + (Concat(a[1..]) + Concat(b)) == a[0] + Concat(a[1..]) + Concat(b);
    }
  }

  lemma EncodeFields(ss: Fields, vs: Values)
    requires FitAll(ss, vs)
    ensures ss.NoField? ==> EncodeAll(ss, vs) == ""
    ensures ss.Field? ==> EncodeAll(ss, vs) == Encode(ss.schema, vs.value) + EncodeAll(ss.rest, vs.rest)
  {
    if ss.Field? {
      ConcatJoin(Slices(ss.schema, vs.value), AllSlices(ss.rest, vs.rest));
    }
  }

  /** What a single field other than a record comes to. */
  lemma EncodeIs(s: Schema, v: Value)
    requires Fits(s, v)
    ensures match s
      case Int(bytes) => Encode(s, v) == ToBytes(v.n, bytes)
      case Flag => Encode(s, v) == if v.b then "\U{01}" else "\0"
      case Fixed(len) => Encode(s, v) == v.bytes
      case Buffer => Encode(s, v) == ToBytes(|v.bytes|, 4) + v.bytes
      case Text => Encode(s, v) == ToBytes(|v.bytes|, 4) + v.bytes
      case Record(fields) => Encode(s, v) == EncodeAll(fields, v.values)
  {
    match s {
      case Record(_) =>
      case Buffer => TwoSlices(ToBytes(|v.bytes|, 4), v.bytes);
      case Text => TwoSlices(ToBytes(|v.bytes|, 4), v.bytes);
      case _ => OneSlice(Slices(s, v)[0]);
    }
  }

  lemma OneSlice(a: string)
    ensures Concat([a]) == a
  {
    assert [a][1..] == [] && a + "" == a;
  }

  lemma TwoSlices(a: string, b: string)
    ensures Concat([a, b]) == a + b
  {
    assert [a, b][1..] == [b];
    OneSlice(b);
  }

  /** An object as it lies in the buffer: its fields one behind the other, numbers with the first
      byte counting most, booleans as 1 and 0, lengths in four bytes. */
  lemma Example()
    ensures var ss := Field("n", Int(4), Field("b", Flag, Field("o", Record(Field("s", Text, NoField)), NoField)));
      var vs := And(Num(0x0102_0304), And(Bool(true), And(Group(And(Data("hi"), NoValue)), NoValue)));
      && FitAll(ss, vs)
      && EncodeAll(ss, vs) == "\U{01}\U{02}\U{03}\U{04}" + "\U{01}" + "\0\0\0\U{02}hi"
  {
    var o, w := Field("s", Text, NoField), And(Data("hi"), NoValue);
    var s2, v2 := Field("o", Record(o), NoField), And(Group(w), NoValue);
    LimitFour();
    FourBytes(0x0102_0304, 1, 2, 3, 4);
    FourBytes(2, 0, 0, 0, 2);
    hide ToBytes, Encode, EncodeAll, Limit, Slices, AllSlices, Concat;
    ExampleText(o, w);
    ExampleObject(o, w, s2, v2);
    var s1, v1 := Field("b", Flag, s2), And(Bool(true), v2);
    EncodeFields(s1, v1);
    EncodeIs(Flag, Bool(true));
    EncodeFields(Field("n", Int(4), s1), And(Num(0x0102_0304), v1));
    EncodeIs(Int(4), Num(0x0102_0304));
  }

  lemma ExampleText(o: Fields, w: Values)
    requires o == Field("s", Text, NoField) && w == And(Data("hi"), NoValue)
    ensures FitAll(o, w) && EncodeAll(o, w) == "\0\0\0\U{02}hi"
  {
    FourBytes(2, 0, 0, 0, 2);
    hide ToBytes, Encode, EncodeAll, Limit, Slices, AllSlices, Concat;
    EncodeFields(o, w);
    EncodeFields(NoField, NoValue);
    EncodeIs(Text, Data("hi"));
  }

  lemma ExampleObject(o: Fields, w: Values, s: Fields, v: Values)
    requires FitAll(o, w) && s == Field("o", Record(o), NoField) && v == And(Group(w), NoValue)
    ensures FitAll(s, v) && EncodeAll(s, v) == EncodeAll(o, w)
  {
    hide ToBytes, Encode, EncodeAll, Limit, Slices, AllSlices, Concat;
    EncodeFields(s, v);
    EncodeFields(NoField, NoValue);
    EncodeIs(Record(o), Group(w));
  }

  lemma FourBytes(n: nat, a: nat, b: nat, c: nat, d: nat)
    requires n == a * 0x100_0000 + b * 0x1_0000 + c * 0x100 + d && a < 0x100 && b < 0x100 && c < 0x100 && d < 0x100
    ensures ToBytes(n, 4) == [a as char, b as char, c as char, d as char]
  {
    assert n % 0x100 == d && n / 0x100 == a * 0x1_0000 + b * 0x100 + c;
    assert n / 0x100 % 0x100 == c && n / 0x100 / 0x100 == a * 0x100 + b;
    assert n / 0x100 / 0x100 % 0x100 == b && n / 0x100 / 0x100 / 0x100 == a;
    assert ToBytes(a, 1) == ToBytes(a / 0x100, 0) + [a as char];
    assert ToBytes(n / 0x100 / 0x100, 2) == ToBytes(a, 1) + [b as char];
    assert ToBytes(n / 0x100, 3) == ToBytes(n / 0x100 / 0x100, 2) + [c as char];
  }

  // ----- the measured size -----

  /** `MarshalSize`: the size of a string is computed in 32 bits. */
  function Size(s: Schema, v: Value): nat
    requires Fits(s, v)
    decreases s
  {
    match s
    case Int(bytes) => bytes
    case Flag => 1
    case Fixed(len) => len
    case Buffer => 4 + |v.bytes|
    case Text => (|v.bytes| + 4) % LEN_LIMIT
    case Record(fields) => SizeAll(fields, v.values)
  }

  function SizeAll(ss: Fields, vs: Values): nat
    requires FitAll(ss, vs)
    decreases ss
  {
    match ss
    case NoField => 0
    case Field(_, s, rest) => Size(s, vs.value) + SizeAll(rest, vs.rest)
  }

  /** No string is so long that its size does not fit 32 bits. */
  predicate Short(s: Schema, v: Value)
    requires Fits(s, v)
    decreases s
  {
    match s
    case Text => |v.bytes| + 4 < LEN_LIMIT
    case Record(fields) => ShortAll(fields, v.values)
    case _ => true
  }

  predicate ShortAll(ss: Fields, vs: Values)
    requires FitAll(ss, vs)
    decreases ss
  {
    match ss
    case NoField => true
    case Field(_, s, rest) => Short(s, vs.value) && ShortAll(rest, vs.rest)
  }

  /** The measured size is the number of bytes written, unless a string is too long; then it is
      too small. */
  lemma {:induction false} SizeIsLength(s: Schema, v: Value)
    requires Fits(s, v)
    ensures Size(s, v) <= |Encode(s, v)|
    ensures Size(s, v) == |Encode(s, v)| <==> Short(s, v)
    decreases s
  {
    EncodeIs(s, v);
    if s.Record? {
      SizeIsLengthAll(s.fields, v.values);
    }
  }

  lemma {:induction false} SizeIsLengthAll(ss: Fields, vs: Values)
    requires FitAll(ss, vs)
    ensures SizeAll(ss, vs) <= |EncodeAll(ss, vs)|
    ensures SizeAll(ss, vs) == |EncodeAll(ss, vs)| <==> ShortAll(ss, vs)
    decreases ss
  {
    EncodeFields(ss, vs);
    if ss.Field? {
      SizeIsLength(ss.schema, vs.value);
      SizeIsLengthAll(ss.rest, vs.rest);
    }
  }

  // ----- reading back -----

  /** Takes `n` bytes off the input. */
  function Take(input: string, n: nat): Option<(string, string)> {
    if n <= |input| then Some((input[..n], input[n..])) else None
  }

  /** The value at the beginning of the input, and the rest; None if the input is too short. */
  function Decode(s: Schema, input: string): Option<(Value, string)>
    decreases s
  {
    match s
    case Int(bytes) =>
      var t := Take(input, bytes);
      if t.None? then None else Some((Num(FromBytes(t.value.0)), t.value.1))
    case Flag =>
      var t := Take(input, 1);
      if t.None? then None else Some((Bool(t.value.0[0] != '\0'), t.value.1))
    case Fixed(len) =>
      var t := Take(input, len);
      if t.None? then None else Some((Data(t.value.0), t.value.1))
    case Buffer => DecodeLong(input)
    case Text => DecodeLong(input)
    case Record(fields) =>
      var r := DecodeAll(fields, input);
      if r.None? then None else Some((Group(r.value.0), r.value.1))
  }

  /** A length and as many bytes. */
  function DecodeLong(input: string): Option<(Value, string)> {
    var t := Take(input, 4);
    if t.None? then None
    else
      var u := Take(t.value.1, FromBytes(t.value.0));
      if u.None? then None else Some((Data(u.value.0), u.value.1))
  }

  function DecodeAll(ss: Fields, input: string): Option<(Values, string)>
    decreases ss
  {
    match ss
    case NoField => Some((NoValue, input))
    case Field(_, s, rest) =>
      var r := Decode(s, input);
      if r.None? then None
      else
        var q := DecodeAll(rest, r.value.1);
        if q.None? then None else Some((And(r.value.0, q.value.0), q.value.1))
  }

  /** Any four bytes are a length, and any byte but 0 is true. */
  lemma AnyInputRead(a: char, b: char, c: char, d: char, input: string)
    requires a < 256 as char && b < 256 as char && c < 256 as char && d < 256 as char
    ensures Decode(Int(4), [a, b, c, d] + input)
         == Some((Num(a as nat * 0x100_0000 + b as nat * 0x1_0000 + c as nat * 0x100 + d as nat), input))
    ensures Decode(Flag, [a] + input) == Some((Bool(a != '\0'), input))
  {
    var t := [a, b, c, d];
    assert (t + input)[..4] == t && (t + input)[4..] == input && ([a] + input)[..1] == [a] && ([a] + input)[1..] == input;
    assert t[..3] == [a, b, c] && t[..3][..2] == [a, b] && t[..3][..2][..1] == [a] && t[..3][..2][..1][..0] == "";
    assert FromBytes([a]) == a as nat;
    assert FromBytes([a, b]) == 0x100 * FromBytes([a]) + b as nat;
    assert FromBytes([a, b, c]) == 0x100 * FromBytes([a, b]) + c as nat;
  }

  /** Input that is too short for a field is an error. */
  lemma ShortInput(s: Schema, input: string)
    requires s.Int? || s.Flag? || s.Fixed?
    ensures Decode(s, input).None? <==> |input| < (if s.Int? then s.bytes else if s.Flag? then 1 else s.len)
  {
  }

  lemma TakeOff(a: string, b: string)
    ensures Take(a + b, |a|) == Some((a, b))
  {
  }

  /** Reading undoes writing, whatever follows. */
  lemma {:induction false} RoundTrip(s: Schema, v: Value, rest: string)
    requires Fits(s, v)
    ensures Decode(s, Encode(s, v) + rest) == Some((v, rest))
    decreases s
  {
    hide Take, FromBytes, ToBytes, Limit;
    EncodeIs(s, v);
    match s {
      case Int(bytes) =>
        BytesRoundTrip(v.n, bytes);
        TakeOff(ToBytes(v.n, bytes), rest);
      case Flag => TakeOff(if v.b then "\U{01}" else "\0", rest);
      case Fixed(len) => TakeOff(v.bytes, rest);
      case Buffer => LongRoundTrip(v.bytes, rest);
      case Text => LongRoundTrip(v.bytes, rest);
      case Record(fields) => RoundTripAll(fields, v.values, rest);
    }
  }

  lemma LongRoundTrip(b: string, rest: string)
    requires |b| < LEN_LIMIT
    ensures DecodeLong(ToBytes(|b|, 4) + b + rest) == Some((Data(b), rest))
  {
    hide Take, FromBytes, ToBytes, Limit;
    LimitFour();
    BytesRoundTrip(|b|, 4);
    assert ToBytes(|b|, 4) + b + rest == ToBytes(|b|, 4) + (b + rest);
    TakeOff(ToBytes(|b|, 4), b + rest);
    TakeOff(b, rest);
  }

  lemma {:induction false} RoundTripAll(ss: Fields, vs: Values, rest: string)
    requires FitAll(ss, vs)
    ensures DecodeAll(ss, EncodeAll(ss, vs) + rest) == Some((vs, rest))
    decreases ss
  {
    hide Take, FromBytes, ToBytes, Encode, EncodeAll;
    EncodeFields(ss, vs);
    if ss.NoField? {
      assert "" + rest == rest;
    } else {
      var a, b := Encode(ss.schema, vs.value), EncodeAll(ss.rest, vs.rest);
      assert a + b + rest == a + (b + rest);
      RoundTrip(ss.schema, vs.value, b + rest);
      RoundTripAll(ss.rest, vs.rest, rest);
    }
  }

  /** More input does not change what is read. */
  lemma {:induction false} DecodeMore(s: Schema, input: string, more: string)
    ensures Decode(s, input).Some? ==>
      Decode(s, input + more) == Some((Decode(s, input).value.0, Decode(s, input).value.1 + more))
    decreases s
  {
    hide FromBytes;
    match s {
      case Record(fields) => DecodeMoreAll(fields, input, more);
      case Int(bytes) => TakeMore(input, bytes, more);
      case Flag => TakeMore(input, 1, more);
      case Fixed(len) => TakeMore(input, len, more);
      case _ => LongMore(input, more);
    }
  }

  lemma TakeMore(input: string, n: nat, more: string)
    ensures Take(input, n).Some? ==>
      Take(input + more, n) == Some((Take(input, n).value.0, Take(input, n).value.1 + more))
  {
    if n <= |input| {
      assert (input + more)[..n] == input[..n] && (input + more)[n..] == input[n..] + more;
    }
  }

  lemma LongMore(input: string, more: string)
    ensures DecodeLong(input).Some? ==>
      DecodeLong(input + more) == Some((DecodeLong(input).value.0, DecodeLong(input).value.1 + more))
  {
    hide Take, FromBytes;
    TakeMore(input, 4, more);
    var t := Take(input, 4);
    if t.Some? {
      TakeMore(t.value.1, FromBytes(t.value.0), more);
    }
  }

  lemma {:induction false} DecodeMoreAll(ss: Fields, input: string, more: string)
    ensures DecodeAll(ss, input).Some? ==>
      DecodeAll(ss, input + more) == Some((DecodeAll(ss, input).value.0, DecodeAll(ss, input).value.1 + more))
    decreases ss
  {
    if ss.Field? {
      DecodeMore(ss.schema, input, more);
      var r := Decode(ss.schema, input);
      if r.Some? {
        DecodeMoreAll(ss.rest, r.value.1, more);
      }
    }
  }

  /** No part of an encoding short of all of it can be read. */
  lemma StrictPrefixFails(s: Schema, v: Value, n: nat)
    requires Fits(s, v) && n < |Encode(s, v)|
    ensures Decode(s, Encode(s, v)[..n]) == None
  {
    hide Decode, Encode;
    var e := Encode(s, v);
    assert e[..n] + e[n..] == e == e + "";
    RoundTrip(s, v, "");
    DecodeMore(s, e[..n], e[n..]);
  }

  // ----- writing slices -----

  /** What was written, and whether the sticky error flag is set. */
  datatype Output = Output(written: string, error: bool)

  /** Writing slices into a buffer with `room`, or one that grows. */
  function Emit(out: Output, slices: seq<string>, room: Option<nat>): Output
    decreases |slices|
  {
    if slices == [] || out.error then out
    else if room.Some? && |out.written| + |slices[0]| > room.value then out.(error := true)
    else Emit(Output(out.written + slices[0], false), slices[1..], room)
  }

  /** How many of the slices come before the first that does not fit. */
  function Fitting(used: nat, slices: seq<string>, room: Option<nat>): (k: nat)
    ensures k <= |slices|
    decreases |slices|
  {
    if slices == [] || (room.Some? && used + |slices[0]| > room.value) then 0
    else 1 + Fitting(used + |slices[0]|, slices[1..], room)
  }

  /** Exactly the slices before the first that does not fit are written; it is an error if there
      is such a slice, whatever comes behind it. */
  lemma {:induction false} EmitMeaning(out: Output, slices: seq<string>, room: Option<nat>)
    requires !out.error
    ensures var k := Fitting(|out.written|, slices, room);
      && Emit(out, slices, room) == Output(out.written + Concat(slices[..k]), k < |slices|)
      && (k < |slices| ==> room.Some? && |out.written + Concat(slices[..k])| + |slices[k]| > room.value)
    decreases |slices|
  {
    var k := Fitting(|out.written|, slices, room);
    if k == 0 {
      assert slices[..0] == [] && out.written + "" == out.written;
    } else {
      var out' := Output(out.written + slices[0], false);
      EmitMeaning(out', slices[1..], room);
      assert slices[..k][1..] == slices[1..][..k - 1];
      assert out.written + (slices[0] + Concat(slices[1..][..k - 1])) == out'.written + Concat(slices[1..][..k - 1]);
    }
  }

  /** With room for all, or no limit, everything is written. */
  lemma {:induction false} EmitAll(out: Output, slices: seq<string>, room: Option<nat>)
    requires !out.error
    ensures Emit(out, slices, room) == Output(out.written + Concat(slices), false)
            <==> room.None? || |slices| == 0 || |out.written| + |Concat(slices)| <= room.value
    decreases |slices|
  {
    if slices == [] {
      assert out.written + "" == out.written;
    } else {
      var out' := Output(out.written + slices[0], false);
      assert out.written + (slices[0] + Concat(slices[1..])) == out'.written + Concat(slices[1..]);
      EmitAll(out', slices[1..], room);
    }
  }

  lemma {:induction false} EmitJoin(out: Output, a: seq<string>, b: seq<string>, room: Option<nat>)
    ensures Emit(out, a + b, room) == Emit(Emit(out, a, room), b, room)
    decreases |a|
  {
    if a == [] {
      assert a + b == b;
    } else {
      assert (a + b)[1..] == a[1..] + b;
      if !out.error && !(room.Some? && |out.written| + |a[0]| > room.value) {
        EmitJoin(Output(out.written + a[0], false), a[1..], b, room);
      }
    }
  }

  /** An object marshalled into a buffer of the measured size, and unmarshalled from it, is
      copied; in a smaller buffer, marshalling fails. */
  lemma MeasuredBuffer(ss: Fields, vs: Values, room: nat)
    requires FitAll(ss, vs) && ShortAll(ss, vs)
    ensures var out := Emit(Output("", false), AllSlices(ss, vs), Some(room));
      && (room >= SizeAll(ss, vs) ==> !out.error && DecodeAll(ss, out.written) == Some((vs, "")))
      && (room < SizeAll(ss, vs) ==> out.error && out.written <= EncodeAll(ss, vs))
  {
    hide Emit, DecodeAll, AllSlices;
    var slices := AllSlices(ss, vs);
    SizeIsLengthAll(ss, vs);
    EmitAll(Output("", false), slices, Some(room));
    EmitMeaning(Output("", false), slices, Some(room));
    RoundTripAll(ss, vs, "");
    assert EncodeAll(ss, vs) + "" == EncodeAll(ss, vs) == "" + EncodeAll(ss, vs);
    var k := Fitting(0, slices, Some(room));
    ConcatJoin(slices[..k], slices[k..]);
    assert slices[..k] + slices[k..] == slices && "" + Concat(slices[..k]) == Concat(slices[..k]);
    if k == |slices| {
      assert slices[..k] == slices;
    }
  }

  // ----- Marshal -----

  /** A buffer of fixed length, or an expandable one, filled slice by slice. */
  class Marshal {
    const expandable: bool
    /** The contents of the expandable buffer. */
    var grown: string
    const buf: array<char>
    var offset: nat
    var error: bool

    ghost predicate Valid()
      reads this
    {
      offset <= buf.Length
    }

    ghost function Room(): Option<nat> { if expandable then None else Some(buf.Length) }

    ghost function Out(): Output
      requires Valid()
      reads this, buf
    {
      Output(if expandable then grown else buf[..offset], error)
    }

    constructor (buf: array<char>)
      ensures Valid() && !expandable && this.buf == buf && Out() == Output("", false)
    {
      this.buf, expandable := buf, false;
      grown, offset, error := "", 0, false;
    }

    constructor Expandable()
      ensures Valid() && expandable && fresh(buf) && Out() == Output("", false)
    {
      buf, expandable := new char[0], true;
      grown, offset, error := "", 0, false;
    }

    /** `next_slice`: where the next `length` bytes go, if they fit; the error is sticky. */
    method NextSlice(length: nat) returns (at: Option<nat>)
      requires Valid()
      modifies this`grown, this`offset, this`error
      ensures Valid()
      ensures at.None? <==> old(error) || (!expandable && old(offset) + length > buf.Length)
      ensures at.None? ==> error && offset == old(offset) && grown == old(grown)
      ensures at.Some? ==> !error && at.value == (if expandable then |old(grown)| else old(offset))
      ensures at.Some? && expandable ==> |grown| == at.value + length && grown[..at.value] == old(grown)
      ensures at.Some? && !expandable ==> offset == at.value + length && grown == old(grown)
    {
      if error {
        return None;
      }
      if expandable {
        at := Some(|grown|);
        grown := grown + seq(length, _ => '\0');
        return;
      }
      if offset + length > buf.Length {
        error := true;
        return None;
      }
      at := Some(offset);
      offset := offset + length;
    }

    /** Gets a slice and fills it. */
    method Put(data: string)
      requires Valid()
      modifies this`grown, this`offset, this`error, buf
      ensures Valid() && Out() == Emit(old(Out()), [data], Room())
    {
      var at := NextSlice(|data|);
      if at.None? {
        return;
      }
      for k := 0 to |data|
        invariant Valid() && error == old(error)
        invariant expandable ==> |grown| == at.value + |data| && grown[..at.value] == old(grown)
        invariant expandable ==> grown[at.value..at.value + k] == data[..k]
        invariant !expandable ==> offset == at.value + |data| && buf[..at.value] == old(buf[..offset])
        invariant !expandable ==> buf[at.value..at.value + k] == data[..k]
      {
        assert data[..k + 1] == data[..k] + [data[k]];
        if expandable {
          ghost var filled := grown[at.value..at.value + k];
          grown := grown[at.value + k := data[k]];
          assert grown[at.value..at.value + k + 1] == filled + [data[k]];
        } else {
          buf[at.value + k] := data[k];
          assert buf[at.value..at.value + k + 1] == buf[at.value..at.value + k] + [data[k]];
        }
      }
      assert data[..|data|] == data;
      assert [data][1..] == [];
      if expandable {
        assert grown == grown[..at.value] + grown[at.value..at.value + |data|];
      } else {
        assert buf[..offset] == buf[..at.value] + buf[at.value..at.value + |data|];
      }
    }

    /** The `process` functions. */
    method Process(s: Schema, v: Value)
      requires Valid() && Fits(s, v)
      modifies this`grown, this`offset, this`error, buf
      ensures Valid() && Out() == Emit(old(Out()), Slices(s, v), Room())
      decreases s
    {
      hide Emit, ToBytes, Marshal.Out, Marshal.Room;
      match s {
        case Int(bytes) => Put(ToBytes(v.n, bytes));
        case Flag => Put(if v.b then "\U{01}" else "\0");
        case Fixed(_) => Put(v.bytes);
        case Buffer => PutLong(v.bytes);
        case Text => PutLong(v.bytes);
        case Record(fields) => ProcessAll(fields, v.values);
      }
    }

    /** A length and as many bytes. */
    method PutLong(b: string)
      requires Valid()
      modifies this`grown, this`offset, this`error, buf
      ensures Valid() && Out() == Emit(old(Out()), [ToBytes(|b|, 4), b], Room())
    {
      hide Emit, ToBytes, Marshal.Out, Marshal.Room;
      EmitJoin(Out(), [ToBytes(|b|, 4)], [b], Room());
      assert [ToBytes(|b|, 4)] + [b] == [ToBytes(|b|, 4), b];
      Put(ToBytes(|b|, 4));
      Put(b);
    }

    method ProcessAll(ss: Fields, vs: Values)
      requires Valid() && FitAll(ss, vs)
      modifies this`grown, this`offset, this`error, buf
      ensures Valid() && Out() == Emit(old(Out()), AllSlices(ss, vs), Room())
      decreases ss
    {
      hide Slices, Marshal.Out, Marshal.Room;
      if ss.Field? {
        hide Emit;
        EmitJoin(Out(), Slices(ss.schema, vs.value), AllSlices(ss.rest, vs.rest), Room());
        Process(ss.schema, vs.value);
        ProcessAll(ss.rest, vs.rest);
      }
    }

    /** `action` on an object: 0, or -1 if the buffer is too small. */
    method Action(ss: Fields, vs: Values) returns (ret: int)
      requires Valid() && FitAll(ss, vs)
      modifies this`grown, this`offset, this`error, buf
      ensures Valid() && Out() == Emit(old(Out()).(error := false), AllSlices(ss, vs), Room())
      ensures ret == if error then -1 else 0
    {
      error := false;
      ProcessAll(ss, vs);
      ret := if error then -1 else 0;
    }
  }

  class MarshalSize {
    var size: nat

    constructor ()
      ensures size == 0
    {
      size := 0;
    }

    method Process(s: Schema, v: Value)
      requires Fits(s, v)
      modifies this
      ensures size == old(size) + Size(s, v)
      decreases s
    {
      match s {
        case Int(bytes) => size := size + bytes;
        case Flag => size := size + 1;
        case Fixed(len) => size := size + len;
        case Buffer =>
          size := size + 4;
          size := size + |v.bytes|;
        case Text => size := size + (|v.bytes| + 4) % LEN_LIMIT;
        case Record(fields) => ProcessAll(fields, v.values);
      }
    }

    method ProcessAll(ss: Fields, vs: Values)
      requires FitAll(ss, vs)
      modifies this
      ensures size == old(size) + SizeAll(ss, vs)
      decreases ss
    {
      if ss.Field? {
        Process(ss.schema, vs.value);
        ProcessAll(ss.rest, vs.rest);
      }
    }
  }

  // ----- Unmarshal -----

  class Unmarshal {
    const buf: string
    var offset: nat
    var error: bool

    ghost predicate Valid()
      reads this
    {
      offset <= |buf|
    }

    /** What is still to be read. */
    ghost function Input(): string
      requires Valid()
      reads this
    {
      buf[offset..]
    }

    constructor (buf: string)
      ensures Valid() && Input() == buf && !error
    {
      this.buf, offset, error := buf, 0, false;
      new;
      assert buf[0..] == buf;
    }

    method NextSlice(length: nat) returns (slice: Option<string>)
      requires Valid()
      modifies this
      ensures Valid()
      ensures old(error) ==> slice.None? && error && offset == old(offset)
      ensures !old(error) ==>
        match Take(old(Input()), length)
        case None => slice.None? && error
        case Some((a, b)) => slice == Some(a) && !error && Input() == b
    {
      if error {
        return None;
      }
      if offset + length > |buf| {
        error := true;
        return None;
      }
      assert buf[offset..][..length] == buf[offset..offset + length];
      assert buf[offset..][length..] == buf[offset + length..];
      slice := Some(buf[offset..offset + length]);
      offset := offset + length;
    }

    /** The `process` functions: the field gets what is decoded; None leaves it as it was. */
    method Process(s: Schema) returns (v: Option<Value>)
      requires Valid()
      modifies this
      ensures Valid() && (error <==> v.None?)
      ensures old(error) ==> error
      ensures !old(error) ==>
        match Decode(s, old(Input()))
        case None => error
        case Some((w, rest)) => v == Some(w) && Input() == rest
      decreases s
    {
      hide Take, FromBytes, Unmarshal.Input;
      match s {
        case Int(bytes) =>
          var slice := NextSlice(bytes);
          v := if slice.None? then None else Some(Num(FromBytes(slice.value)));
        case Flag =>
          var slice := NextSlice(1);
          TakeLength(old(Input()), 1);
          if slice.None? {
            return None;
          }
          v := Some(Bool(slice.value[0] != '\0'));
        case Fixed(len) =>
          var slice := NextSlice(len);
          v := if slice.None? then None else Some(Data(slice.value));
        case Buffer => v := ProcessLong();
        case Text => v := ProcessLong();
        case Record(fields) =>
          var vs := ProcessAll(fields);
          v := if vs.None? then None else Some(Group(vs.value));
      }
    }

    /** A length and as many bytes.  A buffer carrier takes no slice for length 0, which makes
        no difference; after an error its length is not set, but no slice is given out. */
    method ProcessLong() returns (v: Option<Value>)
      requires Valid()
      modifies this
      ensures Valid() && (error <==> v.None?)
      ensures old(error) ==> error
      ensures !old(error) ==>
        match DecodeLong(old(Input()))
        case None => error
        case Some((w, rest)) => v == Some(w) && Input() == rest
    {
      hide Take, FromBytes, Unmarshal.Input;
      var slice := NextSlice(4);
      var len := if slice.None? then 0 else FromBytes(slice.value);
      var bytes := NextSlice(len);
      v := if bytes.None? then None else Some(Data(bytes.value));
    }

    method ProcessAll(ss: Fields) returns (vs: Option<Values>)
      requires Valid()
      modifies this
      ensures Valid() && (error <==> vs.None?)
      ensures old(error) ==> error
      ensures !old(error) ==>
        match DecodeAll(ss, old(Input()))
        case None => error
        case Some((w, rest)) => vs == Some(w) && Input() == rest
      decreases ss
    {
      if ss.NoField? {
        vs := if error then None else Some(NoValue);
      } else {
        hide Decode, Unmarshal.Input;
        var v := Process(ss.schema);
        var rest := ProcessAll(ss.rest);
        vs := if v.None? || rest.None? then None else Some(And(v.value, rest.value));
      }
    }

    /** `action` on an object. */
    method Action(ss: Fields) returns (ret: int, vs: Option<Values>)
      requires Valid()
      modifies this
      ensures Valid()
      ensures match DecodeAll(ss, old(Input()))
        case None => ret == -1
        case Some((w, rest)) => ret == 0 && vs == Some(w) && Input() == rest
    {
      hide DecodeAll;
      error := false;
      vs := ProcessAll(ss);
      ret := if error then -1 else 0;
    }
  }

  lemma TakeLength(input: string, n: nat)
    ensures Take(input, n).Some? ==> |Take(input, n).value.0| == n
  {
  }

  // ----- byte streams -----

  /** A stream that takes bytes; `fails` tells which of the next writes fail. */
  class OutByteStream {
    var bytes: string
    var fails: seq<bool>

    method Write(buf: string) returns (err: int)
      modifies this
      ensures var failed := old(fails) != [] && old(fails)[0];
        && (err != 0 <==> failed)
        && bytes == (if failed then old(bytes) else old(bytes) + buf)
        && fails == (if old(fails) == [] then [] else old(fails)[1..])
    {
      err := if fails != [] && fails[0] then -1 else 0;
      if fails != [] {
        fails := fails[1..];
      }
      if err == 0 {
        bytes := bytes + buf;
      }
    }
  }

  /** Writing slices to a stream up to the first write that fails. */
  function Stream(out: Output, slices: seq<string>, fails: seq<bool>): (Output, seq<bool>)
    decreases |slices|
  {
    if slices == [] || out.error then (out, fails)
    else if fails != [] && fails[0] then (out.(error := true), fails[1..])
    else Stream(Output(out.written + slices[0], false), slices[1..], if fails == [] then [] else fails[1..])
  }

  lemma {:induction false} StreamJoin(out: Output, a: seq<string>, b: seq<string>, fails: seq<bool>)
    ensures var (out', fails') := Stream(out, a, fails); Stream(out, a + b, fails) == Stream(out', b, fails')
    decreases |a|
  {
    if a == [] {
      assert a + b == b;
    } else {
      assert (a + b)[1..] == a[1..] + b;
      if !out.error && !(fails != [] && fails[0]) {
        StreamJoin(Output(out.written + a[0], false), a[1..], b, if fails == [] then [] else fails[1..]);
      }
    }
  }

  ghost predicate NoneFails(fails: seq<bool>) { forall f :: f in fails ==> !f }

  /** A stream that does not fail gets the same bytes as an expandable buffer; one that does gets
      a part of them. */
  lemma {:induction false} StreamIsMarshal(out: Output, slices: seq<string>, fails: seq<bool>)
    requires !out.error
    ensures NoneFails(fails) ==> Stream(out, slices, fails).0 == Emit(out, slices, None)
    ensures Stream(out, slices, fails).0.written <= Emit(out, slices, None).written
    decreases |slices|
  {
    EmitAll(out, slices, None);
    if slices != [] {
      var out', fails' := Output(out.written + slices[0], false), if fails == [] then [] else fails[1..];
      OneSliceOn(out, slices, fails);
      Later(fails);
      hide Stream, Emit, Concat;
      if fails == [] || !fails[0] {
        StreamIsMarshal(out', slices[1..], fails');
      }
    }
  }

  lemma Later(fails: seq<bool>)
    ensures NoneFails(fails) ==> (fails == [] || !fails[0]) && NoneFails(if fails == [] then [] else fails[1..])
  {
    if fails != [] {
      assert fails[0] in fails;
      var rest := fails[1..];
      forall f | f in rest ensures f in fails {
        var k :| 0 <= k < |rest| && rest[k] == f;
        assert fails[k + 1] == f;
      }
    }
  }

  lemma OneSliceOn(out: Output, slices: seq<string>, fails: seq<bool>)
    requires !out.error && slices != []
    ensures var out', fails' := Output(out.written + slices[0], false), if fails == [] then [] else fails[1..];
      && Emit(out, slices, None) == Emit(out', slices[1..], None)
      && Stream(out, slices, fails)
         == if fails != [] && fails[0] then (out.(error := true), fails') else Stream(out', slices[1..], fails')
  {
  }

  class StreamSerialize {
    const stream: OutByteStream
    var error: bool

    constructor (stream: OutByteStream)
      ensures this.stream == stream && !error
    {
      this.stream, error := stream, false;
    }

    ghost function Out(): Output
      reads this, stream
    {
      Output(stream.bytes, error)
    }

    method Write(data: string)
      modifies this, stream
      ensures (Out(), stream.fails) == Stream(old(Out()), [data], old(stream.fails))
    {
      if error {
        return;
      }
      var err := stream.Write(data);
      if err != 0 {
        error := true;
      }
      assert [data][1..] == [];
    }

    method Process(s: Schema, v: Value)
      requires Fits(s, v)
      modifies this, stream
      ensures (Out(), stream.fails) == Stream(old(Out()), Slices(s, v), old(stream.fails))
      decreases s
    {
      hide Stream, ToBytes, StreamSerialize.Out;
      match s {
        case Int(bytes) => Write(ToBytes(v.n, bytes));
        case Flag => Write(if v.b then "\U{01}" else "\0");
        case Fixed(_) => Write(v.bytes);
        case Buffer => WriteLong(v.bytes);
        case Text => WriteLong(v.bytes);
        case Record(fields) => ProcessAll(fields, v.values);
      }
    }

    method WriteLong(b: string)
      modifies this, stream
      ensures (Out(), stream.fails) == Stream(old(Out()), [ToBytes(|b|, 4), b], old(stream.fails))
    {
      hide Stream, ToBytes, StreamSerialize.Out;
      StreamJoin(Out(), [ToBytes(|b|, 4)], [b], stream.fails);
      assert [ToBytes(|b|, 4)] + [b] == [ToBytes(|b|, 4), b];
      Write(ToBytes(|b|, 4));
      Write(b);
    }

    method ProcessAll(ss: Fields, vs: Values)
      requires FitAll(ss, vs)
      modifies this, stream
      ensures (Out(), stream.fails) == Stream(old(Out()), AllSlices(ss, vs), old(stream.fails))
      decreases ss
    {
      if ss.Field? {
        hide Slices, Stream, StreamSerialize.Out;
        StreamJoin(Out(), Slices(ss.schema, vs.value), AllSlices(ss.rest, vs.rest), stream.fails);
        Process(ss.schema, vs.value);
        ProcessAll(ss.rest, vs.rest);
      }
    }
  }

  /** A stream that bytes are read from. */
  class InByteStream {
    var input: string

    method Read(len: nat) returns (err: int, buf: string)
      modifies this
      ensures match Take(old(input), len)
        case None => err != 0
        case Some((a, b)) => err == 0 && buf == a && input == b
    {
      if len > |input| {
        return -1, "";
      }
      err, buf := 0, input[..len];
      input := input[len..];
    }
  }

  class StreamUnserialize {
    const stream: InByteStream
    var error: bool

    constructor (stream: InByteStream)
      ensures this.stream == stream && !error
    {
      this.stream, error := stream, false;
    }

    method Read(len: nat) returns (buf: Option<string>)
      modifies this, stream
      ensures old(error) ==> error && buf.None?
      ensures !old(error) ==>
        match Take(old(stream.input), len)
        case None => error && buf.None?
        case Some((a, b)) => !error && buf == Some(a) && stream.input == b
    {
      if error {
        return None;
      }
      var err, data := stream.Read(len);
      if err != 0 {
        error := true;
        return None;
      }
      buf := Some(data);
    }

    /** The `process` functions read what `Unmarshal` reads. */
    method Process(s: Schema) returns (v: Option<Value>)
      modifies this, stream
      ensures (error <==> v.None?) && (old(error) ==> error)
      ensures !old(error) ==>
        match Decode(s, old(stream.input))
        case None => error
        case Some((w, rest)) => v == Some(w) && stream.input == rest
      decreases s
    {
      hide Take, FromBytes;
      match s {
        case Int(bytes) =>
          var buf := Read(bytes);
          v := if buf.None? then None else Some(Num(FromBytes(buf.value)));
        case Flag =>
          var buf := Read(1);
          TakeLength(old(stream.input), 1);
          if buf.None? {
            return None;
          }
          v := Some(Bool(buf.value[0] != '\0'));
        case Fixed(len) =>
          var buf := Read(len);
          v := if buf.None? then None else Some(Data(buf.value));
        case Buffer => v := ProcessCarrier();
        case Text =>
          var length := Read(4);
          if error {
            return None;
          }
          var buf := Read(FromBytes(length.value));
          v := if buf.None? then None else Some(Data(buf.value));
        case Record(fields) =>
          var vs := ProcessAll(fields);
          v := if vs.None? then None else Some(Group(vs.value));
      }
    }

    /** The length is used even if it could not be read, whatever it is then; the error is not
        forgotten. */
    method ProcessCarrier() returns (v: Option<Value>)
      modifies this, stream
      ensures (error <==> v.None?) && (old(error) ==> error)
      ensures !old(error) ==>
        match DecodeLong(old(stream.input))
        case None => error
        case Some((w, rest)) => v == Some(w) && stream.input == rest
    {
      hide Take, FromBytes;
      var len: nat := *;
      var length := Read(4);
      if length.Some? {
        len := FromBytes(length.value);
      }
      var err, buf := stream.Read(len);
      if err != 0 {
        error := true;
        return None;
      }
      v := if error then None else Some(Data(buf));
    }

    method ProcessAll(ss: Fields) returns (vs: Option<Values>)
      modifies this, stream
      ensures (error <==> vs.None?) && (old(error) ==> error)
      ensures !old(error) ==>
        match DecodeAll(ss, old(stream.input))
        case None => error
        case Some((w, rest)) => vs == Some(w) && stream.input == rest
      decreases ss
    {
      if ss.NoField? {
        vs := if error then None else Some(NoValue);
      } else {
        hide Decode;
        var v := Process(ss.schema);
        var rest := ProcessAll(ss.rest);
        vs := if v.None? || rest.None? then None else Some(And(v.value, rest.value));
      }
    }
  }
}
