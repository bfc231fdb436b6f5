/** Objects as the serializers of serialize/ see them: a serializable object is a sequence of
    fields that it hands to a serializer one by one, always in the same order. */
module Serialize {

  /** The type of a field. */
  datatype Schema =
    | Int(bytes: nat)          // unsigned, of 1, 2, 4 or 8 bytes
    | Flag
    | Fixed(len: nat)          // a buffer of constant length
    | Buffer                   // a BufferCarrier
    | Text                     // a string
    | Record(fields: Fields)

  datatype Fields = NoField | Field(name: string, schema: Schema, rest: Fields)

  /** The contents of a field; bytes are characters. */
  datatype Value = Num(n: nat) | Bool(b: bool) | Data(bytes: string) | Group(values: Values)

  datatype Values = NoValue | And(value: Value, rest: Values)

  /** 256 to the power of `bytes`. */
  function Limit(bytes: nat): (r: nat)
    ensures r > 0
  {
    if bytes == 0 then 1 else 0x100 * Limit(bytes - 1)
  }

  /** Lengths are stored in four bytes. */
  const LEN_LIMIT: nat := 0x1_0000_0000

  predicate Fits(s: Schema, v: Value)
    decreases s
  {
    match s
    case Int(bytes) => (bytes == 1 || bytes == 2 || bytes == 4 || bytes == 8) && v.Num? && v.n < Limit(bytes)
    case Flag => v.Bool?
    case Fixed(len) => v.Data? && |v.bytes| == len
    case Buffer => v.Data? && |v.bytes| < LEN_LIMIT
    case Text => v.Data? && |v.bytes| < LEN_LIMIT
    case Record(fields) => v.Group? && FitAll(fields, v.values)
  }

  predicate FitAll(ss: Fields, vs: Values)
    decreases ss
  {
    match ss
    case NoField => vs.NoValue?
    case Field(_, s, rest) => vs.And? && Fits(s, vs.value) && FitAll(rest, vs.rest)
  }
}
