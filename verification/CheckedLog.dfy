/** The checked log of storage/CheckedLog.cc: framed, checksummed records, read back after any
    loss of the end of the file. */
module CheckedLog {

  type Byte = bv8
  type Word = bv32

  /** The checksum of some bytes. */
  type Crc = seq<Byte> -> Word

  // ----- four-byte numbers -----

  function Bytes4(n: Word): (b: seq<Byte>)
    ensures |b| == 4
  {
    [(n >> 24) as bv8, ((n >> 16) & 0xFF) as bv8, ((n >> 8) & 0xFF) as bv8, (n & 0xFF) as bv8]
  }

  /** A char as an int. */
  function Promote(b: Byte, signed: bool): Word {
    if signed && b >= 0x80 then (b as bv32) | 0xFFFF_FF00 else b as bv32
  }

  /** The four bytes of a number, shifted and combined. */
  function Combine(b: seq<Byte>, signed: bool): Word
    requires |b| == 4
  {
    (Promote(b[0], signed) << 24) | (Promote(b[1], signed) << 16) | (Promote(b[2], signed) << 8) | Promote(b[3], signed)
  }

  lemma Bytes4RoundTrip(n: Word)
    ensures Combine(Bytes4(n), false) == n
  {
  }

  /** The value of four bytes, the first one counting most. */
  function BigEndian(b: seq<Byte>): Word
    requires |b| == 4
  {
    (b[0] as bv32) * 0x100_0000 + (b[1] as bv32) * 0x1_0000 + (b[2] as bv32) * 0x100 + b[3] as bv32
  }

  lemma CombineIs(b: seq<Byte>)
    requires |b| == 4
    ensures Combine(b, false) == BigEndian(b)
  {
    Shifted(b[0] as bv32, b[1] as bv32, b[2] as bv32, b[3] as bv32);
  }

  lemma Shifted(a: bv32, b: bv32, c: bv32, d: bv32)
    requires a < 0x100 && b < 0x100 && c < 0x100 && d < 0x100
    ensures (a << 24) | (b << 16) | (c << 8) | d == a * 0x100_0000 + b * 0x1_0000 + c * 0x100 + d
  {
  }

  /** The bytes of a number are the only ones with its value. */
  lemma BytesAre(b: seq<Byte>, n: Word)
    requires |b| == 4
    ensures BigEndian(b) == n <==> b == Bytes4(n)
  {
    CombineIs(b);
    CombineIs(Bytes4(n));
    Bytes4RoundTrip(n);
    Bytes4Back(b);
  }

  lemma Bytes4Back(b: seq<Byte>)
    requires |b| == 4
    ensures Bytes4(Combine(b, false)) == b
  {
  }

  /** With signed chars, a number comes out right, and not negative, exactly if none of its
      bytes has the top bit set. */
  lemma SignedCombine(b: seq<Byte>)
    requires |b| == 4
    ensures b[0] < 0x80 && b[1] < 0x80 && b[2] < 0x80 && b[3] < 0x80
            <==> Combine(b, true) == Combine(b, false) && Combine(b, true) < 0x8000_0000
    ensures !(b[0] < 0x80 && b[1] < 0x80 && b[2] < 0x80 && b[3] < 0x80) ==> Combine(b, true) >= 0x8000_0000
  {
  }

  /** A number as an int. */
  function Int(n: Word): int {
    if n < 0x8000_0000 then n as int else n as int - 0x1_0000_0000
  }

  /** A number as an unsigned int. */
  function Size(n: Word): nat { n as int }

  /** The length in four bytes, as the code sees it. */
  function LengthOf(b: seq<Byte>, signed: bool): int
    requires |b| == 4
  {
    Int(Combine(b, signed))
  }

  // ----- records -----

  /** A record as it lies in the file: its first byte is '*', unless someone has overwritten
      it. */
  datatype Record = Record(mark: Byte, len: Word, body: seq<Byte>) {
    ghost predicate Valid() { |body| == Size(len) }
  }

  const STAR: Byte := 42
  const BANG: Byte := 33
  const HEADER: nat := 9

  function Sum4(r: Record, crc: Crc): (b: seq<Byte>)
    ensures |b| == 4
  {
    Bytes4(crc(Bytes4(r.len) + r.body))
  }

  function Encode(r: Record, crc: Crc): (b: seq<Byte>)
    ensures |b| == HEADER + |r.body|
  {
    [r.mark] + Sum4(r, crc) + Bytes4(r.len) + r.body
  }

  predicate Matches(crc: Crc, lenBuf: seq<Byte>, body: seq<Byte>, sumBuf: seq<Byte>)
    requires |sumBuf| == 4
  {
    crc(lenBuf + body) == Combine(sumBuf, false)
  }

  function Log(records: seq<Record>, crc: Crc): seq<Byte> {
    if records == [] then [] else Encode(records[0], crc) + Log(records[1..], crc)
  }

  /** Results of `read_record`; with a negative length, the code reads any number of bytes. */
  datatype Status = NoErr | Ignored | End | BadCrc | Undefined

  function MarkStatus(mark: Byte): Status { if mark == BANG then Ignored else NoErr }

  /** Reading the record at `pos`: the result, the record's contents, and the place behind it. */
  function Read(file: seq<Byte>, pos: nat, crc: Crc, signed: bool): (r: (Status, seq<Byte>, nat))
    requires pos <= |file|
    ensures pos <= r.2 <= |file| && (r.0.NoErr? || r.0.Ignored? ==> pos < r.2)
  {
    if pos == |file| then (End, [], pos)
    else if |file| - pos < HEADER then (BadCrc, [], if |file| - pos < 5 then pos + 1 else pos + 5)
    else
      var lenBuf := file[pos + 5..pos + HEADER];
      var len := LengthOf(lenBuf, signed);
      if len > |file| - pos - HEADER then (BadCrc, [], pos + HEADER)
      else if len < 0 then (Undefined, [], pos + HEADER)
      else
        var body := file[pos + HEADER..pos + HEADER + len];
        if !Matches(crc, lenBuf, body, file[pos + 1..pos + 5]) then (BadCrc, body, pos + HEADER + len)
        else (MarkStatus(file[pos]), body, pos + HEADER + len)
  }

  /** Four bytes that are read as the length `len`. */
  predicate IsLength(b: seq<Byte>, len: nat, signed: bool)
    requires |b| == 4
  {
    && Size(BigEndian(b)) == len
    && if signed then b[0] < 0x80 && b[1] < 0x80 && b[2] < 0x80 && b[3] < 0x80 else len < 0x8000_0000
  }

  /** A record with these contents lies at `pos`: behind the mark, four bytes with the checksum of
      the length and the contents, then four bytes with the length. */
  ghost predicate Lies(file: seq<Byte>, pos: nat, body: seq<Byte>, crc: Crc, signed: bool) {
    && pos + 9 + |body| <= |file| && body == file[pos + 9..pos + 9 + |body|]
    && BigEndian(file[pos + 1..pos + 5]) == crc(file[pos + 5..pos + 9] + body)
    && IsLength(file[pos + 5..pos + 9], |body|, signed)
  }

  lemma LengthReads(b: seq<Byte>, len: nat, signed: bool)
    requires |b| == 4
    ensures LengthOf(b, signed) == len <==> IsLength(b, len, signed)
  {
    hide Bytes4, LengthOf, BigEndian, Size;
    var n := BigEndian(b);
    BytesAre(b, n);
    LengthRoundTrip(n, signed);
    LimitIs(n);
  }

  lemma LimitIs(n: Word)
    ensures n < 0x8000_0000 <==> Size(n) < 0x8000_0000
  {
  }

  /** Damage is detected: a record is handed out exactly if it lies there, and it is to be ignored
      exactly if its mark is '!', whatever else the mark is. */
  lemma ReadExactly(file: seq<Byte>, pos: nat, crc: Crc, signed: bool)
    requires pos < |file|
    ensures var (status, body, next) := Read(file, pos, crc, signed);
      && (status.NoErr? || status.Ignored? ==>
            Lies(file, pos, body, crc, signed) && next == pos + 9 + |body| && (status.Ignored? <==> file[pos] == 33))
      && ((exists b :: Lies(file, pos, b, crc, signed)) ==> status.NoErr? || status.Ignored?)
  {
    hide LengthOf, BigEndian, IsLength, Lies;
    var (status, body, next) := Read(file, pos, crc, signed);
    if status.NoErr? || status.Ignored? {
      ReadLies(file, pos, crc, signed);
    }
    if b :| Lies(file, pos, b, crc, signed) {
      LyingRead(file, pos, b, crc, signed);
    }
  }

  lemma ReadLies(file: seq<Byte>, pos: nat, crc: Crc, signed: bool)
    requires pos < |file|
    requires var status := Read(file, pos, crc, signed).0; status.NoErr? || status.Ignored?
    ensures var (status, body, next) := Read(file, pos, crc, signed);
      Lies(file, pos, body, crc, signed) && next == pos + 9 + |body| && (status.Ignored? <==> file[pos] == 33)
  {
    hide LengthOf, BigEndian, IsLength;
    CombineIs(file[pos + 1..pos + 5]);
    LengthReads(file[pos + 5..pos + 9], |Read(file, pos, crc, signed).1|, signed);
  }

  lemma LyingRead(file: seq<Byte>, pos: nat, body: seq<Byte>, crc: Crc, signed: bool)
    requires Lies(file, pos, body, crc, signed)
    ensures Read(file, pos, crc, signed) == (MarkStatus(file[pos]), body, pos + 9 + |body|)
  {
    hide LengthOf, BigEndian, IsLength, MarkStatus;
    CombineIs(file[pos + 1..pos + 5]);
    LengthReads(file[pos + 5..pos + 9], |body|, signed);
  }

  lemma NothingLies(file: seq<Byte>, pos: nat, crc: Crc, signed: bool)
    requires pos >= |file|
    ensures forall body :: !Lies(file, pos, body, crc, signed)
  {
  }

  /** In particular, a record whose contents were overwritten by others with another checksum is
      not handed out. */
  lemma OverwrittenDetected(file: seq<Byte>, pos: nat, r: Record, body: seq<Byte>, crc: Crc, signed: bool)
    requires r.Valid() && Readable(r.len, signed) && |body| == |r.body| && pos < |file|
    requires crc(Bytes4(r.len) + body) != crc(Bytes4(r.len) + r.body)
    requires [r.mark] + Sum4(r, crc) + Bytes4(r.len) + body <= file[pos..]
    ensures Read(file, pos, crc, signed).0 == BadCrc
  {
    hide Bytes4, Readable, LengthOf, Size, BigEndian;
    Sliced(file, pos, r.mark, Sum4(r, crc), Bytes4(r.len), body);
    LengthRoundTrip(r.len, signed);
    BytesAre(Sum4(r, crc), crc(Bytes4(r.len) + r.body));
    CombineIs(Sum4(r, crc));
  }

  /** Reading record after record, up to the first call that returns none. */
  function ReadAll(file: seq<Byte>, pos: nat, crc: Crc, signed: bool): (seq<(Status, seq<Byte>)>, Status)
    requires pos <= |file|
    decreases |file| - pos
  {
    var (status, body, next) := Read(file, pos, crc, signed);
    if status.NoErr? || status.Ignored? then
      var (rest, end) := ReadAll(file, next, crc, signed);
      ([(status, body)] + rest, end)
    else ([], status)
  }

  /** How many records lie wholly inside the first `n` bytes. */
  function Whole(records: seq<Record>, n: int): nat {
    if records == [] || n < HEADER + |records[0].body| then 0
    else 1 + Whole(records[1..], n - HEADER - |records[0].body|)
  }

  function Contents(records: seq<Record>): seq<(Status, seq<Byte>)> {
    if records == [] then [] else [(MarkStatus(records[0].mark), records[0].body)] + Contents(records[1..])
  }

  /** A length that a machine with signed, or unsigned, chars reads correctly. */
  predicate Readable(len: Word, signed: bool) {
    var b := Bytes4(len);
    if signed then b[0] < 0x80 && b[1] < 0x80 && b[2] < 0x80 && b[3] < 0x80 else len < 0x8000_0000
  }

  /** Lengths come out right exactly if they are readable. */
  lemma LengthRoundTrip(len: Word, signed: bool)
    ensures Readable(len, signed) <==> LengthOf(Bytes4(len), signed) == Size(len)
    ensures !Readable(len, signed) ==> LengthOf(Bytes4(len), signed) < 0
  {
    Bytes4RoundTrip(len);
    if signed {
      SignedCombine(Bytes4(len));
    }
  }

  // ----- reading back -----

  /** A record that is there in full is read back. */
  lemma ReadWhole(file: seq<Byte>, pos: nat, r: Record, crc: Crc, signed: bool)
    requires r.Valid() && pos <= |file| && Encode(r, crc) <= file[pos..]
    ensures Read(file, pos, crc, signed)
            == if Readable(r.len, signed) then (MarkStatus(r.mark), r.body, pos + HEADER + |r.body|)
               else (Undefined, [], pos + HEADER)
  {
    EncodeParts(r, crc);
    hide *;
    Sliced(file, pos, r.mark, Sum4(r, crc), Bytes4(r.len), r.body);
    ReadThere(file, pos, r, crc, signed);
  }

  lemma EncodeParts(r: Record, crc: Crc)
    ensures Encode(r, crc) == [r.mark] + Sum4(r, crc) + Bytes4(r.len) + r.body
    ensures r.Valid() <==> |r.body| == Size(r.len)
  {
  }

  /** The bytes of a record, one by one. */
  lemma EncodedBytes(r: Record, crc: Crc)
    ensures var e := Encode(r, crc);
      && |e| == 9 + |r.body| && e[0] == r.mark && e[9..] == r.body && BigEndian(e[5..9]) == r.len
      && BigEndian(e[1..5]) == crc(e[5..9] + r.body)
  {
    hide Bytes4, BigEndian;
    var e := Encode(r, crc);
    assert e[1..5] == Sum4(r, crc) && e[5..9] == Bytes4(r.len) && e[9..] == r.body;
    BytesAre(Sum4(r, crc), crc(Bytes4(r.len) + r.body));
    BytesAre(Bytes4(r.len), r.len);
  }

  lemma SumMatches(r: Record, crc: Crc)
    ensures Matches(crc, Bytes4(r.len), r.body, Sum4(r, crc))
  {
    Bytes4RoundTrip(crc(Bytes4(r.len) + r.body));
  }

  lemma ReadThere(file: seq<Byte>, pos: nat, r: Record, crc: Crc, signed: bool)
    requires |r.body| == Size(r.len)
    requires pos + HEADER + |r.body| <= |file| && file[pos] == r.mark
    requires file[pos + 1..pos + 5] == Sum4(r, crc) && file[pos + 5..pos + HEADER] == Bytes4(r.len)
    requires file[pos + HEADER..pos + HEADER + |r.body|] == r.body
    ensures Read(file, pos, crc, signed)
            == if Readable(r.len, signed) then (MarkStatus(r.mark), r.body, pos + HEADER + |r.body|)
               else (Undefined, [], pos + HEADER)
  {
    hide Bytes4, Readable, LengthOf, Matches, Sum4, Size, MarkStatus;
    SumMatches(r, crc);
    LengthRoundTrip(r.len, signed);
  }

  lemma Sliced(file: seq<Byte>, pos: nat, mark: Byte, a: seq<Byte>, b: seq<Byte>, c: seq<Byte>)
    requires |a| == 4 && |b| == 4 && pos <= |file| && [mark] + a + b + c <= file[pos..]
    ensures pos + 9 + |c| <= |file|
    ensures file[pos] == mark && file[pos + 1..pos + 5] == a && file[pos + 5..pos + 9] == b
    ensures file[pos + 9..pos + 9 + |c|] == c
  {
    var e := [mark] + a + b + c;
    var rest := file[pos..];
    assert rest[..|e|] == e;
    assert forall k :: 0 <= k < |e| ==> e[k] == file[pos + k];
    assert file[pos + 1..pos + 5] == e[1..5] == a;
    assert file[pos + 5..pos + 9] == e[5..9] == b;
    assert file[pos + 9..pos + 9 + |c|] == e[9..9 + |c|] == c;
  }

  /** A record whose end is missing is not mistaken for one. */
  lemma ReadTorn(file: seq<Byte>, pos: nat, r: Record, crc: Crc, signed: bool)
    requires r.Valid() && Readable(r.len, signed) && pos < |file|
    requires file[pos..] <= Encode(r, crc) && |file| - pos < HEADER + |r.body|
    ensures Read(file, pos, crc, signed).0 == BadCrc
  {
    hide Bytes4, Readable, LengthOf, Matches, Sum4, Size;
    if |file| - pos >= HEADER {
      var e := Encode(r, crc);
      assert e[5..9] == Bytes4(r.len);
      assert forall k :: 0 <= k < |file| - pos ==> file[pos..][k] == e[k];
      assert file[pos + 5..pos + HEADER] == e[5..9];
      LengthRoundTrip(r.len, signed);
    }
  }

  /** However much of the end of a log is lost, exactly the records that are wholly there are
      read back, in order; then the end is reported, or damage, if a record was cut off. */
  lemma {:induction false} PrefixReads(records: seq<Record>, crc: Crc, signed: bool, before: seq<Byte>, n: nat)
    requires forall r :: r in records ==> r.Valid() && Readable(r.len, signed)
    requires n <= |Log(records, crc)|
    ensures var k := Whole(records, n);
      && k <= |records| && |Log(records[..k], crc)| <= n
      && ReadAll(before + Log(records, crc)[..n], |before|, crc, signed)
         == (Contents(records[..k]), if n == |Log(records[..k], crc)| then End else BadCrc)
    decreases |records|
  {
    hide Read, Encode, Readable, ReadAll, Log, Contents, Size;
    NothingWhole(crc);
    if n == 0 {
      assert records[..0] == [] && before + Log(records, crc)[..n] == before;
      ReadEnd(before, crc, signed);
    } else {
      LogIs(records, crc);
      var r := records[0];
      assert r in records;
      var e, rest := Encode(r, crc), Log(records[1..], crc);
      if n < |e| {
        assert records[..0] == [] && Log(records, crc)[..n] == e[..n];
        CutOff(before, r, e, n, crc, signed);
      } else {
        PrefixReads(records[1..], crc, signed, before + e, n - |e|);
        OneMore(records, crc, signed, before, n, Whole(records[1..], n - |e|));
      }
    }
  }

  /** One record in front of those that are read by induction. */
  lemma OneMore(records: seq<Record>, crc: Crc, signed: bool, before: seq<Byte>, n: nat, k: nat)
    requires records != [] && records[0].Valid() && Readable(records[0].len, signed) && k < |records|
    requires |Encode(records[0], crc)| <= n <= |Log(records, crc)|
    ensures var e, rest := Encode(records[0], crc), Log(records[1..], crc);
      && Log(records, crc) == e + rest
      && |Log(records[..k + 1], crc)| == |e| + |Log(records[1..][..k], crc)|
      && var later := ReadAll(before + e + rest[..n - |e|], |before + e|, crc, signed);
         && (later.0 == Contents(records[1..][..k])
             ==> ReadAll(before + Log(records, crc)[..n], |before|, crc, signed) == (Contents(records[..k + 1]), later.1))
  {
    hide *;
    LogIs(records, crc);
    var some := records[..k + 1];
    TailTake(records, k);
    LogIs(some, crc);
    ContentsIs(some);
    var e, rest := Encode(records[0], crc), Log(records[1..], crc);
    TakeAcross(e, rest, n);
    FirstWhole(before, records[0], e, rest[..n - |e|], crc, signed);
  }

  lemma TakeAcross(a: seq<Byte>, b: seq<Byte>, n: nat)
    requires |a| <= n <= |a| + |b|
    ensures (a + b)[..n] == a + b[..n - |a|]
  {
  }

  lemma TailTake(records: seq<Record>, k: nat)
    requires k < |records|
    ensures records[..k + 1][0] == records[0] && records[..k + 1][1..] == records[1..][..k]
  {
  }

  lemma NothingWhole(crc: Crc)
    ensures Log([], crc) == [] && Contents([]) == []
  {
  }

  lemma LogIs(records: seq<Record>, crc: Crc)
    ensures records == [] ==> Log(records, crc) == []
    ensures records != [] ==> Log(records, crc) == Encode(records[0], crc) + Log(records[1..], crc)
  {
  }

  lemma ContentsIs(records: seq<Record>)
    requires records != []
    ensures Contents(records) == [(MarkStatus(records[0].mark), records[0].body)] + Contents(records[1..])
  {
  }

  lemma CutOff(before: seq<Byte>, r: Record, e: seq<Byte>, n: nat, crc: Crc, signed: bool)
    requires r.Valid() && Readable(r.len, signed) && e == Encode(r, crc) && 0 < n < |e|
    ensures ReadAll(before + e[..n], |before|, crc, signed) == ([], BadCrc)
  {
    hide Read, Readable, Record.Valid;
    var file := before + e[..n];
    assert file[|before|..] == e[..n];
    ReadTorn(file, |before|, r, crc, signed);
  }

  lemma FirstWhole(before: seq<Byte>, r: Record, e: seq<Byte>, rest: seq<Byte>, crc: Crc, signed: bool)
    requires r.Valid() && Readable(r.len, signed) && e == Encode(r, crc)
    ensures var later := ReadAll(before + e + rest, |before| + |e|, crc, signed);
      ReadAll(before + (e + rest), |before|, crc, signed) == ([(MarkStatus(r.mark), r.body)] + later.0, later.1)
  {
    hide Read, Readable, Record.Valid;
    var file := before + (e + rest);
    assert before + e + rest == file && file[|before|..] == e + rest;
    assert |e| == HEADER + |r.body|;
    ReadWhole(file, |before|, r, crc, signed);
  }

  lemma ReadEnd(file: seq<Byte>, crc: Crc, signed: bool)
    ensures ReadAll(file, |file|, crc, signed) == ([], End)
  {
  }

  /** A whole log is read back exactly if all its lengths are readable: with signed chars, no
      record may have 128 to 255 bytes, for example. */
  lemma {:induction false} AllReadExactly(records: seq<Record>, crc: Crc, signed: bool, before: seq<Byte>)
    requires forall r :: r in records ==> r.Valid()
    ensures ReadAll(before + Log(records, crc), |before|, crc, signed) == (Contents(records), End)
            <==> forall r :: r in records ==> Readable(r.len, signed)
    decreases |records|
  {
    hide Read, Encode, Readable, ReadAll, Log, Contents, Size, Record.Valid;
    NothingWhole(crc);
    LogIs(records, crc);
    if records == [] {
      assert before + [] == before;
      ReadEnd(before, crc, signed);
    } else {
      var r := records[0];
      assert r in records;
      var e, rest := Encode(r, crc), Log(records[1..], crc);
      ContentsIs(records);
      if Readable(r.len, signed) {
        FirstWhole(before, r, e, rest, crc, signed);
        AllReadExactly(records[1..], crc, signed, before + e);
        ConsEqual((MarkStatus(r.mark), r.body), ReadAll(before + e + rest, |before| + |e|, crc, signed).0,
                  Contents(records[1..]));
        assert forall q :: q in records <==> q == r || q in records[1..];
      } else {
        FirstUnreadable(before, r, e, rest, crc, signed);
      }
    }
  }

  lemma ConsEqual<T>(x: T, s: seq<T>, t: seq<T>)
    ensures [x] + s == [x] + t <==> s == t
  {
    assert ([x] + s)[1..] == s && ([x] + t)[1..] == t;
  }

  lemma FirstUnreadable(before: seq<Byte>, r: Record, e: seq<Byte>, rest: seq<Byte>, crc: Crc, signed: bool)
    requires r.Valid() && !Readable(r.len, signed) && e == Encode(r, crc)
    ensures ReadAll(before + (e + rest), |before|, crc, signed) == ([], Undefined)
  {
    hide Read, Readable, Record.Valid;
    var file := before + (e + rest);
    assert file[|before|..] == e + rest;
    ReadWhole(file, |before|, r, crc, signed);
  }

  lemma ShortLengthUnreadable()
    ensures !Readable(128, true) && !Readable(255, true) && Readable(127, true) && Readable(256, true)
  {
  }

  // ----- the reader and the writer -----

  /** A file, and the place where it is read. */
  class FdIOClient {
    var bytes: seq<Byte>
    var pos: nat

    ghost predicate Valid()
      reads this
    {
      pos <= |bytes|
    }

    /** Reads what is there, at most `len` bytes. */
    method Read(len: nat) returns (cc: nat, buf: seq<Byte>)
      requires Valid()
      modifies `pos
      ensures Valid() && cc == (if len <= |bytes| - old(pos) then len else |bytes| - old(pos))
      ensures pos == old(pos) + cc && buf == bytes[old(pos)..pos]
    {
      cc := if len <= |bytes| - pos then len else |bytes| - pos;
      buf := bytes[pos..pos + cc];
      pos := pos + cc;
    }

    /** Writes at the end. */
    method Write(buf: seq<Byte>)
      modifies `bytes
      ensures bytes == old(bytes) + buf
    {
      bytes := bytes + buf;
    }
  }

  class CheckedLogWriter {
    const fd: FdIOClient
    const crc: Crc

    constructor (fd: FdIOClient, crc: Crc)
      ensures this.fd == fd && this.crc == crc
    {
      this.fd, this.crc := fd, crc;
    }

    /** `len` bytes of `buf` become a record. */
    method WriteRecord(buf: seq<Byte>, len: Word)
      requires |buf| == Size(len)
      modifies fd`bytes
      ensures fd.bytes == old(fd.bytes) + Encode(Record(STAR, len, buf), crc)
      ensures var e := fd.bytes[|old(fd.bytes)|..];
        && |e| == 9 + |buf| && e[0] == 42 && e[9..] == buf && BigEndian(e[5..9]) == len
        && BigEndian(e[1..5]) == crc(e[5..9] + buf)
    {
      EncodedBytes(Record(STAR, len, buf), crc);
      hide Bytes4, Size, Encode;
      EncodeParts(Record(STAR, len, buf), crc);
      var lenBuf := Bytes4(len);
      var sum := crc(lenBuf + buf);
      var crcBuf := Bytes4(sum);
      fd.Write([STAR]);
      fd.Write(crcBuf);
      fd.Write(lenBuf);
      fd.Write(buf);
      Joined(old(fd.bytes), [STAR], crcBuf, lenBuf, buf);
    }
  }

  lemma Joined(a: seq<Byte>, b: seq<Byte>, c: seq<Byte>, d: seq<Byte>, e: seq<Byte>)
    ensures a + b + c + d + e == a + (b + c + d + e)
  {
  }

  class CheckedLogReader {
    const fd: FdIOClient
    const crc: Crc
    /** Whether chars are signed. */
    const signed: bool
    var curOffset: nat
    /** The contents of the caller's buffer. */
    var buf: seq<Byte>

    ghost predicate Valid()
      reads this, fd
    {
      fd.Valid() && (curOffset == fd.pos || curOffset < fd.pos == |fd.bytes|)
    }

    /** Behind a torn header the file is at its end, but the offset is not. */
    predicate AtTornEnd()
      reads this, fd
    {
      curOffset != fd.pos
    }

    constructor (fd: FdIOClient, crc: Crc, signed: bool)
      requires fd.pos == 0
      ensures Valid() && !AtTornEnd() && this.fd == fd && this.crc == crc && this.signed == signed
    {
      this.fd, this.crc, this.signed := fd, crc, signed;
      curOffset, buf := 0, [];
    }

    method ReadRecord() returns (status: Status)
      requires Valid()
      modifies this, fd`pos
      ensures Valid()
      ensures if old(AtTornEnd()) then status == BadCrc && AtTornEnd() && curOffset == old(curOffset)
              else
                var r := Read(fd.bytes, old(curOffset), crc, signed);
                && status == r.0 && curOffset == r.2
                && (status.NoErr? || status.Ignored? ==> buf == r.1 && !AtTornEnd())
      ensures status.NoErr? || status.Ignored? ==>
        && Lies(fd.bytes, old(curOffset), buf, crc, signed) && curOffset == old(curOffset) + 9 + |buf|
        && (status.Ignored? <==> fd.bytes[old(curOffset)] == 33)
      ensures !old(AtTornEnd()) && (exists body :: Lies(fd.bytes, old(curOffset), body, crc, signed)) ==>
        status.NoErr? || status.Ignored?
    {
      hide LengthOf, Matches, Lies;
      if curOffset < |fd.bytes| {
        ReadExactly(fd.bytes, curOffset, crc, signed);
      } else {
        NothingLies(fd.bytes, curOffset, crc, signed);
      }
      var size := |fd.bytes|;
      if curOffset == size {
        return End;
      }
      var cc, ignore := fd.Read(1);
      if cc != 1 {
        return BadCrc;
      }
      curOffset := curOffset + 1;
      var crcBuf;
      cc, crcBuf := fd.Read(4);
      if cc != 4 {
        return BadCrc;
      }
      curOffset := curOffset + 4;
      var lenBuf;
      cc, lenBuf := fd.Read(4);
      if cc != 4 {
        return BadCrc;
      }
      curOffset := curOffset + 4;
      var len := LengthOf(lenBuf, signed);
      if len > size - curOffset {
        return BadCrc;
      }
      if len < 0 {
        return Undefined;
      }
      cc, buf := fd.Read(len);
      curOffset := curOffset + cc;
      if cc != len {
        return BadCrc;
      }
      if !Matches(crc, lenBuf, buf, crcBuf) {
        return BadCrc;
      }
      status := MarkStatus(ignore[0]);
    }
  }
}
