/** Buffered reading and writing: io/BufferedIO.cc.

    The two ends of a connection are `Source`, which hands out the peer's bytes in
    pieces of any size, and `Sink`, which takes pieces of any size.  Either may fail at
    any time unless it is `reliable`.  `Source.remaining` is everything the peer will
    still send. */
module BufferedIO {
  import opened Util
  import opened PrintfScan
  import opened PrintfArgs
  import opened PrintfFormat
  import opened PrintfOutput
  import opened PrintfText
  import opened StreamBuffer

  const READ_AHEAD: nat := 256
  const DEFAULT_BUFSIZE: nat := 1024
  const DEFAULT_FLUSH_LIMIT: nat := 256

  // ----- where a line ends -----

  predicate At(s: seq<char>, i: int, nl: seq<char>) {
    0 <= i <= |s| - |nl| && s[i..i + |nl|] == nl
  }

  /** The first position of `nl` at or after `i`. */
  function FindNl(s: seq<char>, nl: seq<char>, i: nat := 0): (r: Option<nat>)
    requires i <= |s|
    ensures r.Some? ==> i <= r.value && At(s, r.value, nl) && forall j :: i <= j < r.value ==> !At(s, j, nl)
    ensures r.None? ==> forall j :: i <= j ==> !At(s, j, nl)
    decreases |s| - i
  {
    if At(s, i, nl) then Some(i)
    else if i == |s| then None
    else FindNl(s, nl, i + 1)
  }

  /** The length of the first line, its newline included. */
  function LineLength(s: seq<char>, nl: seq<char>): (r: Option<nat>)
    ensures r.Some? ==> |nl| <= r.value <= |s|
  {
    match FindNl(s, nl)
    case None => None
    case Some(i) => Some(i + |nl|)
  }

  ghost predicate EndsWith(s: seq<char>, nl: seq<char>) {
    |nl| <= |s| && s[|s| - |nl|..] == nl
  }

  /** The first line is the shortest prefix that ends in the newline string. */
  lemma LineIsShortest(s: seq<char>, nl: seq<char>)
    ensures var r := LineLength(s, nl);
      && (r.Some? ==> EndsWith(s[..r.value], nl) && forall k :: 0 <= k < r.value ==> !EndsWith(s[..k], nl))
      && (r.None? ==> forall k :: 0 <= k <= |s| ==> !EndsWith(s[..k], nl))
  {
    forall k | 0 <= k <= |s| ensures EndsWith(s[..k], nl) ==> At(s, k - |nl|, nl) {
      if EndsWith(s[..k], nl) {
        assert s[..k][k - |nl|..] == s[k - |nl|..k];
      }
    }
    var r := LineLength(s, nl);
    if r.Some? {
      assert s[..r.value][r.value - |nl|..] == s[r.value - |nl|..r.value];
    }
  }

  /** More bytes behind it do not change the first line. */
  lemma LineIsStable(s: seq<char>, t: seq<char>, nl: seq<char>)
    requires LineLength(s, nl).Some?
    ensures LineLength(s + t, nl) == LineLength(s, nl)
  {
    var i := FindNl(s, nl).value;
    assert (s + t)[i..i + |nl|] == s[i..i + |nl|];
    assert At(s + t, i, nl);
    var k := FindNl(s + t, nl).value;
    if k < i {
      assert (s + t)[k..k + |nl|] == s[k..k + |nl|];
      assert At(s, k, nl);
    }
  }

  lemma AtNeedsFirst(s: seq<char>, j: int, nl: seq<char>)
    requires |nl| > 0
    ensures At(s, j, nl) ==> j < |s| && s[j] == nl[0]
  {
    if At(s, j, nl) {
      assert s[j] == s[j..j + |nl|][0];
    }
  }

  /** `find_nl`'s result: an offset, or -1. */
  function Offset(s: seq<char>, nl: seq<char>): int {
    match FindNl(s, nl)
    case None => -1
    case Some(i) => i
  }

  lemma NoLine(s: seq<char>, nl: seq<char>)
    requires Offset(s, nl) == -1
    ensures LineLength(s, nl) == None
  {
  }

  /** A line found among the first bytes is the line of the whole stream. */
  lemma LineFound(s: seq<char>, t: seq<char>, nl: seq<char>)
    requires Offset(s, nl) != -1
    ensures LineLength(s + t, nl) == Some(Offset(s, nl) + |nl|) && 0 <= Offset(s, nl) <= |s| - |nl|
    ensures var cc := Offset(s, nl) + |nl|; (s + t)[..cc] == s[..cc] && (s + t)[cc..] == s[cc..] + t
  {
    LineIsStable(s, t, nl);
  }

  /** `memchr`: the first `c` at or after `offset`. */
  method MemChr(s: seq<char>, offset: nat, c: char) returns (r: Option<nat>)
    requires offset <= |s|
    ensures r.Some? ==> offset <= r.value < |s| && s[r.value] == c && forall k :: offset <= k < r.value ==> s[k] != c
    ensures r.None? ==> forall k :: offset <= k < |s| ==> s[k] != c
  {
    for k := offset to |s|
      invariant forall l :: offset <= l < k ==> s[l] != c
    {
      if s[k] == c {
        return Some(k);
      }
    }
    return None;
  }

  // ----- the reading end -----

  class Source {
    var remaining: seq<char>
    const reliable: bool

    constructor (bytes: seq<char>, reliable: bool)
      ensures remaining == bytes && this.reliable == reliable
    {
      remaining := bytes;
      this.reliable := reliable;
    }

    /** `IOClient::read`: some bytes, or 0 at the end of the stream, or an error. */
    method Read(buf: array<char>, offset: nat, max: nat) returns (cc: int)
      requires offset + max <= buf.Length && max > 0
      modifies this, buf
      ensures cc <= max
      ensures cc > 0 ==> cc <= |old(remaining)| && remaining == old(remaining)[cc..]
                         && buf[offset..offset + cc] == old(remaining)[..cc]
      ensures cc <= 0 ==> remaining == old(remaining)
      ensures buf[..offset] == old(buf[..offset])
      ensures cc == 0 ==> remaining == []
      ensures reliable ==> cc >= 0
    {
      var want: int := *;
      if want < 0 && !reliable {
        return want;
      }
      if remaining == [] {
        return 0;
      }
      cc := if want < 1 then 1 else want;
      cc := if cc > max then max else cc;
      cc := if cc > |remaining| then |remaining| else cc;
      forall i | 0 <= i < cc {
        buf[offset + i] := remaining[i];
      }
      assert buf[offset..offset + cc] == remaining[..cc];
      remaining := remaining[cc..];
    }
  }

  class BufferedInput {
    const client: Source
    const buf: StreamBuffer
    var seenEof: bool

    ghost predicate Valid()
      reads this, buf
    {
      buf.Valid()
    }

    /** Every byte not yet handed to the caller. */
    ghost function Pending(): seq<char>
      reads this, buf, buf.buf, client
      requires Valid()
    {
      buf.Contents() + client.remaining
    }

    constructor (source: Source)
      ensures Valid() && client == source && fresh(buf) && fresh(buf.buf)
      ensures Pending() == source.remaining && !seenEof
    {
      client := source;
      buf := new StreamBuffer(DEFAULT_BUFSIZE);
      seenEof := false;
    }

    method InternalRead(len: nat) returns (cc: int)
      requires Valid() && len > buf.FullBytes()
      modifies this`seenEof, buf, buf.buf, client
      ensures Valid() && (buf.buf == old(buf.buf) || fresh(buf.buf))
      ensures Pending() == old(Pending())
      ensures cc > 0 ==> cc == (if buf.FullBytes() < len then buf.FullBytes() else len)
                         && |client.remaining| < |old(client.remaining)| && seenEof == old(seenEof)
      ensures cc <= 0 ==> buf.Contents() == old(buf.Contents()) && client.remaining == old(client.remaining)
      ensures cc == 0 ==> client.remaining == [] && seenEof
      ensures client.reliable ==> cc >= 0
    {
      buf.Reserve(len);
      ghost var before := buf.buf[..buf.end];
      cc := client.Read(buf.buf, buf.end, buf.TailBytes());
      assert buf.Contents() == before[buf.start..];
      if cc == 0 {
        seenEof := true;
        return;
      } else if cc < 0 {
        return;
      }
      SplitAt(old(client.remaining), cc);
      buf.Fill(cc);
      assert buf.Contents() == before[buf.start..] + old(client.remaining)[..cc];
      cc := if buf.FullBytes() < len then buf.FullBytes() else len;
    }

    /** Hops from one first newline character to the next. */
    method FindNewline(nl: seq<char>) returns (r: int)
      requires Valid() && |nl| > 0
      ensures r == Offset(buf.Contents(), nl)
    {
      var s := buf.buf[buf.start..buf.end];
      var offset := 0;
      while true
        invariant 0 <= offset <= |s|
        invariant forall j :: 0 <= j < offset ==> !At(s, j, nl)
        decreases |s| - offset
      {
        var found := MemChr(s, offset, nl[0]);
        ghost var stop := if found.Some? then found.value else |s|;
        forall j | offset <= j < stop ensures !At(s, j, nl) {
          AtNeedsFirst(s, j, nl);
        }
        if found.None? || |s| - found.value < |nl| {
          assert forall j :: 0 <= j ==> !At(s, j, nl);
          return -1;
        }
        offset := found.value;
        if s[offset..offset + |nl|] == nl {
          assert At(s, offset, nl);
          return offset;
        }
        offset := offset + 1;
      }
    }

    /** Hands out the first line, newline included, however its bytes arrive.  At the end of
        the stream (0) or on an error (negative) no byte is lost. */
    method ReadLine(nl: seq<char>) returns (cc: int, line: seq<char>)
      requires Valid() && |nl| > 0
      modifies this`seenEof, buf, buf.buf, client
      ensures Valid() && (buf.buf == old(buf.buf) || fresh(buf.buf))
      ensures cc > 0 ==> LineLength(old(Pending()), nl) == Some(cc)
                         && line == old(Pending())[..cc] && Pending() == old(Pending())[cc..]
      ensures cc <= 0 ==> Pending() == old(Pending()) && line == []
      ensures cc == 0 ==> LineLength(old(Pending()), nl) == None && client.remaining == []
      ensures client.reliable ==> cc >= 0
    {
      hide At, FindNl, Offset, LineLength;
      line := [];
      var endl := FindNewline(nl);
      while endl == -1
        invariant Valid() && (buf.buf == old(buf.buf) || fresh(buf.buf))
        invariant Pending() == old(Pending())
        invariant endl == Offset(buf.Contents(), nl)
        decreases |client.remaining| + (if endl == -1 then 1 else 0)
      {
        cc := InternalRead(buf.FullBytes() + READ_AHEAD);
        if cc <= 0 {
          if cc == 0 {
            NoLine(buf.Contents(), nl);
            assert Pending() == buf.Contents();
          }
          return;
        }
        endl := FindNewline(nl);
      }
      ghost var s := buf.buf[buf.start..buf.end];
      LineFound(s, client.remaining, nl);
      cc := endl + |nl|;
      line := buf.buf[buf.start..buf.end][..cc];
      buf.Consume(cc);
    }

    /** Hands out exactly `len` bytes, however they arrive. */
    method ReadBytes(len: nat) returns (cc: int, bytes: seq<char>)
      requires Valid() && len > 0
      modifies this`seenEof, buf, buf.buf, client
      ensures Valid() && (buf.buf == old(buf.buf) || fresh(buf.buf))
      ensures cc > 0 ==> cc == len <= |old(Pending())|
                         && bytes == old(Pending())[..len] && Pending() == old(Pending())[len..]
      ensures cc <= 0 ==> Pending() == old(Pending()) && bytes == []
      ensures cc == 0 ==> |old(Pending())| < len && client.remaining == []
      ensures client.reliable ==> cc >= 0
    {
      bytes := [];
      var total := buf.FullBytes();
      while total < len
        invariant Valid() && (buf.buf == old(buf.buf) || fresh(buf.buf))
        invariant Pending() == old(Pending())
        invariant total < len ==> total == buf.FullBytes()
        invariant total >= len ==> buf.FullBytes() >= len
        decreases |client.remaining| + (if total < len then 1 else 0)
      {
        cc := InternalRead(len);
        if cc <= 0 {
          assert cc == 0 ==> Pending() == buf.Contents();
          return;
        }
        total := cc;
      }
      ghost var s := buf.buf[buf.start..buf.end];
      bytes := buf.buf[buf.start..buf.end][..len];
      TakeAcross(s, client.remaining, len);
      buf.Consume(len);
      cc := len;
    }
  }

  lemma TakeAcross(s: seq<char>, t: seq<char>, i: nat)
    requires i <= |s|
    ensures (s + t)[..i] == s[..i] && (s + t)[i..] == s[i..] + t
  {
  }

  lemma SplitAt(s: seq<char>, i: nat)
    requires i <= |s|
    ensures s == s[..i] + s[i..]
  {
  }

  // ----- the writing end -----

  /** Takes bytes in pieces of any positive size. */
  class Sink {
    var sent: seq<char>
    const reliable: bool

    constructor (reliable: bool)
      ensures sent == [] && this.reliable == reliable
    {
      sent := [];
      this.reliable := reliable;
    }

    method Write(bytes: seq<char>) returns (cc: int)
      requires |bytes| > 0
      modifies this
      ensures 0 != cc <= |bytes|
      ensures cc > 0 ==> sent == old(sent) + bytes[..cc]
      ensures cc < 0 ==> sent == old(sent) && !reliable
    {
      var want: int := *;
      if want < 0 && !reliable {
        return want;
      }
      cc := if want < 1 then 1 else if want > |bytes| then |bytes| else want;
      sent := sent + bytes[..cc];
    }
  }

  /** What `vformat_buf` appends when the format makes `o` and `tail` bytes are free.  It
      reserves no room for the trailing NUL, which then replaces the last character; and it
      asserts that the formatter did not fail (None), as it does without any room. */
  function Formatted(o: Output, tail: nat): Option<seq<char>> {
    if tail == 0 || o.ret == -1 then None
    else if |o.text| < tail then Some(o.text)
    else Some(o.text[..|o.text| - 1] + ['\0'])
  }

  /** Whatever the format: its text is appended unchanged exactly if it is shorter than the
      free tail, or ends in a NUL anyway; else the NUL is there for its last character; and the
      assertion fails exactly if there is no free tail or too much text. */
  lemma FormattedExactly(fmt: seq<char>, args: seq<Arg>, tail: nat)
    ensures var text := Concat(Pieces(fmt, 0, args, 1, C_LOCALE));
      var f := Formatted(Formatting(fmt, args), tail);
      && (f == None <==> tail == 0 || |text| > INT_MAX)
      && (f == Some(text) <==>
            tail > 0 && |text| <= INT_MAX && (|text| < tail || text[|text| - 1] == '\0'))
      && (0 < tail <= |text| <= INT_MAX ==> f == Some(text[..|text| - 1] + ['\0']))
  {
    hide Pieces, Printed;
    var ps := Pieces(fmt, 0, args, 1, C_LOCALE);
    var text := Concat(ps);
    PrintedMeaning("", ps);
    assert "" + text == text;
    if |text| <= INT_MAX && 0 < tail <= |text| {
      assert text == text[..|text| - 1] + [text[|text| - 1]];
    }
  }

  /** A text that fits is put there as it is. */
  lemma FormattedFits(fmt: seq<char>, args: seq<Arg>, text: seq<char>, tail: nat,
                      written: seq<char>, written': seq<char>, len: int)
    requires Prints(fmt, args, text) && |text| < tail
    requires Puts(written, Formatting(fmt, args), tail, written', len)
    ensures len == |text| && written' == written + text
  {
  }

  lemma PrintsIs(fmt: seq<char>, args: seq<Arg>, text: seq<char>)
    requires Prints(fmt, args, text)
    ensures Callable(fmt, args) && |Formatting(fmt, args).text| == |text|
  {
  }

  class BufferedOutput {
    const client: Sink
    const buf: StreamBuffer
    var flushLimit: nat

    ghost predicate Valid()
      reads this, buf
    {
      buf.Valid()
    }

    /** Every byte the caller has written, in order. */
    ghost function Written(): seq<char>
      reads this, buf, buf.buf, client
      requires Valid()
    {
      client.sent + buf.Contents()
    }

    constructor (sink: Sink)
      ensures Valid() && client == sink && fresh(buf) && fresh(buf.buf)
      ensures Written() == sink.sent && buf.Contents() == [] && buf.TailBytes() == DEFAULT_BUFSIZE
    {
      client := sink;
      buf := new StreamBuffer(DEFAULT_BUFSIZE);
      flushLimit := DEFAULT_FLUSH_LIMIT;
    }

    /** Writes out all buffered bytes, in as many pieces as it takes. */
    method Flush() returns (total: int)
      requires Valid()
      modifies buf`start, buf`end, client
      ensures Valid() && Written() == old(Written())
      ensures total >= 0 ==> buf.Contents() == [] && total == |old(buf.Contents())| && buf.end == 0
      ensures client.reliable ==> total >= 0
      ensures buf.end <= old(buf.end)
    {
      total := 0;
      while buf.FullBytes() > 0
        invariant Valid() && Written() == old(Written())
        invariant total + buf.FullBytes() == |old(buf.Contents())| && total >= 0
        invariant buf.end <= old(buf.end)
        decreases buf.FullBytes()
      {
        ghost var sent, data := client.sent, buf.buf[buf.start..buf.end];
        var cc := client.Write(buf.buf[buf.start..buf.end]);
        if cc < 0 {
          return cc;
        }
        SplitBehind(sent, data, cc);
        buf.Consume(cc);
        total := total + cc;
      }
    }

    /** Appends to the buffer and flushes it when it has grown past the limit. */
    method Write(bytes: seq<char>) returns (len: nat)
      requires Valid()
      modifies buf, buf.buf, client
      ensures Valid() && (buf.buf == old(buf.buf) || fresh(buf.buf))
      ensures Written() == old(Written()) + bytes && len == |bytes|
      ensures buf.buf.Length >= old(buf.buf.Length)
    {
      buf.Reserve(|bytes|);
      buf.Append(bytes);
      if flushLimit > 0 && buf.FullBytes() > flushLimit {
        var _ := Flush();
      }
      len := |bytes|;
    }

    /** `log_vsnprintf` into so many bytes, on memory of its own, and what it put there. */
    method FormatTail(fmt: seq<char>, args: seq<Arg>, size: nat) returns (len: int, text: seq<char>)
      requires Callable(fmt, args)
      ensures Stored(Formatting(fmt, args), size, len, text)
    {
      hide Supported, Passed, Pieces, Printed;
      var str := new char[size];
      len := Vsnprintf(str, size, fmt, args, C_LOCALE);
      text := [];
      if size > 0 {
        var n := if 0 <= len < size then len else size - 1;
        StoredIs(str[..], n);
        text := if 0 <= len < size then str[..len] else str[..size];
      }
    }

    /** Puts a text at the end of the buffer, for which there is room, and flushes the buffer
        when it has grown past the limit. */
    method AppendText(text: seq<char>)
      requires Valid() && |text| <= buf.TailBytes()
      modifies buf`start, buf`end, buf.buf, client
      ensures Valid() && Written() == old(Written()) + text && buf.end <= old(buf.end) + |text|
    {
      buf.Append(text);
      if flushLimit > 0 && buf.FullBytes() > flushLimit {
        var _ := Flush();
      }
    }

    /** `vformat_buf`; -1 stands for the failing assertion. */
    method FormatBuf(fmt: seq<char>, args: seq<Arg>) returns (len: int)
      requires Valid() && Callable(fmt, args)
      modifies buf, buf.buf, client
      ensures Valid() && (buf.buf == old(buf.buf) || fresh(buf.buf))
      ensures Puts(old(Written()), Formatting(fmt, args), old(buf.TailBytes()), Written(), len)
      ensures buf.buf.Length >= old(buf.buf.Length)
      ensures buf.end <= old(buf.end) + |Formatting(fmt, args).text|
    {
      hide Formatting, Callable, Stored, Puts, StreamBuffer.Contents;
      ghost var o, written := Formatting(fmt, args), Written();
      var nfree := buf.TailBytes();
      var text;
      len, text := FormatTail(fmt, args, nfree);
      StoredOnce(o, nfree, len, text, written);
      if len == -1 {
        return;
      }
      if len >= nfree {
        buf.Reserve(len);
        len, text := FormatTail(fmt, args, len);
        StoredTwice(o, nfree, len, text, written);
      }
      AppendText(text);
    }

    /** `printf`: formats and flushes; a failing flush goes unreported. */
    method Printf(fmt: seq<char>, args: seq<Arg>) returns (len: int)
      requires Valid() && Callable(fmt, args)
      modifies buf, buf.buf, client
      ensures Valid() && (buf.buf == old(buf.buf) || fresh(buf.buf))
      ensures Puts(old(Written()), Formatting(fmt, args), old(buf.TailBytes()), Written(), len)
      ensures buf.buf.Length >= old(buf.buf.Length)
      ensures client.reliable && len != -1 ==> buf.Contents() == [] && buf.end == 0
    {
      hide Formatting, Callable, Puts;
      len := FormatBuf(fmt, args);
      if len != -1 {
        var _ := Flush();
      }
    }
  }

  /** What `log_vsnprintf` leaves in `size` bytes, the NUL behind a text that fits aside. */
  ghost predicate Stored(o: Output, size: nat, len: int, text: seq<char>) {
    if size == 0 then len == -1
    else
      && len == o.ret
      && (0 <= len < size ==> text == o.text)
      && (len == size == |o.text| ==> text == o.text[..size - 1] + ['\0'])
  }

  /** The text is appended that `Formatted` says, and the length of the whole is the result. */
  ghost predicate Puts(written: seq<char>, o: Output, tail: nat, written': seq<char>, len: int) {
    match Formatted(o, tail)
    case None => len == -1 && written' == written
    case Some(text) => len == |o.text| && written' == written + text
  }

  lemma StoredOnce(o: Output, size: nat, len: int, text: seq<char>, written: seq<char>)
    requires Stored(o, size, len, text) && (o.ret == -1 || o.ret == |o.text|)
    ensures len == -1 || (0 <= len == |o.text| == o.ret && size > 0)
    ensures len == -1 ==> Puts(written, o, size, written, len)
    ensures 0 <= len < size ==> |text| == len && Puts(written, o, size, written + text, len)
  {
  }

  /** The second attempt has as many bytes as the text, without the NUL. */
  lemma StoredTwice(o: Output, tail: nat, len: int, text: seq<char>, written: seq<char>)
    requires 0 < tail <= |o.text| && o.ret == |o.text| && Stored(o, |o.text|, len, text)
    ensures len == |o.text| == |text| && Puts(written, o, tail, written + text, len)
  {
  }

  lemma StoredIs(str: seq<char>, n: nat)
    requires n < |str|
    ensures str[..n + 1] == str[..n] + [str[n]]
  {
  }

  lemma SplitBehind(t: seq<char>, s: seq<char>, i: nat)
    requires i <= |s|
    ensures t + s == (t + s[..i]) + s[i..]
  {
  }

  // ----- any sequence of reads -----

  datatype Request = Line(nl: seq<char>) | Bytes(len: nat) {
    predicate Valid() { if Line? then |nl| > 0 else len > 0 }

    /** How many of the pending bytes the request takes; none if it cannot be met. */
    function Size(pending: seq<char>): (r: Option<nat>)
      ensures r.Some? ==> r.value <= |pending|
    {
      match this
      case Line(nl) => LineLength(pending, nl)
      case Bytes(len) => if len <= |pending| then Some(len) else None
    }
  }

  /** What a caller gets from the whole stream, up to the first request that cannot be met. */
  function Answers(requests: seq<Request>, stream: seq<char>): seq<seq<char>> {
    if requests == [] then []
    else
      match requests[0].Size(stream)
      case None => []
      case Some(n) => [stream[..n]] + Answers(requests[1..], stream[n..])
  }

  lemma {:induction false} ConcatSnoc(parts: seq<seq<char>>, last: seq<char>)
    ensures Concat(parts + [last]) == Concat(parts) + last
  {
    if parts == [] {
      assert [last][1..] == [];
    } else {
      assert (parts + [last])[1..] == parts[1..] + [last];
      ConcatSnoc(parts[1..], last);
    }
  }

  /** The answers are the stream itself, cut into pieces. */
  lemma {:induction false} AnswersArePrefix(requests: seq<Request>, stream: seq<char>)
    ensures Concat(Answers(requests, stream)) <= stream
  {
    if requests != [] && requests[0].Size(stream).Some? {
      var n := requests[0].Size(stream).value;
      AnswersArePrefix(requests[1..], stream[n..]);
      assert Answers(requests, stream)[1..] == Answers(requests[1..], stream[n..]);
      assert stream == stream[..n] + stream[n..];
    }
  }

  /** A caller's reads, in any mix, get answers that depend on the stream alone, not on how
      its bytes arrive.  Without an error they are all of `Answers`; nothing is lost either way. */
  method ServeAll(input: BufferedInput, requests: seq<Request>) returns (answers: seq<seq<char>>, failed: bool)
    requires input.Valid() && forall i :: 0 <= i < |requests| ==> requests[i].Valid()
    modifies input`seenEof, input.buf, input.buf.buf, input.client
    ensures input.Valid()
    ensures answers <= Answers(requests, old(input.Pending()))
    ensures !failed ==> answers == Answers(requests, old(input.Pending()))
    ensures Concat(answers) + input.Pending() == old(input.Pending())
  {
    hide Answers, Concat, Request.Size, Request.Valid;
    answers, failed := [], false;
    AnswersDone(input.Pending());
    ghost var stream := input.Pending();
    assert requests[0..] == requests;
    var k := 0;
    while k < |requests|
      invariant 0 <= k <= |requests|
      invariant input.Valid() && (input.buf.buf == old(input.buf.buf) || fresh(input.buf.buf))
      invariant Concat(answers) + input.Pending() == stream
      invariant Answers(requests, stream) == answers + Answers(requests[k..], input.Pending())
    {
      ghost var pending := input.Pending();
      var cc, part := ServeOne(input, requests[k]);
      AnswersStep(requests, k, pending);
      if cc <= 0 {
        assert answers + [] == answers;
        failed := cc < 0;
        return;
      }
      ConcatSnoc(answers, part);
      ConcatShift(answers, part, input.Pending());
      SeqShift(answers, part, Answers(requests[k + 1..], input.Pending()));
      answers := answers + [part];
      k := k + 1;
    }
    assert requests[k..] == [] && answers + [] == answers;
    AnswersDone(input.Pending());
  }

  method ServeOne(input: BufferedInput, request: Request) returns (cc: int, part: seq<char>)
    requires input.Valid() && request.Valid()
    modifies input`seenEof, input.buf, input.buf.buf, input.client
    ensures input.Valid() && (input.buf.buf == old(input.buf.buf) || fresh(input.buf.buf))
    ensures cc > 0 ==> request.Size(old(input.Pending())) == Some(cc)
                       && part == old(input.Pending())[..cc] && input.Pending() == old(input.Pending())[cc..]
                       && old(input.Pending()) == part + input.Pending()
    ensures cc <= 0 ==> input.Pending() == old(input.Pending())
    ensures cc == 0 ==> request.Size(old(input.Pending())) == None
  {
    hide LineLength;
    match request {
      case Line(nl) => cc, part := input.ReadLine(nl);
      case Bytes(len) => cc, part := input.ReadBytes(len);
    }
    if cc > 0 {
      SplitAt(old(input.Pending()), cc);
    }
  }

  lemma ConcatShift(answers: seq<seq<char>>, part: seq<char>, rest: seq<char>)
    ensures Concat(answers) + part + rest == Concat(answers) + (part + rest)
  {
  }

  lemma SeqShift(answers: seq<seq<char>>, part: seq<char>, rest: seq<seq<char>>)
    ensures answers + [part] + rest == answers + ([part] + rest)
  {
  }

  lemma AnswersDone(stream: seq<char>)
    ensures Answers([], stream) == [] && Concat([]) == []
  {
  }

  lemma AnswersStep(requests: seq<Request>, k: nat, stream: seq<char>)
    requires k < |requests|
    ensures Answers(requests[k..], stream) ==
      match requests[k].Size(stream)
      case None => []
      case Some(n) => [stream[..n]] + Answers(requests[k + 1..], stream[n..])
  {
    assert requests[k..][1..] == requests[k + 1..];
  }
}
