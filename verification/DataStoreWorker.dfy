/** The worker object of storage/DataStoreProxy.cc: messages on the connection are framed by
    their length, and each pass of the loop is a run of the system's steps. */
module DataStoreWorker {
  import opened Util
  import opened PrintfScan
  import opened PrintfArgs
  import opened PrintfFormat
  import opened PrintfOutput
  import opened PrintfText
  import PrintfDigits
  import PrintfLaws
  import opened DataStoreProxy

  // ----- framing -----

  const LENGTH_FORMAT := "%08zu"

  function LengthArgs(n: nat): seq<Arg> { [Arg(SizeT, Num(n))] }

  /** What the format makes of a length. */
  function Header(n: nat): string { Formatting(LENGTH_FORMAT, LengthArgs(n)).text }

  function Frame(body: string): string { Header(|body|) + body }

  predicate IsSpace(c: char) {
    c == ' ' || '\t' <= c <= '\r'
  }

  function Atol(s: string): int {
    if s != "" && IsSpace(s[0]) then Atol(s[1..]) else Read(s)
  }

  const LENGTH := 8

  /** Reads one message: its text, if all of it arrives, and what is left of the input. */
  function ReadFrame(input: string): (r: (Option<string>, string))
    ensures |r.1| <= |input|
  {
    if |input| < LENGTH then (None, "")
    else
      var len, rest := Atol(input[..LENGTH]), input[LENGTH..];
      if len < 0 then (None, rest)
      else if |rest| < len then (None, "")
      else (Some(rest[..len]), rest[len..])
  }

  /** A size_t in decimal digits. */
  function Length64(n: nat): string { PrintfLaws.Numeral(n % PrintfDigits.LIMIT) }

  /** The length in decimal digits, with zeros in front up to eight characters. */
  lemma HeaderPrints(n: nat)
    ensures var d := Length64(n);
      Header(n) == PrintfLaws.Zeros(8 - |d|) + d && Prints(LENGTH_FORMAT, LengthArgs(n), Header(n))
  {
    hide *;
    var w, d := PrintfLaws.Given(8), Length64(n);
    var text := PrintfLaws.Zeros(8 - |d|) + d;
    FormatIs(n);
    HeaderMeans(n);
    HeaderLength(n);
    Surrounded(text);
    PrintfLaws.SpecPrints("", 0, "0", w, None, "z", 'u', "", LengthArgs(n), C_LOCALE);
    Surrounded(PrintfLaws.Whole(0, "0", w, None, "z", 'u'));
    PrintsText(LENGTH_FORMAT, LengthArgs(n), text);
    HeaderText(n);
  }

  lemma Surrounded(s: string)
    ensures "" + s + "" == s
  {
  }

  lemma HeaderText(n: nat)
    ensures Header(n) == Formatting(LENGTH_FORMAT, LengthArgs(n)).text
  {
  }

  lemma PrintsText(fmt: string, args: seq<Arg>, text: string)
    requires Prints(fmt, args, text)
    ensures Formatting(fmt, args).text == text
  {
  }

  lemma FormattingIs(fmt: string, args: seq<Arg>, text: string)
    requires Prints(fmt, args, text)
    ensures Supported(fmt, 0, None) && Passed(fmt, args)
    ensures Printed("", Pieces(fmt, 0, args, 1, C_LOCALE)) == Output(text, |text|)
  {
  }

  lemma FormatIs(n: nat)
    ensures var w, args := PrintfLaws.Given(8), LengthArgs(n);
      && PrintfLaws.Whole(0, "0", w, None, "z", 'u') == LENGTH_FORMAT && Literal("")
      && PrintfLaws.Flags("0") && PrintfLaws.Converts('u', "z") && PrintfLaws.TakenAt(args, PrintfLaws.FirstUse(0), w, None)
      && PrintfLaws.Converted(0, w, None) == 1 && args[0].value == Num(n)
      && PrintfLaws.RightTypes(args, 1, FetchType('u', PrintfLaws.ModsOf("z")))
      && PrintfLaws.FlagsFor("0", w) == "0" && PrintfLaws.WidthFor(w) == 8 && PrintfLaws.PrecFor(None) == None
  {
    assert PrintfLaws.Numeral(8) == "8";
  }

  lemma HeaderMeans(n: nat)
    ensures var d := Length64(n);
      PrintfLaws.Meaning('u', Num(n), "0", 8, None, "z", C_LOCALE) == PrintfLaws.Zeros(8 - |d|) + d
  {
    hide PrintfDigits.Digits, PrintfLaws.Zeros, PrintfLaws.Blanks;
    var d := Length64(n);
    assert "" + d == d && "" + PrintfLaws.Zeros(8 - |d|) == PrintfLaws.Zeros(8 - |d|);
  }

  lemma HeaderLength(n: nat)
    ensures var d := Length64(n); |PrintfLaws.Zeros(8 - |d|) + d| == Max(8, |d|) <= 64 <= INT_MAX
  {
    hide PrintfDigits.Digits, PrintfLaws.Zeros;
    PrintfLaws.Lengths(8 - |Length64(n)|);
    PrintfDigits.Fits(n % PrintfDigits.LIMIT);
  }

  lemma HeaderIs(n: nat)
    requires n < PrintfDigits.LIMIT
    ensures var d := PrintfDigits.Digits(n, 10, PrintfDigits.LOWER);
      && |Header(n)| == Max(8, |d|)
      && AllDigits(Header(n)) && ReadDigits(Header(n), 0) == n
  {
    hide *;
    var d := Length64(n);
    SmallLength(n);
    HeaderPrints(n);
    HeaderLength(n);
    PrintfLaws.RepeatIs(8 - |d|);
    PrintfLaws.RepeatIs(0);
    PrintfLaws.NoZeros(0);
    ReadPadded(8 - |d|, 0, n, d);
    Middle(PrintfLaws.Zeros(8 - |d|), d);
  }

  lemma SmallLength(n: nat)
    requires n < PrintfDigits.LIMIT
    ensures Length64(n) == PrintfDigits.Digits(n, 10, PrintfDigits.LOWER)
  {
    hide PrintfDigits.Digits;
    assert n % PrintfDigits.LIMIT == n;
  }

  lemma Middle(a: string, b: string)
    ensures a + "" + b == a + b
  {
  }

  lemma {:induction false} ReadBelow(s: string, n: nat)
    requires AllDigits(s)
    ensures ReadDigits(s, n) < (n + 1) * PrintfDigits.Pow(10, |s|)
    decreases |s|
  {
    if s != "" {
      ReadBelow(s[1..], 10 * n + ToDigit(s[0]));
      Tenfold(n, ToDigit(s[0]), PrintfDigits.Pow(10, |s| - 1));
    }
  }

  lemma Tenfold(n: nat, d: nat, p: nat)
    requires d < 10
    ensures (10 * n + d + 1) * p <= (n + 1) * (10 * p)
  {
    assert (n + 1) * (10 * p) == (10 * n + 10) * p;
    assert (10 * n + 10) * p == (10 * n + d + 1) * p + (9 - d) * p;
  }

  const LENGTH_LIMIT: nat := 100_000_000

  lemma EightDigits(s: string)
    requires AllDigits(s) && |s| == 8
    ensures Atol(s) == ReadDigits(s, 0) < LENGTH_LIMIT
  {
    ReadBelow(s, 0);
    assert PrintfDigits.Pow(10, 8) == LENGTH_LIMIT by {
      assert PrintfDigits.Pow(10, 4) == 10000;
    }
    assert IsDigit(s[0]);
  }

  lemma {:induction false} DigitsNeeded(v: nat, n: nat)
    requires v >= PrintfDigits.Pow(10, n)
    ensures |PrintfDigits.Digits(v, 10, PrintfDigits.LOWER)| > n
    decreases n
  {
    if n > 0 {
      PrintfDigits.DigitsStep(v, 10, PrintfDigits.LOWER, "");
      PowPositive(n - 1);
      QuotientAbove(v, PrintfDigits.Pow(10, n - 1));
      DigitsNeeded(v / 10, n - 1);
    }
  }

  lemma PowPositive(n: nat)
    ensures PrintfDigits.Pow(10, n) > 0
  {
  }

  lemma QuotientAbove(v: nat, p: nat)
    requires v >= 10 * p && p > 0
    ensures v / 10 >= p && v / 10 != 0
  {
  }

  /** A message comes back, and what follows is untouched, exactly if its length has at most
      eight digits. */
  lemma FrameComesBack(body: string, rest: string)
    requires |body| < PrintfDigits.LIMIT
    ensures ReadFrame(Frame(body) + rest) == (Some(body), rest) <==> |body| < LENGTH_LIMIT
  {
    hide PrintfDigits.Digits, PrintfDigits.Pow, Header, Atol, ReadDigits;
    var n := |body|;
    var h := Header(n);
    var input := Frame(body) + rest;
    HeaderIs(n);
    if n < LENGTH_LIMIT {
      PowEight();
      PrintfDigits.DigitsFit(n, 10, PrintfDigits.LOWER, 8);
      EightDigits(h);
      assert input[..LENGTH] == h && input[LENGTH..] == body + rest;
    } else {
      PowEight();
      DigitsNeeded(n, 8);
      assert input[..LENGTH] == h[..8];
      EightDigits(h[..8]);
    }
  }

  lemma PowEight()
    ensures PrintfDigits.Pow(10, 8) == LENGTH_LIMIT
  {
    assert PrintfDigits.Pow(10, 4) == 10000;
  }

  function Frames(bodies: seq<string>): string {
    if bodies == [] then "" else Frame(bodies[0]) + Frames(bodies[1..])
  }

  /** Reads `n` messages. */
  function ReadFrames(input: string, n: nat): (seq<Option<string>>, string)
    decreases n
  {
    if n == 0 then ([], input)
    else
      var (body, rest) := ReadFrame(input);
      var (bodies, end) := ReadFrames(rest, n - 1);
      ([body] + bodies, end)
  }

  function Each(bodies: seq<string>): seq<Option<string>> {
    if bodies == [] then [] else [Some(bodies[0])] + Each(bodies[1..])
  }

  /** A stream of messages is read message by message, to its end. */
  lemma {:induction false} FramesComeBack(bodies: seq<string>, rest: string)
    requires forall b :: b in bodies ==> |b| < LENGTH_LIMIT
    ensures ReadFrames(Frames(bodies) + rest, |bodies|)
            == (Each(bodies), rest)
    decreases |bodies|
  {
    hide ReadFrame, Frame;
    if bodies == [] {
      assert Frames(bodies) + rest == rest;
    } else {
      assert Frames(bodies) + rest == Frame(bodies[0]) + (Frames(bodies[1..]) + rest);
      FrameComesBack(bodies[0], Frames(bodies[1..]) + rest);
      FramesComeBack(bodies[1..], rest);
    }
  }

  // ----- the connection -----

  /** A connection whose peer sends `input` and then ends it. */
  class Connection {
    var input: string
    var output: string

    /** readall: everything that was asked for, or nothing. */
    method ReadAll(n: nat) returns (l: nat, buf: string)
      modifies `input
      ensures if n <= |old(input)| then l == n && buf == old(input)[..n] && input == old(input)[n..]
              else l != n && input == ""
    {
      if n <= |input| {
        l, buf := n, input[..n];
        input := input[n..];
      } else {
        l, buf := 0, "";
        input := "";
      }
    }

    /** writeall */
    method WriteAll(buf: string)
      modifies `output
      ensures output == old(output) + buf
    {
      output := output + buf;
    }
  }

  /** A request queued by a client that waits for it. */
  class RequestReply {
    const request: string
    var cookie: string
    var reply: Option<Reply>
    /** How often the client was notified. */
    var wakes: nat

    constructor (request: string)
      ensures this.request == request && reply == None && wakes == 0 && cookie == ""
    {
      this.request, cookie, reply, wakes := request, "", None, 0;
    }
  }

  /** What `poll_multiple` came back with, and whether someone asked the worker to stop in the
      meantime. */
  datatype Wakeup = Wakeup(stopped: bool, failed: bool, event: bool, sock: bool)

  /** The messages of the server, parsed; and the printed form of a request with its cookie. */
  datatype Format = Format(parse: string -> Option<Reply>, render: (string, string) -> string)

  function ReadReply(input: string, parse: string -> Option<Reply>): (Option<Reply>, string) {
    var (body, rest) := ReadFrame(input);
    (if body.Some? then parse(body.value) else None, rest)
  }

  /** The input begins with this message. */
  ghost predicate Framed(input: string, body: string, rest: string) {
    |body| < LENGTH_LIMIT && input == Frame(body) + rest
  }

  /** A message is read, and parsed, and what follows is untouched. */
  lemma ReplyRead(input: string, body: string, rest: string, parse: string -> Option<Reply>)
    requires Framed(input, body, rest)
    ensures ReadReply(input, parse) == (parse(body), rest)
  {
    hide ReadFrame, Frame;
    FrameBound();
    FrameComesBack(body, rest);
  }

  lemma FrameBound()
    ensures LENGTH_LIMIT <= PrintfDigits.LIMIT
  {
  }

  lemma AnyReplyRead(input: string, parse: string -> Option<Reply>)
    ensures forall body: string, rest: string :: Framed(input, body, rest) ==>
      ReadReply(input, parse) == (parse(body), rest)
  {
    hide Framed, ReadReply;
    forall body: string, rest: string | Framed(input, body, rest) ensures ReadReply(input, parse) == (parse(body), rest) {
      ReplyRead(input, body, rest, parse);
    }
  }

  /** A message that is cut off is no reply, and its part is gone. */
  lemma TornReply(body: string, n: nat, parse: string -> Option<Reply>)
    requires |body| < LENGTH_LIMIT && n < |Frame(body)|
    ensures ReadReply(Frame(body)[..n], parse) == (None, "")
  {
    hide Header, Atol, PrintfDigits.Digits;
    FrameBound();
    ShortHeader(|body|);
    var input, h := Frame(body)[..n], Header(|body|);
    if n >= LENGTH {
      assert input[..LENGTH] == h && |input[LENGTH..]| < |body|;
    }
  }

  /** The header of such a message has eight characters, which are read as its length. */
  lemma ShortHeader(n: nat)
    requires n < LENGTH_LIMIT
    ensures |Header(n)| == LENGTH && Atol(Header(n)) == n
  {
    hide PrintfDigits.Digits, PrintfDigits.Pow, Header, Atol, ReadDigits;
    FrameBound();
    HeaderIs(n);
    PowEight();
    PrintfDigits.DigitsFit(n, 10, PrintfDigits.LOWER, 8);
    EightDigits(Header(n));
  }

  /** A request that nothing has happened to. */
  ghost predicate New(r: RequestReply)
    reads r
  {
    r.reply == None && r.wakes == 0
  }

  /** A popped request holds its cookie, its answer, and a wake-up if it was notified. */
  ghost predicate Mirrors(r: RequestReply, s: Sys<RequestReply>)
    reads r
  {
    && r.cookie == Given(s.number, r)
    && r.reply == LastAnswer(s.answers, r)
    && r.wakes == if r in s.notified then 1 else 0
  }

  class Worker {
    var mq: seq<RequestReply>
    var pending: map<string, RequestReply>
    var curCookie: nat
    var shouldStop: bool
    const conn: Connection
    const format: Format
    /** The state of the system. */
    ghost var sys: Sys<RequestReply>

    /** The objects hold what the system says. */
    ghost predicate Valid()
      reads this, mq, sys.number.Keys
    {
      && sys.queue == mq && sys.pending == pending && sys.counter == curCookie && sys.stop == shouldStop
      && Inv(sys)
      && (forall r :: r in mq ==> New(r))
      && (forall r :: r in sys.number ==> Mirrors(r, sys))
    }

    lemma Sound()
      requires Valid()
      ensures Inv(sys) && sys.queue == mq
    {
    }

    lemma Unfold()
      requires Valid()
      ensures sys.queue == mq && sys.pending == pending && sys.counter == curCookie && sys.stop == shouldStop
      ensures Inv(sys)
      ensures forall r :: r in mq ==> New(r)
      ensures forall r :: r in sys.number ==> Mirrors(r, sys)
    {
    }

    constructor (conn: Connection, format: Format)
      ensures Valid() && sys == Start() && this.conn == conn && this.format == format
    {
      this.conn, this.format := conn, format;
      mq, pending, curCookie, shouldStop := [], map[], 0, false;
      sys := Start();
      new;
      StartIsFine(sys);
    }

    /** gen_cookie */
    method GenCookie() returns (cookie: string)
      modifies `curCookie
      ensures curCookie == Next(old(curCookie)) && cookie == Cookie(curCookie)
    {
      curCookie := Next(curCookie);
      cookie := "asynch-" + PrintfDigits.Digits(curCookie, 10, PrintfDigits.LOWER);
    }

    /** `appendf` of the length to an empty string buffer. */
    method PrintLength(n: nat) returns (len: string)
      ensures len == Header(n)
    {
      hide Prints, Formatting, Supported, Passed, Pieces, Printed, PrintfDigits.Digits, PrintfLaws.Zeros, Length64;
      HeaderPrints(n);
      HeaderLength(n);
      FormattingIs(LENGTH_FORMAT, LengthArgs(n), Header(n));
      var str := new char[256];
      var ret := Vsnprintf(str, 256, LENGTH_FORMAT, LengthArgs(n), C_LOCALE);
      len := str[..ret];
    }

    method Send(request: string)
      modifies conn`output
      ensures conn.output == old(conn.output) + Frame(request)
    {
      hide Header;
      var len := PrintLength(|request|);
      conn.WriteAll(len);
      conn.WriteAll(request);
    }

    method Recv() returns (reply: Option<Reply>)
      modifies conn`input
      ensures (reply, conn.input) == ReadReply(old(conn.input), format.parse)
      ensures forall body: string, rest: string :: Framed(old(conn.input), body, rest) ==>
        reply == format.parse(body) && conn.input == rest
    {
      AnyReplyRead(conn.input, format.parse);
      hide Framed;
      var l, lenchars := conn.ReadAll(LENGTH);
      if l != LENGTH {
        return None;
      }
      var len := Atol(lenchars);
      if len < 0 {
        return None;
      }
      var buf;
      l, buf := conn.ReadAll(len);
      if l != len {
        return None;
      }
      reply := format.parse(buf);
    }

    /** The request at the head of the queue gets a cookie and is noted as pending. */
    method Take() returns (event: RequestReply)
      requires mq != []
      modifies this`mq, this`pending, this`curCookie, mq[0]
      ensures old(New(mq[0])) ==> New(event)
      ensures event == old(mq)[0] && mq == old(mq)[1..]
      ensures curCookie == Next(old(curCookie)) && event.cookie == Cookie(curCookie)
      ensures pending == old(pending)[event.cookie := event]
    {
      hide Cookie;
      event := mq[0];
      mq := mq[1..];
      var cookie := GenCookie();
      event.cookie := cookie;
      pending := pending[cookie := event];
    }

    /** A request is popped, noted as pending and sent. */
    method Forward() returns (event: RequestReply)
      requires mq != []
      modifies this`mq, this`pending, this`curCookie, mq[0], conn`output
      ensures event == old(mq)[0] && mq == old(mq)[1..]
      ensures old(New(mq[0])) ==> New(event)
      ensures curCookie == Next(old(curCookie)) && event.cookie == Cookie(curCookie)
      ensures pending == old(pending)[event.cookie := event]
      ensures conn.output == old(conn.output) + Frame(format.render(event.cookie, event.request))
    {
      hide *;
      event := Take();
      Send(format.render(event.cookie, event.request));
    }

    /** The objects as they are after the head of the queue of `s` was taken. */
    ghost predicate Taken(s: Sys<RequestReply>)
      reads `mq, `pending, `curCookie, `shouldStop, s.queue, s.number.Keys
      requires s.queue != []
    {
      && New(s.queue[0]) && s.queue[0].cookie == Cookie(curCookie)
      && mq == s.queue[1..] && curCookie == Next(s.counter) && shouldStop == s.stop
      && pending == s.pending[Cookie(curCookie) := s.queue[0]]
      && (forall r :: r in s.number ==> Mirrors(r, s))
      && (forall r :: r in mq ==> New(r))
    }

    /** They mirror the new state. */
    lemma Relinked(s: Sys<RequestReply>)
      requires Inv(s) && s.pc.Popping? && s.queue != [] && |s.number| < WRAP && sys == AfterPop(s) && Taken(s)
      ensures Valid()
    {
      hide Inv, Cookie, LastAnswer, Given, AfterPop, Next;
      PopIs(s);
      PopFacts(s);
      PopFields(s);
      PopGives(s);
      forall r | r in sys.number ensures Mirrors(r, sys) {
        if r != s.queue[0] {
          assert Mirrors(r, s) && Given(sys.number, r) == Given(s.number, r);
        }
      }
    }

    /** What goes out when a request is popped off `queue` and given the number `n`. */
    function Sent(queue: seq<RequestReply>, n: nat): string {
      if queue == [] then "" else Frame(format.render(Cookie(n), queue[0].request))
    }

    /** What goes out is one message: the request with its cookie. */
    lemma SentIsRead(queue: seq<RequestReply>, n: nat, rest: string)
      requires queue != [] && |format.render(Cookie(n), queue[0].request)| < LENGTH_LIMIT
      ensures ReadFrame(Sent(queue, n) + rest) == (Some(format.render(Cookie(n), queue[0].request)), rest)
    {
      hide ReadFrame, Frame, Cookie;
      FrameBound();
      FrameComesBack(format.render(Cookie(n), queue[0].request), rest);
    }

    lemma SentIs(queue: seq<RequestReply>, n: nat)
      ensures Sent(queue, n) == if queue == [] then "" else Frame(format.render(Cookie(n), queue[0].request))
    {
    }

    method TakeNext()
      requires Valid() && sys.pc.Popping? && mq != []
      modifies this`mq, this`pending, this`curCookie, mq[0], conn`output
      ensures Taken(sys)
      ensures conn.output == old(conn.output) + Sent(old(mq), curCookie)
    {
      Unfold();
      hide Inv, Cookie, LastAnswer, Given, Next, Mirrors, Frame, Worker.Valid, Legal, After, Do, Enabled;
      PopFacts(sys);
      var event := Forward();
    }

    method PopNext()
      requires Valid() && sys.pc.Popping? && |sys.number| < WRAP && mq != []
      modifies this`mq, this`pending, this`curCookie, this`sys, mq[0], conn`output
      ensures Valid() && sys == AfterPop(old(sys))
      ensures conn.output == old(conn.output) + Sent(old(mq), curCookie)
    {
      hide Worker.Valid, Taken, Inv, Frame, Sent, AfterPop;
      ghost var s := sys;
      Sound();
      TakeNext();
      sys := AfterPop(s);
      Relinked(s);
    }

    /** What is done when the queue's descriptor fires. */
    method Pop()
      requires Valid() && sys.pc.Popping? && |sys.number| < WRAP
      modifies this`mq, this`pending, this`curCookie, this`sys, (if mq == [] then {} else {mq[0]}), conn`output
      ensures Valid() && sys == AfterPop(old(sys))
      ensures conn.output == old(conn.output) + Sent(old(mq), curCookie)
    {
      Unfold();
      hide *;
      if mq != [] {
        PopNext();
      } else {
        ghost var s := sys;
        SentIs(mq, curCookie);
        sys := AfterPop(s);
        NothingPopped(s);
      }
    }

    lemma NothingPopped(s: Sys<RequestReply>)
      requires Inv(s) && s.pc.Popping? && s.queue == [] && |s.number| < WRAP && sys == AfterPop(s)
      requires mq == [] && curCookie == s.counter && shouldStop == s.stop && pending == s.pending
      requires forall r :: r in s.number ==> Mirrors(r, s)
      ensures Valid()
    {
      hide Inv, Cookie, LastAnswer, Given, AfterPop, Next;
      PopIs(s);
      forall r | r in sys.number ensures Mirrors(r, sys) {
        assert Mirrors(r, s) && Given(sys.number, r) == Given(s.number, r);
      }
    }

    /** Stores a reply in the request that has its cookie, wakes the client, and drops it. */
    method Deliver(guy: Reply)
      requires Valid() && sys.pc.Receiving? && |sys.number| <= WRAP && guy.cookie in pending
      modifies this`pending, this`sys, pending[guy.cookie]
      ensures Valid() && sys == AfterHear(old(sys), Some(guy))
    {
      hide Inv, Cookie, LastAnswer, Given, AfterHear;
      ghost var s := sys;
      HearIs(s, Some(guy));
      var p := pending[guy.cookie];
      assert Mirrors(p, s);
      p.reply := Some(guy);
      p.wakes := p.wakes + 1;
      pending := pending - {guy.cookie};
      sys := AfterHear(s, Some(guy));
      forall r | r in sys.number ensures Mirrors(r, sys) {
        assert r != p ==> Mirrors(r, s);
        assert Given(sys.number, r) == Given(s.number, r);
      }
    }

    /** What is done when the socket fires: the reply goes to the request that has its cookie,
        if there is one. */
    method Hear() returns (ghost reply: Option<Reply>)
      requires Valid() && sys.pc.Receiving? && |sys.number| <= WRAP
      modifies this`pending, this`sys, pending.Values, conn`input
      ensures Valid() && (reply, conn.input) == ReadReply(old(conn.input), format.parse)
      ensures forall body: string, rest: string :: Framed(old(conn.input), body, rest) ==>
        reply == format.parse(body) && conn.input == rest
      ensures sys == AfterHear(old(sys), reply)
    {
      hide Inv, Cookie, LastAnswer, Given, AfterHear, ReadReply, Framed;
      var guy := Recv();
      reply := guy;
      if guy.Some? && guy.value.cookie in pending {
        hide Mirrors;
        Deliver(guy.value);
      } else {
        ghost var s := sys;
        HearIs(s, guy);
        sys := AfterHear(s, guy);
        forall r | r in sys.number ensures Mirrors(r, sys) {
          assert Mirrors(r, s);
          assert Given(sys.number, r) == Given(s.number, r);
        }
      }
    }

    /** A client queues its request (the other half of `execute`, waiting, is up to it). */
    method PushBack(request: RequestReply)
      requires Valid() && |sys.number| <= WRAP
      requires request !in mq && request !in sys.number && New(request)
      modifies this`mq, this`sys
      ensures Valid() && sys == Do(old(sys), Execute(request)) && mq == old(mq) + [request]
    {
      hide Inv, Cookie, LastAnswer;
      StepKeeps(sys, Execute(request));
      mq := mq + [request];
      ghost var s := sys;
      sys := Do(sys, Execute(request));
      forall r | r in sys.number ensures Mirrors(r, sys) {
        assert Mirrors(r, s);
      }
    }

    /** The objects mirror the state after the wake-up. */
    lemma Waited(s: Sys<RequestReply>, w: Wakeup)
      requires Inv(s) && s.pc.Top? && |s.number| <= WRAP && sys == AfterWait(s, w)
      requires mq == s.queue && pending == s.pending && curCookie == s.counter
      requires shouldStop == (s.stop || w.stopped || w.failed)
      requires (forall r :: r in mq ==> New(r)) && forall r :: r in s.number ==> Mirrors(r, s)
      ensures Valid()
    {
      hide Inv, Cookie, LastAnswer, Given, AfterWait;
      WaitIs(s, w);
      forall r | r in sys.number ensures Mirrors(r, sys) {
        assert Mirrors(r, s) && Given(sys.number, r) == Given(s.number, r);
      }
    }

    /** The head of the loop, up to the point where poll has come back with something to do. */
    method Wait(w: Wakeup) returns (leave: bool)
      requires Valid() && sys.pc.Top? && |sys.number| <= WRAP
      modifies this`shouldStop, this`sys
      ensures Valid() && sys == AfterWait(old(sys), w) && (leave <==> sys.pc.Done?)
    {
      Unfold();
      hide *;
      ghost var s := sys;
      WaitIs(s, w);
      sys := AfterWait(s, w);
      leave := false;
      if shouldStop && pending == map[] {
        Waited(s, w);
        return true;
      }
      if w.stopped {
        shouldStop := true;
      }
      if shouldStop && pending == map[] {
        Waited(s, w);
        return true;
      }
      if w.failed {
        shouldStop := true;
      }
      Waited(s, w);
    }

    /** The client whose cookie came back has its reply, and one wake-up, and is not pending. */
    lemma Delivered(s: Sys<RequestReply>, reply: Option<Reply>)
      requires Valid() && Inv(s) && s.pc.Receiving? && |s.number| <= WRAP && sys == AfterHear(s, reply)
      requires reply.Some? && reply.value.cookie in s.pending
      ensures var p := s.pending[reply.value.cookie];
        p.reply == reply && p.wakes == 1 && reply.value.cookie !in pending
    {
      hide Inv, Cookie, LastAnswer, Given, AfterHear;
      HearIs(s, reply);
      assert Mirrors(s.pending[reply.value.cookie], sys);
    }

    /** One pass of the loop: whether to leave it. */
    method RunOnce(w: Wakeup) returns (leave: bool, ghost reply: Option<Reply>)
      requires Valid() && sys.pc.Top? && |sys.number| < WRAP
      modifies this`mq, this`pending, this`curCookie, this`shouldStop, this`sys, mq, sys.number.Keys, conn
      ensures Valid() && sys == AfterPass(old(sys), w, reply)
      ensures leave <==> sys.pc.Done?
      ensures !leave ==> sys.pc.Top?
      ensures conn.output == old(conn.output)
                             + if AfterWait(old(sys), w).pc.Popping? then Sent(old(mq), curCookie) else ""
      ensures if leave || w.failed || !w.sock then reply == None && conn.input == old(conn.input)
              else (reply, conn.input) == ReadReply(old(conn.input), format.parse)
      ensures !leave && !w.failed && w.sock ==> forall body: string, rest: string ::
        Framed(old(conn.input), body, rest) ==> reply == format.parse(body) && conn.input == rest
      ensures reply.Some? && reply.value.cookie in old(pending) ==>
        var p := old(pending)[reply.value.cookie];
        p.reply == reply && p.wakes == 1 && reply.value.cookie !in pending
    {
      hide Framed, Inv, Cookie, LastAnswer, Given, AfterPop, AfterHear, ReadReply, AfterWait, Mirrors, Next, Worker.Sent;
      reply := None;
      assert conn.output + "" == conn.output;
      WaitIs(sys, w);
      leave := Wait(w);
      if leave {
        return;
      }
      if !w.failed {
        if w.event {
          PopIs(sys);
          PendingPopped(sys);
          Pop();
        }
        if w.sock {
          ghost var before := sys;
          PendingPopped(sys);
          reply := Hear();
          HearIs(before, reply);
          if reply.Some? && reply.value.cookie in before.pending {
            Delivered(before, reply);
          }
        }
      }
    }
  }

  ghost function AfterHear<Id>(s: Sys<Id>, reply: Option<Reply>): Sys<Id> {
    var s1 := Do(s, Receive(reply));
    if s1.pc.Notifying? then Do(Do(s1, Notify), Erase) else s1
  }

  lemma HearIs<Id>(s: Sys<Id>, reply: Option<Reply>)
    requires Inv(s) && s.pc.Receiving? && |s.number| <= WRAP
    ensures var s' := AfterHear(s, reply);
      && Inv(s') && s'.queue == s.queue && s'.stop == s.stop && s'.number == s.number && s'.counter == s.counter
      && s'.pc.Top?
      && (forall id :: id in s.number ==> Given(s'.number, id) == Given(s.number, id))
      && if reply.Some? && reply.value.cookie in s.pending then
           var p := s.pending[reply.value.cookie];
           && s'.pending == s.pending - {reply.value.cookie} && s'.notified == s.notified + {p}
           && p in s.number && p !in s.notified && p !in s.queue
           && forall id :: LastAnswer(s'.answers, id) == if id == p then reply else LastAnswer(s.answers, id)
         else s'.pending == s.pending && s'.answers == s.answers && s'.notified == s.notified
  {
    hide Cookie, Ticket, Next, LastAnswer, Inv;
    StepKeeps(s, Receive(reply));
    var s1 := Do(s, Receive(reply));
    if s1.pc.Notifying? {
      StepKeeps(s1, Notify);
      StepKeeps(Do(s1, Notify), Erase);
      var p := s.pending[reply.value.cookie];
      NotYetNotified(s1);
      forall id ensures LastAnswer(s1.answers, id) == if id == p then reply else LastAnswer(s.answers, id) {
        AnswerMore(s.answers, p, reply.value, id);
      }
    }
  }

  lemma NotYetNotified<Id>(s: Sys<Id>)
    requires Inv(s) && s.pc.Notifying?
    ensures s.pc.id in s.number && s.pc.id !in s.notified && s.pc.id !in s.queue
  {
    hide Cookie, LastAnswer;
  }

  /** Everything pending was popped, and was queued before. */
  lemma PendingPopped<Id>(s: Sys<Id>)
    requires Inv(s)
    ensures forall id :: id in s.pending.Values ==> id in s.number
    ensures s.pc.Popping? && |s.number| < WRAP ==> forall id :: id in AfterPop(s).number ==> id in s.number || id in s.queue
  {
    hide Cookie, LastAnswer, Numbered, AnswersFit, ClientsFit, Kept, Given;
  }

  ghost function AfterPop<Id>(s: Sys<Id>): Sys<Id> {
    Do(s, TryPop)
  }

  lemma PopIs<Id>(s: Sys<Id>)
    requires Inv(s) && s.pc.Popping? && |s.number| < WRAP
    ensures var s' := AfterPop(s);
      && Inv(s') && s'.pc == (if s.pc.sock then Receiving else Top) && |s'.number| <= |s.number| + 1
      && s'.stop == s.stop && s'.answers == s.answers && s'.notified == s.notified
      && (forall id :: id in s.number ==> id in s'.number && Given(s'.number, id) == Given(s.number, id))
      && (s.queue == [] ==> s'.queue == [] && s'.pending == s.pending && s'.counter == s.counter && s'.number == s.number)
      && (forall c :: c in s.pending ==> c in s'.pending && s'.pending[c] == s.pending[c])
  {
    hide Cookie, Ticket, Next, LastAnswer, Inv, Given;
    if s.queue != [] {
      Popped(s);
      PopGives(s);
      PopFields(s);
      InvParts(s);
      FreshCookie(s);
    } else {
      GivenKept(s, AfterPop(s));
    }
    StepKeeps(s, TryPop);
  }

  /** A request that is popped is new, and gets the next cookie. */
  lemma PopFacts<Id>(s: Sys<Id>)
    requires Inv(s) && s.pc.Popping? && s.queue != []
    ensures s.queue[0] !in s.number && s.queue[0] !in s.queue[1..] && s.queue[0] !in s.notified
    ensures LastAnswer(s.answers, s.queue[0]) == None
    ensures forall id :: id in s.queue[1..] ==> id in s.queue
  {
    hide Cookie, LastAnswer, Kept, Numbered;
    assert s.queue[0] in s.queue;
    NeverAnswered(s, s.queue[0]);
  }

  lemma GivenKept<Id>(s: Sys<Id>, s': Sys<Id>)
    requires s'.number == s.number
    ensures forall id :: id in s.number ==> Given(s'.number, id) == Given(s.number, id)
  {
  }

  lemma NextCookie<Id>(s: Sys<Id>)
    requires Inv(s) && |s.number| < WRAP
    ensures Next(s.counter) == Ticket(|s.number| + 1)
  {
    hide Next, Cookie;
    FreshCookie(s);
  }

  lemma PopFields<Id>(s: Sys<Id>)
    requires s.pc.Popping? && s.queue != []
    ensures var s' := AfterPop(s);
      && s'.queue == s.queue[1..] && s'.counter == Next(s.counter)
      && s'.pending == s.pending[Cookie(s'.counter) := s.queue[0]]
      && s'.number == s.number[s.queue[0] := |s.number| + 1]
  {
    hide Cookie, Next;
  }

  lemma PopPlaced<Id>(s: Sys<Id>)
    requires Inv(s) && s.queue != []
    ensures s.queue[0] !in s.number
  {
    hide Placed;
    QueuedUnnumbered(s);
  }

  /** Numbering one more request leaves the cookies of the others as they are. */
  lemma NumberMore<Id>(number: map<Id, nat>, q: Id, n: nat, more: map<Id, nat>)
    requires q !in number && more == number[q := n]
    ensures more.Keys == number.Keys + {q} && Given(more, q) == Cookie(Ticket(n))
    ensures forall id :: id in number ==> Given(more, id) == Given(number, id)
  {
    hide Cookie, Ticket;
  }

  lemma PopGives<Id>(s: Sys<Id>)
    requires Inv(s) && s.pc.Popping? && s.queue != [] && |s.number| < WRAP
    ensures var s' := AfterPop(s);
      && s'.number.Keys == s.number.Keys + {s.queue[0]}
      && Given(s'.number, s.queue[0]) == Cookie(Next(s.counter))
      && forall id :: id in s.number ==> Given(s'.number, id) == Given(s.number, id)
  {
    hide *;
    PopPlaced(s);
    PopFields(s);
    NextCookie(s);
    NumberMore(s.number, s.queue[0], |s.number| + 1, AfterPop(s).number);
  }

  /** The steps up to a wake-up. */
  ghost function AfterWait<Id>(s: Sys<Id>, w: Wakeup): Sys<Id> {
    var s1 := Do(s, Check);
    if s1.pc.Done? then s1
    else Do(if w.stopped then Do(s1, Step.Stop) else s1, Wake(w.failed, w.event, w.sock))
  }

  /** The steps of a whole pass. */
  ghost function AfterPass<Id>(s: Sys<Id>, w: Wakeup, reply: Option<Reply>): Sys<Id> {
    var s1 := AfterWait(s, w);
    var s2 := if s1.pc.Popping? then AfterPop(s1) else s1;
    if s2.pc.Receiving? then AfterHear(s2, reply) else s2
  }

  lemma WaitIs<Id>(s: Sys<Id>, w: Wakeup)
    requires Inv(s) && s.pc.Top? && |s.number| <= WRAP
    ensures var s' := AfterWait(s, w);
      && Inv(s')
      && s' == s.(pc := s'.pc, stop := s'.stop)
      && s'.stop == (s.stop || w.stopped || w.failed)
      && (s'.pc.Done? <==> s.pending == map[] && (s.stop || w.stopped))
      && (s'.pc.Done? || s'.pc == if w.failed then Top
                                  else if w.event then Popping(w.sock) else if w.sock then Receiving else Top)
      && forall id :: id in s.number ==> Given(s'.number, id) == Given(s.number, id)
  {
    hide Inv, Cookie;
    StepKeeps(s, Check);
    var s1 := Do(s, Check);
    if !s1.pc.Done? {
      var s2 := if w.stopped then Do(s1, Step.Stop) else s1;
      if w.stopped {
        StepKeeps(s1, Step.Stop);
      }
      StepKeeps(s2, Wake(w.failed, w.event, w.sock));
    }
  }

  /** A pass of the loop is a run of the system, so what holds of every run holds of every
      sequence of passes. */
  lemma PassIsRun<Id>(s: Sys<Id>, w: Wakeup, reply: Option<Reply>) returns (run: seq<Step<Id>>)
    requires s.pc.Top?
    ensures Legal(s, run) && After(s, run) == AfterPass(s, w, reply)
  {
    hide Legal, After, Do, Enabled, AfterPop, AfterHear;
    NoSteps(s);
    run := WaitRun(s, w);
    var t := After(s, run);
    if t.pc.Popping? {
      PopRun(t);
      run := OneStep(s, run, TryPop);
    }
    t := After(s, run);
    if t.pc.Receiving? {
      run := HearRun(s, run, reply);
    }
  }

  lemma WaitRun<Id>(s: Sys<Id>, w: Wakeup) returns (run: seq<Step<Id>>)
    requires s.pc.Top?
    ensures Legal(s, run) && After(s, run) == AfterWait(s, w)
  {
    hide Legal, After;
    NoSteps(s);
    run := OneStep(s, [], Check);
    if !After(s, run).pc.Done? {
      if w.stopped {
        run := OneStep(s, run, Step.Stop);
      }
      run := OneStep(s, run, Wake(w.failed, w.event, w.sock));
    }
  }

  lemma PopRun<Id>(s: Sys<Id>)
    requires s.pc.Popping?
    ensures Enabled(s, TryPop) && AfterPop(s) == Do(s, TryPop)
  {
  }

  lemma HearRun<Id>(s: Sys<Id>, run: seq<Step<Id>>, reply: Option<Reply>) returns (longer: seq<Step<Id>>)
    requires Legal(s, run) && After(s, run).pc.Receiving?
    ensures Legal(s, longer) && After(s, longer) == AfterHear(After(s, run), reply)
  {
    hide Legal, After;
    longer := OneStep(s, run, Receive(reply));
    if After(s, longer).pc.Notifying? {
      longer := OneStep(s, longer, Notify);
      longer := OneStep(s, longer, Erase);
    }
  }
}
