/** A client and a server at the two ends of one connection, under every schedule.

    Bytes travel through five places: the client's output buffer, the network, the
    server's input buffer, and back through the server's output buffer, the network
    and the client's input buffer.  Every transfer may move any number of bytes. */
module SmtpSystem {
  import opened Util
  import opened BufferedIO
  import opened Smtp
  import opened SmtpLines

  // ----- what the client may be asked to send -----

  /** A sender or a recipient that survives the command line. */
  ghost predicate Envelope(s: string) {
    Clean(s) && s != "" && s[0] != ' '
  }

  ghost predicate Sendable(m: Msg) {
    Envelope(m.from) && (forall i :: 0 <= i < |m.to| ==> Envelope(m.to[i])) && '\0' !in m.body
  }

  function Arrival(m: Msg): seq<Msg> {
    if m.to == [] then [] else [m.(body := Normal(m.body))]
  }

  /** What arrives of a list of messages: those with a recipient, with normalized bodies. */
  function Arrivals(msgs: seq<Msg>): seq<Msg> {
    if msgs == [] then [] else Arrival(msgs[0]) + Arrivals(msgs[1..])
  }

  function Scripts(msgs: seq<Msg>, first: bool, helo: string): seq<Act> {
    if msgs == [] then [] else Script(msgs[0], first, helo) + Scripts(msgs[1..], false, helo)
  }

  // ----- the system -----

  datatype Sys = Sys(acts: seq<Act>, err: int, cOut: string, toServer: string, sIn: string,
                     server: Server, ended: bool, sOut: string, toClient: string, cIn: string)

  function Init(msgs: seq<Msg>, helo: string, domain: string): Sys {
    Sys(Scripts(msgs, true, helo), 0, "", "", "", Server(Command, NO_MSG, []), false, Reply(220, domain), "", "")
  }

  datatype Step =
    | Speak | Flushed | Hear                      // the client's own acts
    | Send(n: nat) | ServerGets(n: nat)           // bytes towards the server
    | ServerLine | ServerEnd                      // the server's own acts
    | Answer(n: nat) | ClientGets(n: nat)         // bytes towards the client

  predicate Enabled(s: Sys, step: Step) {
    match step
    case Speak => s.acts != [] && s.acts[0].Say?
    case Flushed => s.acts != [] && s.acts[0].Flush? && s.cOut == ""
    case Hear => s.acts != [] && s.acts[0].Expect? && LineLength(s.cIn, CRLF).Some?
    // a client that waits for a reply does not empty its output buffer
    case Send(n) => s.acts != [] && !s.acts[0].Expect? && 0 < n <= |s.cOut|
    case ServerGets(n) => 0 < n <= |s.toServer|
    // a server sends its whole reply before it reads on
    case ServerLine => s.server.Listening() && s.sOut == "" && LineLength(s.sIn, CRLF).Some?
    case ServerEnd => !s.ended && s.acts == [] && s.cOut == "" && s.toServer == "" && LineLength(s.sIn, CRLF).None?
    case Answer(n) => 0 < n <= |s.sOut|
    case ClientGets(n) => 0 < n <= |s.toClient|
  }

  function Do(s: Sys, step: Step, domain: string): Sys
    requires Enabled(s, step)
  {
    match step
    case Speak => s.(acts := s.acts[1..], cOut := s.cOut + s.acts[0].text)
    case Flushed => s.(acts := s.acts[1..])
    case Hear =>
      var n := LineLength(s.cIn, CRLF).value;
      var err := CheckReply(s.cIn[..n], s.acts[0].code);
      s.(acts := if err == 0 then s.acts[1..] else [], err := err, cIn := s.cIn[n..])
    case Send(n) => s.(cOut := s.cOut[n..], toServer := s.toServer + s.cOut[..n])
    case ServerGets(n) => s.(toServer := s.toServer[n..], sIn := s.sIn + s.toServer[..n])
    case ServerLine =>
      var n := LineLength(s.sIn, CRLF).value;
      var (server', code) := s.server.Line(s.sIn[..n - 2]);
      s.(server := server', sIn := s.sIn[n..], sOut := s.sOut + ReplyTo(code, domain))
    case ServerEnd => s.(ended := true)
    case Answer(n) => s.(sOut := s.sOut[n..], toClient := s.toClient + s.sOut[..n])
    case ClientGets(n) => s.(toClient := s.toClient[n..], cIn := s.cIn + s.toClient[..n])
  }

  // ----- the invariant -----

  /** A server that has read everything said so far, with `due` on the way to the client,
      gives each remaining `Expect` its reply, nothing more and nothing less, and ends up
      having received `goal`. */
  ghost predicate Matches(s: Server, due: string, acts: seq<Act>, goal: seq<Msg>, domain: string)
    decreases |acts|
  {
    if acts == [] then s.mode == Command && s.received == goal
    else match acts[0]
      case Say(text) =>
        var r := Run(s, text, domain);
        r.rest == "" && Matches(r.server, due + r.said, acts[1..], goal, domain)
      case Flush => Matches(s, due, acts[1..], goal, domain)
      case Expect(code) =>
        IsReplyCode(code) && due == Reply(code, domain) && Matches(s, "", acts[1..], goal, domain)
  }

  /** Nothing is left in the output buffer when the client waits, or at the end. */
  ghost predicate Disciplined(acts: seq<Act>, dirty: bool)
    decreases |acts|
  {
    if acts == [] then !dirty
    else match acts[0]
      case Say(_) => Disciplined(acts[1..], true)
      case Flush => Disciplined(acts[1..], false)
      case Expect(_) => !dirty && Disciplined(acts[1..], false)
  }

  function Unread(s: Sys): string { s.sIn + s.toServer + s.cOut }
  function Unheard(s: Sys): string { s.cIn + s.toClient + s.sOut }

  ghost predicate Inv(s: Sys, goal: seq<Msg>, domain: string) {
    var r := Run(s.server, Unread(s), domain);
    && s.err == 0
    && r.rest == ""
    && Matches(r.server, Unheard(s) + r.said, s.acts, goal, domain)
    && Disciplined(s.acts, s.cOut != "")
    && (s.ended ==> s.acts == [] && Unread(s) == "")
  }

  lemma {:induction false} DisciplineRelaxes(acts: seq<Act>)
    requires Disciplined(acts, true)
    ensures Disciplined(acts, false)
  {
  }

  // ----- replies -----

  lemma CleanText(code: int, domain: string)
    requires IsReplyCode(code) && Clean(domain)
    ensures Clean(Prefix(code) + ReplyText(code, domain).value)
  {
    CleanTexts();
    CleanAnswers();
    CleanErrorTexts();
    var text := ReplyText(code, domain).value;
    if code == 220 {
      CleanConcat(domain, " Service ready");
    } else if code == 221 {
      CleanConcat(domain, " Service closing transmission channel");
    }
    CleanPrefix(code);
    CleanConcat(Prefix(code), text);
  }

  lemma CleanPrefix(code: int)
    requires IsReplyCode(code)
    ensures Clean(Prefix(code))
  {
    var d := [Digit(code / 100), Digit(code / 10 % 10), Digit(code % 10)];
    assert Prefix(code) == d + [' '];
  }

  lemma CleanTexts()
    ensures Clean(" Service ready") && Clean(" Service closing transmission channel")
  {
  }

  lemma CleanAnswers()
    ensures Clean("Requested mail action okay, completed")
    ensures Clean("Start mail input; end with <CRLF>.<CRLF>")
  {
  }

  lemma CleanErrorTexts()
    ensures Clean("Syntax error, command unrecognized")
    ensures Clean("Syntax error in parameters or arguments")
    ensures Clean("Command not implemented")
  {
  }

  lemma CodeRoundTrip(code: int)
    requires IsReplyCode(code)
    ensures ParseCode(Prefix(code)[..3]) == Some(code)
  {
    var a, b, c := Digit(code / 100), Digit(code / 10 % 10), Digit(code % 10);
    var t := Prefix(code)[..3];
    assert t == [a, b, c];
    assert SkipBlank(t) == t;
    assert t[..2] == [a, b] && [a, b][..1] == [a] && [a][..0] == [];
    assert Number([]) == 0;
    assert Number([a]) == code / 100;
    assert Number([a, b]) == code / 10;
  }

  /** A reply is one line, and the client recognizes its code. */
  lemma ReplyIsOneLine(code: int, domain: string)
    requires IsReplyCode(code) && Clean(domain)
    ensures CheckReply(Reply(code, domain), code) == 0
    ensures LineLength(Reply(code, domain), CRLF) == Some(|Reply(code, domain)|)
  {
    var content := Prefix(code) + ReplyText(code, domain).value;
    CleanText(code, domain);
    CleanLine(content, "");
    assert content + CRLF + "" == Prefix(code) + (ReplyText(code, domain).value + CRLF) == Reply(code, domain);
    assert Reply(code, domain)[..3] == Prefix(code)[..3];
    CodeRoundTrip(code);
  }

  // ----- every step keeps the invariant -----

  lemma Cut(a: string, b: string, c: string, n: nat)
    requires n <= |b|
    ensures (a + b[..n]) + b[n..] + c == a + b + c
    ensures c + a + b == c + (a + b[..n]) + b[n..]
  {
  }

  lemma MatchesSay(server: Server, due: string, acts: seq<Act>, goal: seq<Msg>, domain: string)
    requires Matches(server, due, acts, goal, domain) && acts != [] && acts[0].Say?
    ensures var r := Run(server, acts[0].text, domain);
      r.rest == "" && Matches(r.server, due + r.said, acts[1..], goal, domain)
  {
    hide Run;
  }

  lemma SpeakKeeps(s: Sys, goal: seq<Msg>, domain: string)
    requires Inv(s, goal, domain) && Enabled(s, Speak)
    ensures Inv(Do(s, Speak, domain), goal, domain)
  {
    hide Run, Matches;
    var text := s.acts[0].text;
    var s' := Do(s, Speak, domain);
    var r := Run(s.server, Unread(s), domain);
    assert Unread(s') == Unread(s) + text;
    RunAppend(s.server, Unread(s), text, domain);
    MatchesSay(r.server, Unheard(s) + r.said, s.acts, goal, domain);
    var r2 := Run(r.server, text, domain);
    assert Unheard(s) + (r.said + r2.said) == Unheard(s) + r.said + r2.said;
    if s'.cOut == "" {
      DisciplineRelaxes(s'.acts);
    }
  }

  lemma HearKeeps(s: Sys, goal: seq<Msg>, domain: string)
    requires Inv(s, goal, domain) && Enabled(s, Hear) && Clean(domain)
    ensures Inv(Do(s, Hear, domain), goal, domain)
  {
    hide Run, CheckReply, Reply, LineLength;
    var code := s.acts[0].code;
    var r := Run(s.server, Unread(s), domain);
    var rest := s.toClient + s.sOut + r.said;
    assert Unheard(s) + r.said == s.cIn + rest;
    LineIsStable(s.cIn, rest, CRLF);
    ReplyIsOneLine(code, domain);
    var n := LineLength(s.cIn, CRLF).value;
    assert rest == "" && s.cIn[..n] == s.cIn && s.cIn[n..] == "";
    assert s.cIn == Reply(code, domain);
    assert s.toClient == "" && s.sOut == "" && r.said == "";
    var s' := Do(s, Hear, domain);
    assert Unread(s') == Unread(s) && Unheard(s') + r.said == "";
  }

  lemma ServerLineKeeps(s: Sys, goal: seq<Msg>, domain: string)
    requires Inv(s, goal, domain) && Enabled(s, ServerLine)
    ensures Inv(Do(s, ServerLine, domain), goal, domain)
  {
    hide Run, LineLength, Server.Line, ReplyTo, Matches;
    var behind := s.toServer + s.cOut;
    var n := LineLength(s.sIn, CRLF).value;
    assert Unread(s) == s.sIn + behind;
    LineIsStable(s.sIn, behind, CRLF);
    TakeAcross(s.sIn, behind, n);
    TakeAcross(s.sIn, behind, n - 2);
    RunUnfold(s.server, Unread(s), domain);
    var s' := Do(s, ServerLine, domain);
    assert Unread(s') == Unread(s)[n..];
    var (server', code) := s.server.Line(s.sIn[..n - 2]);
    var r' := Run(server', Unread(s'), domain);
    assert Unheard(s') + r'.said == Unheard(s) + (ReplyTo(code, domain) + r'.said);
  }

  lemma InvSame(s: Sys, s': Sys, goal: seq<Msg>, domain: string)
    requires Inv(s, goal, domain)
    requires s'.server == s.server && s'.acts == s.acts && s'.err == s.err && s'.ended == s.ended
    requires Unread(s') == Unread(s) && Unheard(s') == Unheard(s)
    requires s.cOut == "" ==> s'.cOut == ""
    ensures Inv(s', goal, domain)
  {
    hide Run, Matches, Unread, Unheard;
    if s.cOut != "" && s'.cOut == "" {
      DisciplineRelaxes(s.acts);
    }
  }

  /** Moving bytes changes neither what the server will read nor what the client will hear. */
  lemma MoveKeeps(s: Sys, step: Step, goal: seq<Msg>, domain: string)
    requires Inv(s, goal, domain) && Enabled(s, step)
    requires step.Send? || step.ServerGets? || step.Answer? || step.ClientGets?
    ensures Inv(Do(s, step, domain), goal, domain)
  {
    hide Inv;
    match step {
      case Send(n) => Cut(s.toServer, s.cOut, s.sIn, n);
      case ServerGets(n) => Cut(s.sIn, s.toServer, s.cOut, n);
      case Answer(n) => Cut(s.toClient, s.sOut, s.cIn, n);
      case ClientGets(n) => Cut(s.cIn, s.toClient, s.sOut, n);
    }
    InvSame(s, Do(s, step, domain), goal, domain);
  }

  lemma StepKeeps(s: Sys, step: Step, goal: seq<Msg>, domain: string)
    requires Inv(s, goal, domain) && Enabled(s, step) && Clean(domain)
    ensures Inv(Do(s, step, domain), goal, domain)
  {
    match step
    case Speak => SpeakKeeps(s, goal, domain);
    case Hear => HearKeeps(s, goal, domain);
    case ServerLine => ServerLineKeeps(s, goal, domain);
    case Flushed =>
    case ServerEnd =>
      hide Run, Matches;
      EndUnread(s, goal, domain);
    case _ => MoveKeeps(s, step, goal, domain);
  }

  lemma EndUnread(s: Sys, goal: seq<Msg>, domain: string)
    requires Inv(s, goal, domain) && Enabled(s, ServerEnd)
    ensures Unread(s) == ""
  {
    assert Unread(s) == s.sIn;
    if s.sIn != "" {
      RunStuck(s.server, s.sIn, domain);
    }
  }

  // ----- the client's script -----

  /** Saying one line that the server answers with `code`, and waiting for the answer. */
  lemma AskMatches(s: Server, content: string, code: int, s': Server, acts: seq<Act>, goal: seq<Msg>, domain: string)
    requires s.mode == Command && Clean(content) && s.CommandLine(content) == (s', Some(code))
    requires Matches(s', "", acts, goal, domain)
    ensures Matches(s, "", Ask(content + CRLF, code) + acts, goal, domain)
  {
    hide Reply, Server.CommandLine;
    RunLine(s, content, "", domain);
    assert content + CRLF + "" == content + CRLF;
    RunNothing(s', domain);
    assert Reply(code, domain) + "" == Reply(code, domain);
    AskUnfolds(s, content + CRLF, code, s', acts, goal, domain);
  }

  lemma AskUnfolds(s: Server, text: string, code: int, s': Server, acts: seq<Act>, goal: seq<Msg>, domain: string)
    requires IsReplyCode(code) && Run(s, text, domain) == Served(s', Reply(code, domain), "")
    requires Matches(s', "", acts, goal, domain)
    ensures Matches(s, "", Ask(text, code) + acts, goal, domain)
  {
    hide Run, Reply;
    var hear := [Expect(code)] + acts;
    var flush := [Flush] + hear;
    var say := [Say(text)] + flush;
    assert hear[1..] == acts && flush[1..] == hear && say[1..] == flush;
    assert Matches(s', Reply(code, domain), hear, goal, domain);
    assert Matches(s', Reply(code, domain), flush, goal, domain);
    assert "" + Reply(code, domain) == Reply(code, domain);
    assert Matches(s, "", say, goal, domain);
    assert say == Ask(text, code) + acts;
  }

  lemma KeywordIs(content: string, keyword: string, arg: string)
    requires content == keyword + arg && Clean(content) && |keyword| >= 4
    ensures StartsWith(content, keyword) && content[|keyword|..] == arg
    ensures CStr(content[..4]) == keyword[..4]
    ensures CStr(arg) == arg
  {
    assert content[..4] == keyword[..4];
    CStrWhole(content[..4]);
    assert forall i :: 0 <= i < |arg| ==> arg[i] == content[|keyword| + i];
    CStrWhole(arg);
  }

  /** `SKIP_WS` finds the argument again behind the client's single space. */
  lemma ArgumentFound(arg: string)
    requires Envelope(arg)
    ensures Clean(" " + arg) && SkipSpaces(" " + arg) == arg
  {
    assert (" " + arg)[1..] == arg;
  }

  lemma KeywordsDiffer()
    ensures StartsWith("MAIL", "MAIL") && StartsWith("RCPT", "RCPT") && StartsWith("DATA", "DATA")
    ensures !StartsWith("MAIL", "HELO")
    ensures !StartsWith("RCPT", "HELO") && !StartsWith("RCPT", "MAIL")
    ensures !StartsWith("DATA", "HELO") && !StartsWith("DATA", "MAIL") && !StartsWith("DATA", "RCPT")
  {
    assert Lower("MAIL"[0]) != Lower("HELO"[0]);
    assert Lower("RCPT"[0]) != Lower("HELO"[0]) && Lower("RCPT"[0]) != Lower("MAIL"[0]);
    assert Lower("DATA"[0]) != Lower("HELO"[0]) && Lower("DATA"[0]) != Lower("MAIL"[0])
           && Lower("DATA"[0]) != Lower("RCPT"[0]);
  }

  lemma MailLine(s: Server, from: string)
    requires Envelope(from)
    ensures Clean("MAIL FROM: " + from)
    ensures s.CommandLine("MAIL FROM: " + from) == (s.(cur := s.cur.(from := from)), Some(250))
  {
    ArgumentFound(from);
    var content := "MAIL FROM: " + from;
    assert content == "MAIL FROM:" + (" " + from);
    CleanConcat("MAIL FROM:", " " + from);
    KeywordIs(content, "MAIL FROM:", " " + from);
    assert "MAIL FROM:"[..4] == "MAIL";
    KeywordsDiffer();
    hide StartsWith, SkipSpaces, CStr;
  }

  lemma RcptLine(s: Server, to: string)
    requires Envelope(to)
    ensures Clean("RCPT TO: " + to)
    ensures s.CommandLine("RCPT TO: " + to) == (s.(cur := s.cur.(to := s.cur.to + [to])), Some(250))
  {
    ArgumentFound(to);
    var content := "RCPT TO: " + to;
    assert content == "RCPT TO:" + (" " + to);
    CleanConcat("RCPT TO:", " " + to);
    KeywordIs(content, "RCPT TO:", " " + to);
    assert "RCPT TO:"[..4] == "RCPT";
    KeywordsDiffer();
    hide StartsWith, SkipSpaces, CStr;
  }

  lemma HeloLine(s: Server, helo: string)
    requires Envelope(helo)
    ensures Clean("HELO " + helo) && s.CommandLine("HELO " + helo) == (s, Some(250))
  {
    var content := "HELO " + helo;
    CleanConcat("HELO ", helo);
    KeywordIs(content, "HELO ", helo);
    assert "HELO "[..4] == "HELO";
  }

  lemma DataCommand(s: Server)
    requires s.cur.body == ""
    ensures Clean("DATA") && s.CommandLine("DATA") == (s.(mode := Data), Some(354))
  {
    KeywordIs("DATA", "DATA", "");
    assert "DATA"[..4] == "DATA";
    KeywordsDiffer();
    hide StartsWith, CStr;
  }

  /** The server after a session: what was sent has been received, if it had a recipient. */
  function AfterMsg(s: Server, m: Msg): Server {
    Server(Command, NO_MSG, s.received + Arrival(m))
  }

  lemma BodyMatches(s: Server, body: string, acts: seq<Act>, goal: seq<Msg>, domain: string)
    requires s.mode == Command && s.cur.body == "" && '\0' !in body
    requires Matches(s.(cur := s.cur.(body := Normal(body))).DataEnd(), "", acts, goal, domain)
    ensures Matches(s, "", Ask("DATA\r\n", 354) + (Ask(Wire(body), 250) + acts), goal, domain)
  {
    hide Run, Reply, Matches, Server.CommandLine, StuffedLines, BodyLines;
    var lines := BodyLines(body);
    BodyLinesClean(body, 0);
    var data := s.(mode := Data);
    var done := s.(cur := s.cur.(body := Normal(body))).DataEnd();
    RunBody(data, lines, "", domain);
    assert Wire(body) + "" == Wire(body);
    assert "" + Unstuffed(lines) == Unstuffed(lines);
    RunNothing(done, domain);
    assert Reply(250, domain) + "" == Reply(250, domain);
    AskUnfolds(data, Wire(body), 250, done, acts, goal, domain);
    DataCommand(s);
    assert "DATA" + CRLF == "DATA\r\n";
    AskMatches(s, "DATA", 354, data, Ask(Wire(body), 250) + acts, goal, domain);
  }

  lemma {:induction false} RcptMatches(s: Server, to: seq<string>, acts: seq<Act>, goal: seq<Msg>, domain: string)
    requires s.mode == Command && forall i :: 0 <= i < |to| ==> Envelope(to[i])
    requires Matches(s.(cur := s.cur.(to := s.cur.to + to)), "", acts, goal, domain)
    ensures Matches(s, "", AskAll(to) + acts, goal, domain)
    decreases |to|
  {
    hide Matches, Server.CommandLine, Envelope, Ask;
    if to == [] {
      assert s.cur.to + to == s.cur.to && AskAll(to) + acts == acts;
    } else {
      RcptLine(s, to[0]);
      var s' := s.(cur := s.cur.(to := s.cur.to + [to[0]]));
      assert s.cur.to + to == s'.cur.to + to[1..];
      RcptMatches(s', to[1..], acts, goal, domain);
      AskMatches(s, "RCPT TO: " + to[0], 250, s', AskAll(to[1..]) + acts, goal, domain);
      var ask := Ask("RCPT TO: " + to[0] + CRLF, 250);
      assert ask + AskAll(to[1..]) + acts == ask + (AskAll(to[1..]) + acts);
    }
  }

  lemma NormalNonempty(body: string)
    ensures Normal(body) != ""
  {
  }

  /** The part of a session that every message has. */
  function Rest(m: Msg): seq<Act> {
    Ask("MAIL FROM: " + m.from + CRLF, 250) + AskAll(m.to) + Ask("DATA\r\n", 354) + Ask(Wire(m.body), 250)
  }

  lemma RestMatches(s: Server, m: Msg, acts: seq<Act>, goal: seq<Msg>, domain: string)
    requires s.mode == Command && s.cur == NO_MSG && Sendable(m)
    requires Matches(AfterMsg(s, m), "", acts, goal, domain)
    ensures Matches(s, "", Rest(m) + acts, goal, domain)
  {
    hide Matches, Server.CommandLine, Normal, Ask, AskAll, Wire;
    var s1 := s.(cur := s.cur.(from := m.from));
    var s2 := s1.(cur := s1.cur.(to := s1.cur.to + m.to));
    assert s1.cur.to + m.to == m.to;
    NormalNonempty(m.body);
    assert s.received + [] == s.received;
    BodyMatches(s2, m.body, acts, goal, domain);
    var data, body := Ask("DATA\r\n", 354), Ask(Wire(m.body), 250);
    RcptMatches(s1, m.to, data + (body + acts), goal, domain);
    MailLine(s, m.from);
    AskMatches(s, "MAIL FROM: " + m.from, 250, s1, AskAll(m.to) + (data + (body + acts)), goal, domain);
    RegroupActs(Ask("MAIL FROM: " + m.from + CRLF, 250), AskAll(m.to), data, body, acts);
  }

  lemma RegroupActs(a: seq<Act>, b: seq<Act>, c: seq<Act>, d: seq<Act>, e: seq<Act>)
    ensures a + b + c + d + e == a + (b + (c + (d + e)))
  {
  }

  lemma {:induction false} ScriptsMatch(s: Server, msgs: seq<Msg>, helo: string, domain: string)
    requires s.mode == Command && s.cur == NO_MSG
    requires forall i :: 0 <= i < |msgs| ==> Sendable(msgs[i])
    ensures Matches(s, "", Scripts(msgs, false, helo), s.received + Arrivals(msgs), domain)
    decreases |msgs|
  {
    if msgs == [] {
      assert s.received + Arrivals(msgs) == s.received;
    } else {
      var s' := AfterMsg(s, msgs[0]);
      ArrivalsStep(s, msgs);
      ScriptsStep(msgs, false, helo);
      LaterScript(msgs[0], helo);
      hide *;
      ScriptsMatch(s', msgs[1..], helo, domain);
      RestMatches(s, msgs[0], Scripts(msgs[1..], false, helo), s.received + Arrivals(msgs), domain);
    }
  }

  lemma ArrivalsStep(s: Server, msgs: seq<Msg>)
    requires msgs != []
    ensures var s' := AfterMsg(s, msgs[0]);
      && s'.mode == Command && s'.cur == NO_MSG
      && s'.received + Arrivals(msgs[1..]) == s.received + Arrivals(msgs)
  {
    hide Arrival;
    RegroupMsgs(s.received, Arrival(msgs[0]), Arrivals(msgs[1..]));
  }

  lemma RegroupMsgs(a: seq<Msg>, b: seq<Msg>, c: seq<Msg>)
    ensures (a + b) + c == a + (b + c)
  {
  }

  lemma ScriptsStep(msgs: seq<Msg>, first: bool, helo: string)
    requires msgs != []
    ensures Scripts(msgs, first, helo) == Script(msgs[0], first, helo) + Scripts(msgs[1..], false, helo)
  {
  }

  lemma LaterScript(m: Msg, helo: string)
    ensures Script(m, false, helo) == Rest(m)
    ensures Script(m, true, helo) == [Expect(220)] + Ask("HELO " + helo + CRLF, 250) + Rest(m)
  {
    hide Ask, AskAll, Wire;
    var a, b, c, d := Ask("MAIL FROM: " + m.from + CRLF, 250), AskAll(m.to), Ask("DATA\r\n", 354), Ask(Wire(m.body), 250);
    assert [] + a + b + c + d == a + b + c + d;
    var h := [Expect(220)] + Ask("HELO " + helo + CRLF, 250);
    assert h + a + b + c + d == h + (a + b + c + d);
  }

  lemma AskDisciplined(text: string, code: int, acts: seq<Act>)
    requires Disciplined(acts, false)
    ensures Disciplined(Ask(text, code) + acts, false)
  {
    var hear := [Expect(code)] + acts;
    var flush := [Flush] + hear;
    var say := [Say(text)] + flush;
    assert hear[1..] == acts && flush[1..] == hear && say[1..] == flush;
    assert Disciplined(flush, true);
    assert say == Ask(text, code) + acts;
  }

  lemma {:induction false} AskAllDisciplined(to: seq<string>, acts: seq<Act>)
    requires Disciplined(acts, false)
    ensures Disciplined(AskAll(to) + acts, false)
  {
    hide Disciplined, Ask;
    if to == [] {
      assert AskAll(to) + acts == acts;
    } else {
      AskAllDisciplined(to[1..], acts);
      var ask := Ask("RCPT TO: " + to[0] + CRLF, 250);
      AskDisciplined("RCPT TO: " + to[0] + CRLF, 250, AskAll(to[1..]) + acts);
      assert ask + AskAll(to[1..]) + acts == ask + (AskAll(to[1..]) + acts);
    }
  }

  lemma RestDisciplined(m: Msg, acts: seq<Act>)
    requires Disciplined(acts, false)
    ensures Disciplined(Rest(m) + acts, false)
  {
    hide Disciplined, Ask, AskAll, Wire;
    var mail, data, body := Ask("MAIL FROM: " + m.from + CRLF, 250), Ask("DATA\r\n", 354), Ask(Wire(m.body), 250);
    AskDisciplined(Wire(m.body), 250, acts);
    AskDisciplined("DATA\r\n", 354, body + acts);
    AskAllDisciplined(m.to, data + (body + acts));
    AskDisciplined("MAIL FROM: " + m.from + CRLF, 250, AskAll(m.to) + (data + (body + acts)));
    RegroupActs(mail, AskAll(m.to), data, body, acts);
  }

  lemma {:induction false} ScriptsDisciplined(msgs: seq<Msg>, helo: string)
    ensures Disciplined(Scripts(msgs, false, helo), false)
  {
    if msgs != [] {
      ScriptsStep(msgs, false, helo);
      LaterScript(msgs[0], helo);
      hide *;
      ScriptsDisciplined(msgs[1..], helo);
      RestDisciplined(msgs[0], Scripts(msgs[1..], false, helo));
    }
  }

  lemma GreetingMatches(s: Server, acts: seq<Act>, goal: seq<Msg>, domain: string)
    requires Matches(s, "", acts, goal, domain) && Disciplined(acts, false)
    ensures Matches(s, Reply(220, domain), [Expect(220)] + acts, goal, domain)
    ensures Disciplined([Expect(220)] + acts, false)
  {
    hide Reply;
    assert ([Expect(220)] + acts)[1..] == acts;
  }

  /** The first session starts with the server's greeting and a HELO. */
  lemma FirstScriptMatches(s: Server, m: Msg, acts: seq<Act>, helo: string, goal: seq<Msg>, domain: string)
    requires s.mode == Command && Envelope(helo)
    requires Matches(s, "", Rest(m) + acts, goal, domain) && Disciplined(Rest(m) + acts, false)
    ensures Matches(s, Reply(220, domain), Script(m, true, helo) + acts, goal, domain)
    ensures Disciplined(Script(m, true, helo) + acts, false)
  {
    HeloLine(s, helo);
    LaterScript(m, helo);
    hide *;
    var ask := Ask("HELO " + helo + CRLF, 250);
    AskMatches(s, "HELO " + helo, 250, s, Rest(m) + acts, goal, domain);
    AskDisciplined("HELO " + helo + CRLF, 250, Rest(m) + acts);
    GreetingMatches(s, ask + (Rest(m) + acts), goal, domain);
    RegroupFour([Expect(220)], ask, Rest(m), acts);
  }

  lemma RegroupFour(a: seq<Act>, b: seq<Act>, c: seq<Act>, d: seq<Act>)
    ensures a + b + c + d == a + (b + (c + d))
  {
  }

  lemma InitInv(msgs: seq<Msg>, helo: string, domain: string)
    requires Envelope(helo) && forall i :: 0 <= i < |msgs| ==> Sendable(msgs[i])
    ensures Inv(Init(msgs, helo, domain), Arrivals(msgs), domain)
  {
    if msgs == [] {
      InitHolds(msgs, helo, domain, []);
    } else {
      TailSendable(msgs);
      hide *;
      InitMatches(msgs, helo, domain);
      InitHolds(msgs, helo, domain, Arrivals(msgs));
    }
  }

  lemma TailSendable(msgs: seq<Msg>)
    requires msgs != [] && forall i :: 0 <= i < |msgs| ==> Sendable(msgs[i])
    ensures Sendable(msgs[0]) && forall i :: 0 <= i < |msgs[1..]| ==> Sendable(msgs[1..][i])
  {
  }

  lemma InitMatches(msgs: seq<Msg>, helo: string, domain: string)
    requires msgs != [] && Envelope(helo) && Sendable(msgs[0])
    requires forall i :: 0 <= i < |msgs[1..]| ==> Sendable(msgs[1..][i])
    ensures Matches(Server(Command, NO_MSG, []), Reply(220, domain), Scripts(msgs, true, helo), Arrivals(msgs), domain)
    ensures Disciplined(Scripts(msgs, true, helo), false)
  {
    var s0 := Server(Command, NO_MSG, []);
    var later, goal := Scripts(msgs[1..], false, helo), Arrivals(msgs);
    ArrivalsStep(s0, msgs);
    ScriptsStep(msgs, true, helo);
    ScriptsDisciplined(msgs[1..], helo);
    hide *;
    assert s0.received + goal == goal;
    RestDisciplined(msgs[0], later);
    ScriptsMatch(AfterMsg(s0, msgs[0]), msgs[1..], helo, domain);
    RestMatches(s0, msgs[0], later, goal, domain);
    FirstScriptMatches(s0, msgs[0], later, helo, goal, domain);
  }

  lemma InitHolds(msgs: seq<Msg>, helo: string, domain: string, goal: seq<Msg>)
    requires Matches(Server(Command, NO_MSG, []), Reply(220, domain), Scripts(msgs, true, helo), goal, domain)
    requires Disciplined(Scripts(msgs, true, helo), false)
    ensures Inv(Init(msgs, helo, domain), goal, domain)
  {
    hide Reply, Matches, Scripts, Disciplined;
    var s := Init(msgs, helo, domain);
    RunNothing(s.server, domain);
    assert Unread(s) == "" && Unheard(s) + "" == Reply(220, domain);
  }

  // ----- what holds of every run -----

  lemma {:induction false} RunExtends(s: Server, input: string, domain: string)
    ensures s.received <= Run(s, input, domain).server.received
    ensures !s.Listening() ==> Run(s, input, domain).server == s
    decreases |input|
  {
    if s.Listening() && LineLength(input, CRLF).Some? {
      var n := LineLength(input, CRLF).value;
      RunUnfold(s, input, domain);
      LineExtends(s, input[..n - 2]);
      hide *;
      RunExtends(s.Line(input[..n - 2]).0, input[n..], domain);
    }
  }

  lemma LineExtends(s: Server, content: string)
    requires s.Listening()
    ensures s.received <= s.Line(content).0.received
  {
    hide StartsWith, SkipSpaces, CStr;
  }

  lemma {:induction false} MatchesExtends(s: Server, due: string, acts: seq<Act>, goal: seq<Msg>, domain: string)
    requires Matches(s, due, acts, goal, domain)
    ensures s.received <= goal && s.Listening()
    decreases |acts|
  {
    hide Run, Reply;
    if acts != [] {
      match acts[0]
      case Say(text) =>
        var r := Run(s, text, domain);
        RunExtends(s, text, domain);
        MatchesExtends(r.server, due + r.said, acts[1..], goal, domain);
      case Flush => MatchesExtends(s, due, acts[1..], goal, domain);
      case Expect(_) => MatchesExtends(s, "", acts[1..], goal, domain);
    }
  }

  /** What an observer may rely on at any moment. */
  ghost predicate Safe(s: Sys, goal: seq<Msg>) {
    && s.err == 0
    && s.server.mode != Asserted
    && s.server.received <= goal
  }

  lemma InvSafe(s: Sys, goal: seq<Msg>, domain: string)
    requires Inv(s, goal, domain)
    ensures Safe(s, goal)
  {
    var r := Run(s.server, Unread(s), domain);
    RunExtends(s.server, Unread(s), domain);
    MatchesExtends(r.server, Unheard(s) + r.said, s.acts, goal, domain);
  }

  ghost predicate Next(s: Sys, s': Sys, domain: string) {
    exists step :: Enabled(s, step) && s' == Do(s, step, domain)
  }

  ghost predicate IsRun(trace: seq<Sys>, domain: string) {
    forall i :: 0 < i < |trace| ==> Next(trace[i - 1], trace[i], domain)
  }

  /** Whatever the schedule and however the bytes are cut up: no client session fails, the
      handler's assertion holds, and the messages received so far are the first of those sent. */
  lemma {:induction false} EveryRunIsSafe(msgs: seq<Msg>, helo: string, domain: string, trace: seq<Sys>, i: nat)
    requires Envelope(helo) && Clean(domain) && forall k :: 0 <= k < |msgs| ==> Sendable(msgs[k])
    requires i < |trace| && trace[0] == Init(msgs, helo, domain) && IsRun(trace, domain)
    ensures Inv(trace[i], Arrivals(msgs), domain)
    ensures Safe(trace[i], Arrivals(msgs))
  {
    hide Inv, Do, Init, Arrivals, Safe, Envelope, Clean, Sendable;
    if i == 0 {
      InitInv(msgs, helo, domain);
    } else {
      EveryRunIsSafe(msgs, helo, domain, trace, i - 1);
      assert Next(trace[i - 1], trace[i], domain);
      var step :| Enabled(trace[i - 1], step) && trace[i] == Do(trace[i - 1], step, domain);
      StepKeeps(trace[i - 1], step, Arrivals(msgs), domain);
    }
    InvSafe(trace[i], Arrivals(msgs), domain);
  }

  /** The client has returned from all its sessions and the server has seen the end. */
  predicate Done(s: Sys) { s.acts == [] && s.ended }

  /** Nobody ever waits in vain: while the run is not over, somebody can move. */
  lemma SomeoneCanMove(s: Sys, goal: seq<Msg>, domain: string)
    requires Inv(s, goal, domain) && Clean(domain) && !Done(s)
    ensures exists step :: Enabled(s, step)
  {
    var r := Run(s.server, Unread(s), domain);
    if s.toServer != "" {
      assert Enabled(s, ServerGets(1));
    } else if s.toClient != "" {
      assert Enabled(s, ClientGets(1));
    } else if s.sOut != "" {
      assert Enabled(s, Answer(1));
    } else if s.acts != [] && s.acts[0].Say? {
      assert Enabled(s, Speak);
    } else if s.acts != [] && s.acts[0].Flush? {
      assert Enabled(s, if s.cOut == "" then Flushed else Send(1));
    } else {
      assert s.cOut == "" && Unread(s) == s.sIn;
      if s.sIn != "" {
        RunStuck(s.server, s.sIn, domain);
        assert Enabled(s, ServerLine);
      } else if s.acts == [] {
        NothingHoldsNoLine();
        assert Enabled(s, ServerEnd);
      } else {
        RunNothing(s.server, domain);
        assert Unheard(s) + "" == s.cIn;
        ReplyIsOneLine(s.acts[0].code, domain);
        assert Enabled(s, Hear);
      }
    }
  }

  lemma NothingHoldsNoLine()
    ensures LineLength("", CRLF) == None
  {
  }

  /** When the run is over, every message with a recipient has arrived, once and in order,
      and every session has returned 0. */
  lemma DoneMeansDelivered(s: Sys, goal: seq<Msg>, domain: string)
    requires Inv(s, goal, domain) && Done(s)
    ensures s.server.received == goal && s.err == 0
  {
    RunNothing(s.server, domain);
  }

  /** Each step makes progress in this order: unread bytes, acts to do, bytes on their way. */
  lemma StepsDecrease(s: Sys, step: Step, domain: string)
    requires Enabled(s, step)
    ensures var s' := Do(s, step, domain);
      (ToRead(s), |s.acts|, |s.cOut|, |s.toServer|, |s.sOut|, |s.toClient|, Pending(s)
       decreases to ToRead(s'), |s'.acts|, |s'.cOut|, |s'.toServer|, |s'.sOut|, |s'.toClient|, Pending(s'))
  {
    hide ReplyTo, Server.Line, CheckReply, LineLength;
    match step
    case Speak => assert ToSay(s.acts) == |s.acts[0].text| + ToSay(s.acts[1..]);
    case _ =>
  }

  function ToSay(acts: seq<Act>): nat {
    if acts == [] then 0
    else (if acts[0].Say? then |acts[0].text| else 0) + ToSay(acts[1..])
  }

  function ToRead(s: Sys): nat { ToSay(s.acts) + |s.cOut| + |s.toServer| + |s.sIn| }

  function Pending(s: Sys): nat { if s.ended then 0 else 1 }

  ghost predicate StepAt(run: nat -> Sys, j: nat, domain: string) {
    Next(run(j), run(j + 1), domain)
  }

  /** There is no endless run: from any reachable state, every schedule comes to an end. */
  lemma {:induction false} NoEndlessRun(run: nat -> Sys, i: nat, domain: string)
    requires forall j: nat :: i <= j ==> StepAt(run, j, domain)
    ensures false
    decreases ToRead(run(i)), |run(i).acts|, |run(i).cOut|, |run(i).toServer|, |run(i).sOut|, |run(i).toClient|, Pending(run(i))
  {
    hide Do, Enabled, ToRead, Pending;
    assert StepAt(run, i, domain);
    var step :| Enabled(run(i), step) && run(i + 1) == Do(run(i), step, domain);
    StepsDecrease(run(i), step, domain);
    NoEndlessRun(run, i + 1, domain);
  }

  /** The whole claim: every run can be continued until it is over, and then everything that
      was sent has been delivered. */
  lemma EndToEnd(msgs: seq<Msg>, helo: string, domain: string, trace: seq<Sys>)
    requires Envelope(helo) && Clean(domain) && forall k :: 0 <= k < |msgs| ==> Sendable(msgs[k])
    requires trace != [] && trace[0] == Init(msgs, helo, domain) && IsRun(trace, domain)
    ensures var last := trace[|trace| - 1];
      if Done(last) then last.server.received == Arrivals(msgs) && last.err == 0
      else exists step :: Enabled(last, step)
  {
    hide Inv, Do, Init, Arrivals, Safe, Envelope, Clean, Sendable, IsRun;
    var last := trace[|trace| - 1];
    EveryRunIsSafe(msgs, helo, domain, trace, |trace| - 1);
    if Done(last) {
      DoneMeansDelivered(last, Arrivals(msgs), domain);
    } else {
      SomeoneCanMove(last, Arrivals(msgs), domain);
    }
  }

  /** A message with a recipient and a body of CRLF-terminated lines arrives unchanged. */
  lemma ArrivesUnchanged(m: Msg)
    ensures Arrival(m) == [m] <==> m.to != [] && Canonical(m.body)
  {
    UnchangedIffCanonical(m.body);
  }

  // ----- the sessions as wholes -----

  function AllText(acts: seq<Act>): string {
    if acts == [] then ""
    else (if acts[0].Say? then acts[0].text else "") + AllText(acts[1..])
  }

  lemma RegroupReplies(a: string, b: string, c: string)
    ensures a + (b + c) == a + b + c
  {
  }

  /** The client's and the server's functions fit together: fed with everything that the
      client says, the server receives `goal`; fed with everything that the server then
      says, the client says exactly that and returns 0. */
  lemma {:induction false} SessionsAgree(s: Server, due: string, acts: seq<Act>, goal: seq<Msg>, domain: string)
    requires Matches(s, due, acts, goal, domain) && Clean(domain)
    ensures var r := Run(s, AllText(acts), domain);
      var t := Talk(acts, due + r.said);
      r.rest == "" && r.server.received == goal && t.err == 0 && t.said == AllText(acts)
    decreases |acts|
  {
    hide Run, Reply, LineLength, CheckReply;
    if acts == [] {
      RunNothing(s, domain);
    } else {
      var later := AllText(acts[1..]);
      match acts[0]
      case Say(text) =>
        var r := Run(s, text, domain);
        SessionsAgree(r.server, due + r.said, acts[1..], goal, domain);
        RunAppend(s, text, later, domain);
        RegroupReplies(due, r.said, Run(r.server, later, domain).said);
      case Flush =>
        assert "" + later == later;
        SessionsAgree(s, due, acts[1..], goal, domain);
      case Expect(code) =>
        assert "" + later == later;
        SessionsAgree(s, "", acts[1..], goal, domain);
        var said := Run(s, later, domain).said;
        ReplyIsOneLine(code, domain);
        LineIsStable(due, said, CRLF);
        TakeAcross(due, said, |due|);
        assert due[..|due|] == due && due[|due|..] + said == "" + said;
    }
  }

  /** One connection as a whole: the two sessions, each reading what the other writes,
      deliver every message that has a recipient and report no error. */
  lemma ConnectionAgrees(msgs: seq<Msg>, helo: string, domain: string)
    requires msgs != [] && Envelope(helo) && Clean(domain) && forall k :: 0 <= k < |msgs| ==> Sendable(msgs[k])
    ensures var acts := Scripts(msgs, true, helo);
      var r := Run(Server(Command, NO_MSG, []), AllText(acts), domain);
      var t := Talk(acts, Reply(220, domain) + r.said);
      r.rest == "" && r.server.received == Arrivals(msgs) && t.err == 0 && t.said == AllText(acts)
  {
    TailSendable(msgs);
    hide *;
    InitMatches(msgs, helo, domain);
    SessionsAgree(Server(Command, NO_MSG, []), Reply(220, domain), Scripts(msgs, true, helo), Arrivals(msgs), domain);
  }
}
