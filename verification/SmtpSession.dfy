/** The methods of smtp/SMTP.cc and smtp/BasicSMTP.cc, over buffered streams whose bytes
    arrive and leave in pieces of any size.  Each is proved to do what the functions of
    module `Smtp` say of the bytes it reads. */
module SmtpSession {
  import opened Util
  import PrintfScan
  import opened PrintfArgs
  import opened PrintfText
  import opened PrintfFormat
  import PrintfDigits
  import opened BufferedIO
  import opened Smtp
  import opened SmtpLines
  import opened SmtpReplies

  /** `BasicSMTPHandler`, with `message_recvd` collecting what it is given. */
  class Handler {
    var from: string
    var to: seq<string>
    var body: string
    var received: seq<Msg>

    function State(mode: Mode): Server
      reads this
    {
      Server(mode, Msg(from, to, body), received)
    }

    constructor ()
      ensures State(Command) == Server(Command, NO_MSG, [])
    {
      from, to, body, received := "", [], "", [];
    }

    method Mail(from: string) returns (code: int)
      modifies this`from
      ensures code == if from == "" then 501 else 250
      ensures this.from == if from == "" then old(this.from) else from
    {
      if |from| == 0 {
        return 501;
      }
      this.from := from;
      return 250;
    }

    method Rcpt(to: string) returns (code: int)
      modifies this`to
      ensures code == if to == "" then 501 else 250
      ensures this.to == if to == "" then old(this.to) else old(this.to) + [to]
    {
      if |to| == 0 {
        return 501;
      }
      this.to := this.to + [to];
      return 250;
    }

    /** The handler asserts that no message body is left over. */
    method DataBegin() returns (code: int)
      requires body == ""
      ensures code == 0
    {
      assert |body| == 0;
      return 0;
    }

    method DataLine(line: string) returns (code: int)
      modifies this`body
      ensures code == 0 && State(Data) == old(State(Data)).DataLine(line)
    {
      body := body + line;
      body := body + CRLF;
      return 0;
    }

    method DataEnd() returns (code: int)
      modifies this
      ensures code == 250 && State(Command) == old(State(Data)).DataEnd()
    {
      if from != "" && to != [] && body != "" {
        received := received + [Msg(from, to, body)];
      }
      from, to, body := "", [], "";
      return 250;
    }
  }

  /** `SKIP_WS` and the C string behind it; "" stands for the early return of 501. */
  method SkipWs(content: string, start: nat) returns (arg: string)
    requires start <= |content|
    ensures arg == SkipSpaces(CStr(content[start..]))
  {
    var text := CStr(content[start..]);
    var i := 0;
    while i < |text| && text[i] == ' '
      invariant 0 <= i <= |text|
      invariant SkipSpaces(text) == SkipSpaces(text[i..])
    {
      i := i + 1;
    }
    arg := text[i..];
  }

  // ----- the body, as one call of `process_cmd` reads it -----

  /** Where reading a body ends: behind its end mark, or at the end of the input. */
  datatype BodyRead = BodyRead(server: Server, rest: string, complete: bool)

  function ReadBody(s: Server, input: string): BodyRead
    requires s.mode == Data
    decreases |input|
  {
    match LineLength(input, CRLF)
    case None => BodyRead(s, input, false)
    case Some(n) =>
      var (s', code) := s.BodyLine(input[..n - 2]);
      if code.Some? then BodyRead(s', input[n..], true) else ReadBody(s', input[n..])
  }

  lemma ReadBodyStep(s: Server, input: string)
    requires s.mode == Data
    ensures ReadBody(s, input) ==
      match LineLength(input, CRLF)
      case None => BodyRead(s, input, false)
      case Some(n) =>
        var text := CStr(input[..n - 2]);
        if text == "." then BodyRead(s.DataEnd(), input[n..], true)
        else ReadBody(s.DataLine(if text != "" && text[0] == '.' then text[1..] else text), input[n..])
  {
    hide LineLength, CStr;
  }

  lemma {:induction false} ReadBodyRuns(s: Server, input: string, domain: string)
    requires s.mode == Data
    ensures var b := ReadBody(s, input);
      if b.complete then
        && b.server.mode == Command && b.server.cur == NO_MSG
        && Run(s, input, domain) == Run(b.server, b.rest, domain).After(Reply(250, domain))
      else b.server.mode == Data && Run(s, input, domain) == Served(b.server, "", b.rest)
    decreases |input|
  {
    hide Reply, LineLength, Server.BodyLine, Run;
    if LineLength(input, CRLF).Some? {
      var n := LineLength(input, CRLF).value;
      RunUnfold(s, input, domain);
      var (s', code) := s.BodyLine(input[..n - 2]);
      BodyLineModes(s, input[..n - 2]);
      if code.None? {
        ReadBodyRuns(s', input[n..], domain);
        AfterAfter("", "", Run(s', input[n..], domain));
      }
    } else {
      RunNoLine(s, input, domain);
    }
  }

  lemma BodyLineModes(s: Server, content: string)
    requires s.mode == Data
    ensures var (s', code) := s.BodyLine(content);
      if code.Some? then code.value == 250 && s'.mode == Command && s'.cur == NO_MSG else s'.mode == Data
  {
    hide CStr;
  }

  lemma RunNoLine(s: Server, input: string, domain: string)
    requires LineLength(input, CRLF).None?
    ensures Run(s, input, domain) == Served(s, "", input)
  {
    hide LineLength;
  }

  // ----- the sessions -----

  /** The `SMTP` object: one end of a connection. */
  class Session {
    const input: BufferedInput
    const output: BufferedOutput
    const domain: CString

    constructor (input: BufferedInput, output: BufferedOutput, domain: CString)
      ensures this.input == input && this.output == output && this.domain == domain
    {
      this.input := input;
      this.output := output;
      this.domain := domain;
    }

    /** Two separate streams, either of which may fail. */
    ghost predicate Connected()
      reads this, input, input.buf, output, output.buf
      ensures Connected() ==> input.Valid() && output.Valid()
    {
      && input.Valid() && output.Valid()
      && input.buf != output.buf && input.buf.buf != output.buf.buf
      && output.buf.buf.Length >= DEFAULT_BUFSIZE
    }

    /** ... of which the writing one does not fail, and has nothing left in its buffer. */
    ghost predicate Ready()
      reads this, input, input.buf, output, output.buf
      ensures Ready() ==> Connected() && output.client.reliable
    {
      Connected() && output.client.reliable && output.buf.end == 0
    }

    /** Writes a reply: its code and its text, separately formatted. */
    method SendResponse(code: int) returns (err: int)
      requires Connected() && IsReplyCode(code) && |Reply(code, domain)| <= INT_MAX
      requires output.buf.TailBytes() > |Reply(code, domain)|
      modifies output.buf, output.buf.buf, output.client
      ensures Connected() && (output.buf.buf == old(output.buf.buf) || fresh(output.buf.buf))
      ensures output.client.reliable ==> Ready()
      ensures err >= 0 && input.Pending() == old(input.Pending())
      ensures output.Written() == old(output.Written()) + Reply(code, domain)
    {
      hide Reply, Prefix, Text, ReplyFormat, Puts, Formatting, Callable, Prints, BufferedOutput.Written;
      ReplySize(code, domain);
      PrintsPrefix(code);
      PrintsText(code, domain);
      ghost var written := output.Written();
      var n := Put("%d ", [Arg(PrintfScan.Int, Num(code))], Prefix(code));
      if n < 0 {
        return n;
      }
      err := Say(ReplyFormat(code), [Arg(PrintfScan.CharP, Str(Some(domain)))], Text(code, domain));
      ReplyParts(written, code, domain);
    }

    /** `format_buf` of a text for which there is room. */
    method Put(format: string, args: seq<Arg>, ghost text: string) returns (len: int)
      requires Connected() && Prints(format, args, text) && |text| < output.buf.TailBytes()
      modifies output.buf, output.buf.buf, output.client
      ensures Connected() && (output.buf.buf == old(output.buf.buf) || fresh(output.buf.buf))
      ensures len == |text| && input.Pending() == old(input.Pending())
      ensures output.Written() == old(output.Written()) + text
      ensures output.buf.TailBytes() >= old(output.buf.TailBytes()) - |text|
    {
      hide Puts, Formatting, Callable, Prints, BufferedOutput.Written;
      ghost var written, tail := output.Written(), output.buf.TailBytes();
      PrintsIs(format, args, text);
      len := output.FormatBuf(format, args);
      FormattedFits(format, args, text, tail, written, output.Written(), len);
    }

    /** `printf` of a text for which there is room. */
    method Say(format: string, args: seq<Arg>, ghost text: string) returns (len: int)
      requires Connected() && Prints(format, args, text) && |text| < output.buf.TailBytes()
      modifies output.buf, output.buf.buf, output.client
      ensures Connected() && (output.buf.buf == old(output.buf.buf) || fresh(output.buf.buf))
      ensures output.client.reliable ==> Ready()
      ensures len == |text| && input.Pending() == old(input.Pending())
      ensures output.Written() == old(output.Written()) + text
    {
      hide Puts, Formatting, Callable, Prints, BufferedOutput.Written;
      ghost var written, tail := output.Written(), output.buf.TailBytes();
      PrintsIs(format, args, text);
      len := output.Printf(format, args);
      FormattedFits(format, args, text, tail, written, output.Written(), len);
    }

    /** The next line, or 0 at the end of the input. */
    method GetLine() returns (cc: int, line: string)
      requires Connected()
      modifies input, input.buf, input.buf.buf, input.client
      ensures Connected() && (old(Ready()) ==> Ready()) && output.Written() == old(output.Written())
      ensures input.buf.buf == old(input.buf.buf) || fresh(input.buf.buf)
      ensures cc < 0 ==> !input.client.reliable && input.Pending() == old(input.Pending())
      ensures cc > 0 ==> LineLength(old(input.Pending()), CRLF) == Some(cc)
                         && line == old(input.Pending())[..cc] && input.Pending() == old(input.Pending())[cc..]
                         && line[..cc - 2] == old(input.Pending())[..cc - 2]
      ensures cc == 0 ==> LineLength(old(input.Pending()), CRLF) == None && input.Pending() == old(input.Pending())
    {
      hide LineLength;
      ghost var pending := input.Pending();
      cc, line := input.ReadLine(CRLF);
      if cc > 0 {
        assert line[..cc - 2] == pending[..cc - 2];
      }
    }

    /** `process_response`: reads one line and checks its code. */
    method ProcessResponse(expected: int) returns (err: int)
      requires Connected()
      modifies input, input.buf, input.buf.buf, input.client
      ensures Connected() && (old(Ready()) ==> Ready()) && output.Written() == old(output.Written())
      ensures input.buf.buf == old(input.buf.buf) || fresh(input.buf.buf)
      ensures input.client.reliable ==> err != -1
      ensures Answered(old(input.Pending()), expected, err, input.Pending())
    {
      hide LineLength, Ready, Connected, ParseCode;
      var cc, line := GetLine();
      if cc < 0 {
        return -1;
      } else if cc == 0 {
        return 221;
      }
      if cc < 3 {
        return 500;
      }
      var code := ParseCode(line[..3]);
      if code.None? {
        return 501;
      }
      if code.value != expected {
        return 503;
      }
      return 0;
    }

    /** The body lines of a DATA command. */
    method ReadMessage(handler: Handler) returns (resp: int)
      requires Connected()
      modifies input, input.buf, input.buf.buf, input.client, handler
      ensures Connected() && (old(Ready()) ==> Ready())
      ensures output.Written() == old(output.Written()) && (input.buf.buf == old(input.buf.buf) || fresh(input.buf.buf))
      ensures resp == 250 || resp == -1
      ensures MessageRead(old(handler.State(Data)), old(input.Pending()), resp,
                          handler.State(if resp == 250 then Command else Data), input.Pending(), input.client.reliable)
    {
      hide LineLength, Ready, Connected, CStr, ReadBody, Server.DataLine, BufferedInput.Pending, BufferedOutput.Written;
      ghost var b := ReadBody(handler.State(Data), input.Pending());
      while true
        invariant Connected() && (old(Ready()) ==> Ready())
        invariant output.Written() == old(output.Written()) && (input.buf.buf == old(input.buf.buf) || fresh(input.buf.buf))
        invariant ReadBody(handler.State(Data), input.Pending()) == b
        decreases |input.Pending()|
      {
        ReadBodyStep(handler.State(Data), input.Pending());
        var cc, line := GetLine();
        if cc <= 0 {
          return -1;
        }
        var text := CStr(line[..cc - 2]);
        if text != "" && text[0] == '.' {
          if |text| == 1 {
            break;
          }
          text := text[1..];
        }
        var err := handler.DataLine(text);
        if err != 0 {
          return err;
        }
      }
      resp := handler.DataEnd();
    }

    /** The commands other than DATA; -1 stands for DATA. */
    method Dispatch(handler: Handler, content: string) returns (resp: int)
      requires |content| + 2 >= 4
      modifies handler
      ensures var (s', code) := old(handler.State(Command)).CommandLine(content);
        if resp == -1 then
          handler.State(Command) == old(handler.State(Command)) && s' == old(handler.State(Command)).DataBegin()
          && (handler.body == "" ==> code == Some(354))
        else
          code == Some(resp) && s' == handler.State(if resp == 221 then Quit else Command) && handler.body == old(handler.body)
    {
      hide CStr, SkipSpaces, StartsWith;
      var cmd := CStr(if |content| < 4 then content else content[..4]);
      if |cmd| < 4 {
        return 500;
      } else if StartsWith(cmd, "HELO") {
        if |content| == 4 || content[4] != ' ' {
          return 501;
        }
        var helo := SkipWs(content, 5);
        return if helo == "" then 501 else 250;
      } else if StartsWith(cmd, "MAIL") {
        if !StartsWith(content, "MAIL FROM:") {
          return 501;
        }
        KeywordLength(content, "MAIL FROM:");
        var from := SkipWs(content, 10);
        if from == "" {
          return 501;
        }
        resp := handler.Mail(from);
      } else if StartsWith(cmd, "RCPT") {
        if !StartsWith(content, "RCPT TO:") {
          return 501;
        }
        KeywordLength(content, "RCPT TO:");
        var to := SkipWs(content, 8);
        if to == "" {
          return 501;
        }
        resp := handler.Rcpt(to);
      } else if StartsWith(cmd, "DATA") {
        return -1;
      } else if StartsWith(cmd, "RSET") {
        return 250;
      } else if StartsWith(cmd, "NOOP") {
        return 220;
      } else if StartsWith(cmd, "QUIT") {
        return 221;
      } else if StartsWith(cmd, "TURN") || StartsWith(cmd, "SEND") || StartsWith(cmd, "SOML") || StartsWith(cmd, "SAML")
                || StartsWith(cmd, "VRFY") || StartsWith(cmd, "EXPN") || StartsWith(cmd, "EHLO") {
        return 502;
      } else {
        return 500;
      }
    }

    /** A DATA command: the go-ahead, then the body. */
    method ServeData(handler: Handler, goAhead: int) returns (resp: int)
      requires Ready() && handler.body == "" && |domain| < 512 && IsReplyCode(goAhead)
      modifies input, input.buf, input.buf.buf, input.client, output.buf, output.buf.buf, output.client, handler
      ensures Ready()
      ensures input.buf.buf == old(input.buf.buf) || fresh(input.buf.buf)
      ensures output.buf.buf == old(output.buf.buf) || fresh(output.buf.buf)
      ensures output.Written() == old(output.Written()) + Reply(goAhead, domain)
      ensures resp == 250 || resp == -1
      ensures MessageRead(old(handler.State(Data)), old(input.Pending()), resp,
                          handler.State(if resp == 250 then Command else Data), input.Pending(), input.client.reliable)
    {
      hide *;
      RoomToReply(goAhead);
      var err := handler.DataBegin();
      var _ := SendResponse(goAhead);
      resp := ReadMessage(handler);
    }

    /** `process_cmd`: one command, with its body if it is DATA.  `said` is what was written
        before the response that the caller writes, `mode` how far the command got. */
    method ProcessCmd(handler: Handler) returns (resp: int, ghost said: string, ghost mode: Mode)
      requires Ready() && handler.body == "" && |domain| < 512
      modifies input, input.buf, input.buf.buf, input.client, output.buf, output.buf.buf, output.client, handler
      ensures Ready()
      ensures input.buf.buf == old(input.buf.buf) || fresh(input.buf.buf)
      ensures output.buf.buf == old(output.buf.buf) || fresh(output.buf.buf)
      ensures output.Written() == old(output.Written()) + said
      ensures mode != Asserted && (mode == Quit <==> resp == 221) && (resp >= 0 && resp != 221 ==> mode == Command)
      ensures Processed(old(handler.State(Command)), old(input.Pending()), resp, said,
                        handler.State(mode), input.Pending(), domain, input.client.reliable)
    {
      hide LineLength, Reply, Run, Server.CommandLine, MessageRead, Processed, Ready, Connected;
      said, mode := "", Command;
      ghost var s, pending := handler.State(Command), input.Pending();
      var cc, line := GetLine();
      if cc <= 0 {
        ProcessedNothing(s, pending, if cc < 0 then -1 else 0, domain, input.client.reliable);
        return if cc < 0 then -1 else 0, said, mode;
      }
      if cc < 4 {
        ProcessedShort(s, pending, domain, input.client.reliable);
        return 500, said, mode;
      }
      resp := Dispatch(handler, line[..cc - 2]);
      if resp != -1 {
        mode := if resp == 221 then Quit else Command;
        ProcessedLine(s, pending, resp, handler.State(mode), domain, input.client.reliable);
        return resp, said, mode;
      }
      said := Reply(354, domain);
      ghost var data, body := handler.State(Data), input.Pending();
      resp := ServeData(handler, 354);
      mode := if resp == 250 then Command else Data;
      ProcessedData(s, pending, data, body, resp, handler.State(mode), input.Pending(), domain, input.client.reliable);
    }

    /** `server_session`: whatever bytes the client sends, and however they arrive, the server
        greets, then does what `Run` says of them, until the input ends or QUIT; a failing read
        ends the session on the way.  The handler's assertion holds. */
    method ServerSession(handler: Handler) returns (err: int, ghost mode: Mode, ghost said: string)
      requires Ready() && handler.body == "" && |domain| < 512
      modifies input, input.buf, input.buf.buf, input.client, output.buf, output.buf.buf, output.client, handler
      ensures Ready() && mode != Asserted
      ensures output.Written() == old(output.Written()) + Greeting(domain) + said
      ensures Run(old(handler.State(Command)), old(input.Pending()), domain)
           == Run(handler.State(mode), input.Pending(), domain).After(said)
      ensures input.client.reliable ==>
        Run(old(handler.State(Command)), old(input.Pending()), domain)
        == Served(handler.State(mode), said, input.Pending())
    {
      hide LineLength, Reply, Run, Processed, Ready, Connected, Greeting, BufferedInput.Pending, BufferedOutput.Written;
      ghost var r := Run(handler.State(Command), input.Pending(), domain);
      ghost var written := output.Written();
      err := Greet();
      mode, said := Command, "";
      assert r.After("") == r by { AfterAfter("", "", r); }
      AppendNothing(written + Greeting(domain));
      while true
        invariant Ready() && handler.body == "" && mode == Command
        invariant input.buf.buf == old(input.buf.buf) || fresh(input.buf.buf)
        invariant output.buf.buf == old(output.buf.buf) || fresh(output.buf.buf)
        invariant output.Written() == written + Greeting(domain) + said
        invariant r == Run(handler.State(Command), input.Pending(), domain).After(said)
        decreases |input.Pending()|
      {
        ghost var s, pending := handler.State(Command), input.Pending();
        var resp;
        ghost var more;
        resp, more, mode := ProcessCmd(handler);
        ProcessedEnds(s, pending, resp, more, handler.State(mode), input.Pending(), said, domain, input.client.reliable);
        if resp > 0 {
          err := Respond(resp);
          RegroupText(written + Greeting(domain), said, more, Reply(resp, domain));
          said := said + (more + Reply(resp, domain));
          if resp == 221 {
            break;
          }
        } else {
          RegroupText(written + Greeting(domain), said, more, "");
          said := said + more;
          break;
        }
      }
    }

    /** `send_response` between commands, when the buffer is empty. */
    method Respond(code: int) returns (err: int)
      requires Ready() && |domain| < 512 && IsReplyCode(code)
      modifies output.buf, output.buf.buf, output.client
      ensures Ready() && (output.buf.buf == old(output.buf.buf) || fresh(output.buf.buf))
      ensures err >= 0 && input.Pending() == old(input.Pending())
      ensures output.Written() == old(output.Written()) + Reply(code, domain)
    {
      RoomToReply(code);
      err := SendResponse(code);
    }

    lemma RoomToSay(text: string)
      requires Ready() && |text| < DEFAULT_BUFSIZE
      ensures Connected() && output.client.reliable && |text| < output.buf.TailBytes()
    {
    }

    lemma RoomToReply(code: int)
      requires Ready() && |domain| < 512 && IsReplyCode(code)
      ensures Connected() && output.client.reliable && |Reply(code, domain)| <= INT_MAX
      ensures output.buf.TailBytes() > |Reply(code, domain)|
    {
      hide Prefix, Text;
      ReplySize(code, domain);
    }

    method Greet() returns (err: int)
      requires Ready() && |domain| < 512
      modifies output.buf, output.buf.buf, output.client
      ensures Ready() && (output.buf.buf == old(output.buf.buf) || fresh(output.buf.buf))
      ensures err >= 0 && input.Pending() == old(input.Pending())
      ensures output.Written() == old(output.Written()) + Greeting(domain)
    {
      err := Respond(220);
    }

    /** `printf` of a line, and the wait for its answer. */
    method AskFor(format: string, args: seq<Arg>, ghost text: string, code: int) returns (err: int)
      requires Ready() && Prints(format, args, text) && |text| < DEFAULT_BUFSIZE
      modifies input, input.buf, input.buf.buf, input.client, output.buf, output.buf.buf, output.client
      ensures Ready()
      ensures input.buf.buf == old(input.buf.buf) || fresh(input.buf.buf)
      ensures output.buf.buf == old(output.buf.buf) || fresh(output.buf.buf)
      ensures output.Written() == old(output.Written()) + text
      ensures (input.client.reliable ==> err != -1) && Answered(old(input.Pending()), code, err, input.Pending())
    {
      hide *;
      RoomToSay(text);
      var _ := Say(format, args, text);
      err := ProcessResponse(code);
    }

    /** The same for a format with one "%s". */
    method AskWith(pre: string, arg: string, code: int) returns (err: int)
      requires Ready() && Literal(pre) && |pre| <= 11 && |arg| < DEFAULT_BUFSIZE - 16
      modifies input, input.buf, input.buf.buf, input.client, output.buf, output.buf.buf, output.client
      ensures Ready()
      ensures input.buf.buf == old(input.buf.buf) || fresh(input.buf.buf)
      ensures output.buf.buf == old(output.buf.buf) || fresh(output.buf.buf)
      ensures output.Written() == old(output.Written()) + (pre + CStr(arg) + CRLF)
      ensures (input.client.reliable ==> err != -1) && Answered(old(input.Pending()), code, err, input.Pending())
    {
      hide LineLength, Prints, CStr, BufferedInput.Pending, BufferedOutput.Written, Answered, Ready, Connected;
      PrintsString(pre, arg, CRLF);
      err := AskFor(pre + "%s" + CRLF, [Arg(PrintfScan.CharP, Str(Some(arg)))], pre + CStr(arg) + CRLF, code);
    }

    /** One line of the body, in up to three writes. */
    method SendLine(body: string, start: nat, end: nat)
      requires Connected() && start <= end <= |body|
      requires start < |body| && body[start] == '.' ==> start < end
      modifies output.buf, output.buf.buf, output.client
      ensures Connected() && (output.buf.buf == old(output.buf.buf) || fresh(output.buf.buf))
      ensures output.Written() == old(output.Written()) + (Stuffed(body[start..end]) + CRLF)
      ensures input.Pending() == old(input.Pending())
    {
      hide BufferedOutput.Written, Stuffed;
      ghost var before := output.Written();
      if start < |body| && body[start] == '.' {
        var _ := output.Write(".");
      }
      if end != start {
        var _ := output.Write(body[start..end]);
      }
      var _ := output.Write(CRLF);
      StuffedInPieces(before, body, start, end);
    }

    /** The body loop of `client_session`, with its end mark and the final flush. */
    method SendBody(body: string)
      requires Connected()
      modifies output.buf, output.buf.buf, output.client
      ensures Connected() && (output.client.reliable ==> Ready())
      ensures output.buf.buf == old(output.buf.buf) || fresh(output.buf.buf)
      ensures output.Written() == old(output.Written()) + Wire(body) && input.Pending() == old(input.Pending())
    {
      hide FirstBreak, AfterBreak, BufferedOutput.Written, BufferedInput.Pending, StuffedLines, Stuffed, BodyLines, Wire;
      ghost var written := output.Written();
      var start := 0;
      ghost var rest := StuffedLines(BodyLines(body));
      var more := true;
      while more
        invariant 0 <= start <= |body|
        invariant Connected() && (output.buf.buf == old(output.buf.buf) || fresh(output.buf.buf))
        invariant input.Pending() == old(input.Pending())
        invariant rest == if more then StuffedLines(BodyLines(body, start)) else ""
        invariant written + StuffedLines(BodyLines(body)) == output.Written() + rest
        decreases |body| - start, more
      {
        ghost var before := output.Written();
        var end := FirstBreak(body, start);
        DotIsNoBreak(body, start);
        BodyLinesUnfold(body, start, before);
        SendLine(body, start, end);
        if end == |body| {
          more := false;
        } else {
          start := AfterBreak(body, end);
          if start == |body| {
            more := false;
          }
        }
        rest := if more then StuffedLines(BodyLines(body, start)) else "";
      }
      AppendNothing(output.Written());
      var _ := output.Write(".\r\n");
      var _ := output.Flush();
      WireIs(written, body);
    }

    /** The start of a connection: the server's greeting, then HELO. */
    method Handshake(helo: string, ghost tail: seq<Act>) returns (err: int)
      requires Ready() && |helo| < DEFAULT_BUFSIZE - 16
      modifies input, input.buf, input.buf.buf, input.client, output.buf, output.buf.buf, output.client
      ensures Ready()
      ensures input.buf.buf == old(input.buf.buf) || fresh(input.buf.buf)
      ensures output.buf.buf == old(output.buf.buf) || fresh(output.buf.buf)
      ensures input.client.reliable ==> err != -1
      ensures Progress(old(input.Pending()), [Expect(220)] + (Ask("HELO " + CStr(helo) + CRLF, 250) + tail),
                       old(output.Written()),
                       err, tail, input.Pending(), output.Written())
    {
      hide *;
      LiteralCommands();
      ghost var pending, written := input.Pending(), output.Written();
      ghost var hello := Ask("HELO " + CStr(helo) + CRLF, 250) + tail;
      ghost var all := [Expect(220)] + hello;
      ProgressStart(pending, all, written);
      err := ProcessResponse(220);
      ProgressHear(pending, all, written, 220, hello, pending, written, err, input.Pending());
      if err != 0 {
        ProgressFailed(pending, all, written, err, hello, tail, input.Pending(), output.Written());
        return;
      }
      ghost var p := input.Pending();
      err := AskWith("HELO ", helo, 250);
      ProgressAsk(pending, all, written, "HELO " + CStr(helo) + CRLF, 250, tail, p, written, err, input.Pending());
    }

    /** One RCPT command for each recipient. */
    method SendRecipients(to: seq<string>, ghost tail: seq<Act>) returns (err: int)
      requires Ready() && forall k :: 0 <= k < |to| ==> |to[k]| < DEFAULT_BUFSIZE - 16
      modifies input, input.buf, input.buf.buf, input.client, output.buf, output.buf.buf, output.client
      ensures Ready()
      ensures input.buf.buf == old(input.buf.buf) || fresh(input.buf.buf)
      ensures output.buf.buf == old(output.buf.buf) || fresh(output.buf.buf)
      ensures input.client.reliable ==> err != -1
      ensures Progress(old(input.Pending()), AskAll(CStrs(to)) + tail, old(output.Written()),
                       err, tail, input.Pending(), output.Written())
    {
      hide LineLength, Ready, Connected, BufferedInput.Pending, BufferedOutput.Written, Answered, Progress, Ask, AskAll,
           CStr, Literal;
      LiteralCommands();
      ghost var pending, written := input.Pending(), output.Written();
      err := 0;
      var i := 0;
      assert CStrs(to)[0..] == CStrs(to);
      ProgressStart(pending, AskAll(CStrs(to)) + tail, written);
      while i < |to|
        invariant 0 <= i <= |to| && err == 0 && Ready()
        invariant input.buf.buf == old(input.buf.buf) || fresh(input.buf.buf)
        invariant output.buf.buf == old(output.buf.buf) || fresh(output.buf.buf)
        invariant Progress(pending, AskAll(CStrs(to)) + tail, written,
                           0, AskAll(CStrs(to)[i..]) + tail, input.Pending(), output.Written())
      {
        ghost var p, w := input.Pending(), output.Written();
        AskAllStep(CStrs(to), i, tail);
        err := AskWith("RCPT TO: ", to[i], 250);
        ProgressAsk(pending, AskAll(CStrs(to)) + tail, written, "RCPT TO: " + CStr(to[i]) + CRLF, 250,
                    AskAll(CStrs(to)[i + 1..]) + tail, p, w, err, input.Pending());
        if err != 0 {
          ProgressFailed(pending, AskAll(CStrs(to)) + tail, written, err, AskAll(CStrs(to)[i + 1..]) + tail, tail,
                         input.Pending(), output.Written());
          return;
        }
        i := i + 1;
      }
      AskAllDone(CStrs(to), tail);
    }

    /** `client_session`, for a sender with the message `m` and nothing to put before its body. */
    method ClientSession(m: Msg, helo: string, first: bool) returns (err: int)
      requires Ready() && |helo| < DEFAULT_BUFSIZE - 16 && |m.from| < DEFAULT_BUFSIZE - 16
      requires forall k :: 0 <= k < |m.to| ==> |m.to[k]| < DEFAULT_BUFSIZE - 16
      modifies input, input.buf, input.buf.buf, input.client, output.buf, output.buf.buf, output.client
      ensures Ready()
      ensures input.client.reliable ==> err != -1
      ensures Concluded(old(input.Pending()), Script(Terminated(m), first, CStr(helo)), old(output.Written()),
                        err, input.Pending(), output.Written())
    {
      hide *;
      LiteralCommands();
      TerminatedIs(m);
      ghost var pending, written, script := input.Pending(), output.Written(), Script(Terminated(m), first, CStr(helo));
      ghost var body := Ask(Wire(m.body), 250);
      ghost var data := Ask("DATA\r\n", 354) + body;
      ghost var rcpt := AskAll(CStrs(m.to)) + data;
      ghost var mail := Ask("MAIL FROM: " + CStr(m.from) + CRLF, 250) + rcpt;
      ghost var p, w := pending, written;
      ProgressStart(pending, script, written);
      ScriptParts(Terminated(m), first, CStr(helo));
      if first {
        err := Handshake(helo, mail);
        ProgressChain(pending, script, written, script, p, w, err, mail, input.Pending(), output.Written());
        if err != 0 {
          ProgressEnds(pending, script, written, err, mail, input.Pending(), output.Written());
          return;
        }
      }

      p, w := input.Pending(), output.Written();
      err := AskWith("MAIL FROM: ", m.from, 250);
      ProgressAsk(pending, script, written, "MAIL FROM: " + CStr(m.from) + CRLF, 250, rcpt, p, w, err, input.Pending());
      if err != 0 {
        ProgressEnds(pending, script, written, err, rcpt, input.Pending(), output.Written());
        return;
      }

      p, w := input.Pending(), output.Written();
      err := SendRecipients(m.to, data);
      ProgressChain(pending, script, written, rcpt, p, w, err, data, input.Pending(), output.Written());
      if err != 0 {
        ProgressEnds(pending, script, written, err, data, input.Pending(), output.Written());
        return;
      }

      p, w := input.Pending(), output.Written();
      err := SendMessage(m.body);
      ProgressChain(pending, script, written, data, p, w, err, [], input.Pending(), output.Written());
      ProgressEnds(pending, script, written, err, [], input.Pending(), output.Written());
    }

    /** The DATA command, the body, and the wait for the final answer. */
    method SendMessage(body: string) returns (err: int)
      requires Ready()
      modifies input, input.buf, input.buf.buf, input.client, output.buf, output.buf.buf, output.client
      ensures Ready()
      ensures input.buf.buf == old(input.buf.buf) || fresh(input.buf.buf)
      ensures output.buf.buf == old(output.buf.buf) || fresh(output.buf.buf)
      ensures input.client.reliable ==> err != -1
      ensures Progress(old(input.Pending()), Ask("DATA\r\n", 354) + Ask(Wire(body), 250), old(output.Written()),
                       err, [], input.Pending(), output.Written())
    {
      hide LineLength, Ready, Connected, BufferedInput.Pending, BufferedOutput.Written, Answered, Progress, Ask, Wire,
           Literal, Prints;
      LiteralCommands();
      ghost var pending, written := input.Pending(), output.Written();
      ghost var send := Ask(Wire(body), 250);
      ghost var all := Ask("DATA\r\n", 354) + send;
      ProgressStart(pending, all, written);
      PrintsLiteral("DATA\r\n", []);
      err := AskFor("DATA\r\n", [], "DATA\r\n", 354);
      ProgressAsk(pending, all, written, "DATA\r\n", 354, send, pending, written, err, input.Pending());
      if err != 0 {
        ProgressFailed(pending, all, written, err, send, [], input.Pending(), output.Written());
        return;
      }
      ghost var p, w := input.Pending(), output.Written();
      SendBody(body);
      err := ProcessResponse(250);
      assert send + [] == send;
      ProgressAsk(pending, all, written, Wire(body), 250, [], p, w, err, input.Pending());
    }
  }

  /** One response was read and checked; -1 means that reading failed. */
  ghost predicate Answered(pending: string, code: int, err: int, rest: string) {
    if err == -1 then rest == pending
    else match LineLength(pending, CRLF)
      case None => err == 221 && rest == pending
      case Some(n) => err == CheckReply(pending[..n], code) && rest == pending[n..]
  }

  /** A response is fine exactly if the next line comes and carries the awaited code; another
      number is 503. */
  lemma AnsweredMeans(pending: string, code: int, err: int, rest: string)
    requires Answered(pending, code, err, rest)
    ensures err == 0 <==> Lines(pending) != [] && err != -1 && Carries(Lines(pending)[0], code)
    ensures err == 503 <==>
      Lines(pending) != [] && err != -1 && exists v: int :: v != code && Carries(Lines(pending)[0], v)
    ensures err != -1 && Lines(pending) != [] ==> pending == Lines(pending)[0] + rest
    ensures err == -1 || Lines(pending) == [] ==> rest == pending
  {
    hide LineLength, Carries, CheckReply;
    if LineLength(pending, CRLF).Some? {
      CheckReplyMeaning(pending[..LineLength(pending, CRLF).value], code);
    }
  }

  // ----- how far a client has come -----

  ghost predicate IsTail(acts': seq<Act>, acts: seq<Act>) {
    |acts'| <= |acts| && acts[|acts| - |acts'|..] == acts'
  }

  /** A client that started on `acts` with `pending` bytes to read and `written` bytes written
      has come to `rest` and `out`, with `acts'` left to do. */
  ghost predicate OnTheWay(pending: string, acts: seq<Act>, written: string, acts': seq<Act>, rest: string, out: string)
  {
    var t, t' := Talk(acts, pending), Talk(acts', rest);
    IsTail(acts', acts) && t.err == t'.err && t.rest == t'.rest && written + t.said == out + t'.said
  }

  /** Reading failed somewhere on the way. */
  ghost predicate Interrupted(pending: string, acts: seq<Act>, written: string, rest: string, out: string) {
    exists left: seq<Act> :: left != [] && OnTheWay(pending, acts, written, left, rest, out)
  }

  /** A whole session: all that `Talk` says, or as much of it as a failing read allowed. */
  ghost predicate Concluded(pending: string, acts: seq<Act>, written: string, err: int, rest: string, out: string) {
    if err == -1 then Interrupted(pending, acts, written, rest, out)
    else
      var t := Talk(acts, pending);
      err == t.err && rest == t.rest && out == written + t.said
  }

  /** A session returns 0 exactly if every line it waits for comes and carries its code.  When one
      does not, what comes before it has been said, and nothing behind it. */
  lemma ConcludedMeans(pending: string, acts: seq<Act>, written: string, err: int, rest: string, out: string)
    requires Concluded(pending, acts, written, err, rest, out) && err != -1
    ensures var codes, lines := Awaited(acts), Lines(pending);
      && (err == 0 <==> |codes| <= |lines| && forall j :: 0 <= j < |codes| ==> Carries(lines[j], codes[j]))
      && exists k :: 0 <= k <= |codes| && k <= |lines| && (forall j :: 0 <= j < k ==> Carries(lines[j], codes[j]))
           && out == written + SaidBefore(acts, k)
           && (err != 0 ==> k < |codes| && (k == |lines| || !Carries(lines[k], codes[k])))
  {
    hide Talk, Awaited, Lines, Carries, SaidBefore, Behind, CheckReply;
    TalkSucceeds(acts, pending);
    var k := TalkMeaning(acts, pending);
    assert out == written + SaidBefore(acts, k);
  }

  /** It is on the way with `acts'` left to do, or it was interrupted, or it has failed. */
  ghost predicate Progress(pending: string, acts: seq<Act>, written: string,
                           err: int, acts': seq<Act>, rest: string, out: string)
  {
    if err == 0 then OnTheWay(pending, acts, written, acts', rest, out)
    else if err == -1 then Interrupted(pending, acts, written, rest, out)
    else
      var t := Talk(acts, pending);
      t.err == err && t.rest == rest && written + t.said == out
  }

  lemma ProgressStart(pending: string, acts: seq<Act>, written: string)
    ensures Progress(pending, acts, written, 0, acts, pending, written)
  {
  }

  lemma ProgressFailed(pending: string, acts: seq<Act>, written: string, err: int,
                       acts': seq<Act>, acts'': seq<Act>, rest: string, out: string)
    requires err != 0 && Progress(pending, acts, written, err, acts', rest, out)
    ensures Progress(pending, acts, written, err, acts'', rest, out)
  {
  }

  lemma ProgressEnds(pending: string, acts: seq<Act>, written: string, err: int, acts': seq<Act>, rest: string, out: string)
    requires Progress(pending, acts, written, err, acts', rest, out) && (err == 0 ==> acts' == [])
    ensures Concluded(pending, acts, written, err, rest, out)
  {
    hide Interrupted;
    AppendNothing(out);
  }

  lemma WayOn(pending: string, acts: seq<Act>, written: string, acts': seq<Act>, p: string, w: string,
              acts'': seq<Act>, rest: string, out: string)
    requires OnTheWay(pending, acts, written, acts', p, w) && OnTheWay(p, acts', w, acts'', rest, out)
    ensures OnTheWay(pending, acts, written, acts'', rest, out)
  {
    hide Talk;
    assert acts[|acts| - |acts''|..] == acts[|acts| - |acts'|..][|acts'| - |acts''|..];
  }

  lemma ProgressChain(pending: string, acts: seq<Act>, written: string, acts': seq<Act>, p: string, w: string,
                      err: int, acts'': seq<Act>, rest: string, out: string)
    requires Progress(pending, acts, written, 0, acts', p, w)
    requires Progress(p, acts', w, err, acts'', rest, out)
    ensures Progress(pending, acts, written, err, acts'', rest, out)
  {
    if err == -1 {
      hide OnTheWay;
      var left: seq<Act> :| left != [] && OnTheWay(p, acts', w, left, rest, out);
      WayOn(pending, acts, written, acts', p, w, left, rest, out);
    } else if err == 0 {
      WayOn(pending, acts, written, acts', p, w, acts'', rest, out);
    } else {
      hide Talk;
    }
  }

  lemma ProgressHear(pending: string, acts: seq<Act>, written: string, code: int, acts': seq<Act>,
                     p: string, w: string, err: int, rest: string)
    requires Progress(pending, acts, written, 0, [Expect(code)] + acts', p, w)
    requires Answered(p, code, err, rest)
    ensures Progress(pending, acts, written, err, acts', rest, w)
  {
    hide OnTheWay, Answered;
    HearOne(code, acts', p, w, err, rest);
    ProgressChain(pending, acts, written, [Expect(code)] + acts', p, w, err, acts', rest, w);
  }

  lemma HearOne(code: int, acts: seq<Act>, p: string, w: string, err: int, rest: string)
    requires Answered(p, code, err, rest)
    ensures Progress(p, [Expect(code)] + acts, w, err, acts, rest, w)
  {
    hide LineLength, CheckReply;
    var all := [Expect(code)] + acts;
    assert all[1..] == acts;
    AppendNothing(w);
    if err == -1 {
      assert all[|all| - |all|..] == all;
      assert OnTheWay(p, all, w, all, rest, w);
    }
  }

  lemma ProgressAsk(pending: string, acts: seq<Act>, written: string, text: string, code: int, acts': seq<Act>,
                    p: string, w: string, err: int, rest: string)
    requires Progress(pending, acts, written, 0, Ask(text, code) + acts', p, w)
    requires Answered(p, code, err, rest)
    ensures Progress(pending, acts, written, err, acts', rest, w + text)
  {
    hide LineLength, CheckReply, Progress, Answered;
    AskedFor(text, code, acts', p, w);
    ProgressChain(pending, acts, written, Ask(text, code) + acts', p, w, 0, [Expect(code)] + acts', p, w + text);
    ProgressHear(pending, acts, written, code, acts', p, w + text, err, rest);
  }

  lemma AskedFor(text: string, code: int, acts: seq<Act>, p: string, w: string)
    ensures Progress(p, Ask(text, code) + acts, w, 0, [Expect(code)] + acts, p, w + text)
  {
    hide LineLength, CheckReply, Talk;
    TalkAsk(text, code, acts, p);
    var all := Ask(text, code) + acts;
    assert all[2..] == [Expect(code)] + acts;
    RegroupText(w, text, Talk([Expect(code)] + acts, p).said, "");
  }

  lemma TalkAsk(text: string, code: int, acts: seq<Act>, p: string)
    ensures Talk(Ask(text, code) + acts, p) == Talk([Expect(code)] + acts, p).After(text)
  {
    hide LineLength, CheckReply;
    var hear := [Expect(code)] + acts;
    var flush := [Flush] + hear;
    var say := [Say(text)] + flush;
    assert flush[1..] == hear && say[1..] == flush && say == Ask(text, code) + acts;
  }

  lemma AskAllStep(to: seq<string>, i: nat, tail: seq<Act>)
    requires i < |to|
    ensures AskAll(to[i..]) + tail == Ask("RCPT TO: " + to[i] + CRLF, 250) + (AskAll(to[i + 1..]) + tail)
  {
    hide Ask;
    assert to[i..][1..] == to[i + 1..];
    var a := Ask("RCPT TO: " + to[i] + CRLF, 250);
    assert (a + AskAll(to[i + 1..])) + tail == a + (AskAll(to[i + 1..]) + tail);
  }

  lemma AskAllDone(to: seq<string>, tail: seq<Act>)
    ensures AskAll(to[|to|..]) + tail == tail
  {
  }

  lemma ScriptParts(m: Msg, first: bool, helo: string)
    ensures var mail := Ask("MAIL FROM: " + m.from + CRLF, 250)
                        + (AskAll(m.to) + (Ask("DATA\r\n", 354) + Ask(Wire(m.body), 250)));
      Script(m, first, helo) == if first then [Expect(220)] + (Ask("HELO " + helo + CRLF, 250) + mail) else mail
  {
    hide Ask, AskAll, Wire;
    var a, b, c, d := Ask("MAIL FROM: " + m.from + CRLF, 250), AskAll(m.to), Ask("DATA\r\n", 354), Ask(Wire(m.body), 250);
    var h, k := [Expect(220)], Ask("HELO " + helo + CRLF, 250);
    assert [] + a + b + c + d == a + (b + (c + d));
    assert h + k + a + b + c + d == h + (k + (a + (b + (c + d))));
  }

  lemma StuffedInPieces(before: string, body: string, start: nat, end: nat)
    requires start <= end <= |body| && (start < |body| && body[start] == '.' ==> start < end)
    ensures var dot := if start < |body| && body[start] == '.' then before + "." else before;
      var text := if end != start then dot + body[start..end] else dot;
      text + CRLF == before + (Stuffed(body[start..end]) + CRLF)
  {
    var line := body[start..end];
    assert line != "" ==> line[0] == body[start];
    if line != "" && line[0] == '.' {
      assert Stuffed(line) == "." + line;
      assert before + "." + line + CRLF == before + ("." + line + CRLF);
    } else {
      assert Stuffed(line) == line;
      assert before + line + CRLF == before + (line + CRLF);
      assert line == "" ==> before + CRLF == before + (line + CRLF);
    }
  }

  lemma DotIsNoBreak(body: string, start: nat)
    requires start <= |body|
    ensures start < |body| && body[start] == '.' ==> start < FirstBreak(body, start)
  {
  }

  lemma BodyLinesUnfold(body: string, start: nat, before: string)
    requires start <= |body|
    ensures var end := FirstBreak(body, start);
      before + StuffedLines(BodyLines(body, start)) == before + (Stuffed(body[start..end]) + CRLF)
        + if end == |body| || AfterBreak(body, end) == |body| then ""
          else StuffedLines(BodyLines(body, AfterBreak(body, end)))
  {
    hide FirstBreak, AfterBreak, Stuffed;
    var end := FirstBreak(body, start);
    var line := body[start..end];
    var last := end == |body| || AfterBreak(body, end) == |body|;
    var later := if last then [] else BodyLines(body, AfterBreak(body, end));
    assert BodyLines(body, start) == [line] + later;
    assert ([line] + later)[1..] == later;
    RegroupText(before, Stuffed(line) + CRLF, StuffedLines(later), "");
  }

  lemma WireIs(written: string, body: string)
    ensures written + StuffedLines(BodyLines(body)) + ".\r\n" == written + Wire(body)
  {
    hide BodyLines, StuffedLines;
  }

  function Greeting(domain: string): string { Reply(220, domain) }

  lemma AppendNothing(s: string)
    ensures s + "" == s
  {
  }

  lemma RegroupText(a: string, b: string, c: string, d: string)
    ensures a + b + c + d == a + (b + (c + d))
    ensures a + b + c == a + (b + c)
  {
  }

  /** What reading a body did: it was read to its end mark, or as far as it goes. */
  ghost predicate MessageRead(s: Server, pending: string, resp: int, s': Server, rest: string, reliable: bool)
    requires s.mode == Data && (resp != 250 ==> s'.mode == Data)
  {
    var b := ReadBody(s, pending);
    if resp == 250 then b == BodyRead(s', rest, true)
    else resp == -1 && b == ReadBody(s', rest) && (reliable ==> b == BodyRead(s', rest, false))
  }

  /** What one call of `process_cmd` did: `s` and `pending` before, `s'` and `rest` after. */
  ghost predicate Processed(s: Server, pending: string, resp: int, said: string, s': Server, rest: string,
                            domain: string, reliable: bool)
  {
    if resp <= 0 then
      // the end of the input, or a failing read, between commands or inside a body
      && (resp == 0 || resp == -1) && Run(s, pending, domain) == Run(s', rest, domain).After(said)
      && (resp == 0 || reliable ==> Run(s', rest, domain) == Served(s', "", rest))
    else
      && IsReplyCode(resp) && |rest| < |pending| && s'.cur.body == ""
      && Run(s, pending, domain) == Run(s', rest, domain).After(said + Reply(resp, domain))
  }

  /** One round of the session's loop, on top of what was `said` before. */
  lemma ProcessedEnds(s: Server, pending: string, resp: int, more: string, s': Server, rest: string, said: string,
                      domain: string, reliable: bool)
    requires Processed(s, pending, resp, more, s', rest, domain, reliable)
    ensures resp <= 0 ==>
      && Run(s, pending, domain).After(said) == Run(s', rest, domain).After(said + more)
      && (reliable ==> Run(s, pending, domain).After(said) == Served(s', said + more, rest))
    ensures resp > 0 ==> IsReplyCode(resp) && |rest| < |pending| && s'.cur.body == ""
    ensures resp > 0 ==>
      Run(s, pending, domain).After(said) == Run(s', rest, domain).After(said + (more + Reply(resp, domain)))
    ensures resp > 0 && s'.mode == Quit ==>
      Run(s', rest, domain).After(said + (more + Reply(resp, domain))) == Served(s', said + (more + Reply(resp, domain)), rest)
  {
    hide Reply;
    if resp > 0 {
      AfterAfter(said, more + Reply(resp, domain), Run(s', rest, domain));
      AppendNothing(said + (more + Reply(resp, domain)));
    } else {
      hide Run;
      AfterAfter(said, more, Run(s', rest, domain));
      AppendNothing(said + more);
    }
  }

  lemma ProcessedNothing(s: Server, pending: string, resp: int, domain: string, reliable: bool)
    requires s.mode == Command && (if resp == 0 then LineLength(pending, CRLF).None? else resp == -1 && !reliable)
    ensures Processed(s, pending, resp, "", s, pending, domain, reliable)
  {
    hide LineLength;
    AfterAfter("", "", Run(s, pending, domain));
  }

  lemma ProcessedLine(s: Server, pending: string, resp: int, s': Server, domain: string, reliable: bool)
    requires s.mode == Command && s.cur.body == "" && s'.cur.body == "" && LineLength(pending, CRLF).Some?
    requires var n := LineLength(pending, CRLF).value; s.CommandLine(pending[..n - 2]) == (s', Some(resp))
    ensures Processed(s, pending, resp, "", s', pending[LineLength(pending, CRLF).value..], domain, reliable)
  {
    var n := LineLength(pending, CRLF).value;
    RunUnfold(s, pending, domain);
    hide LineLength, Run, Reply, Server.CommandLine;
    assert "" + Reply(resp, domain) == Reply(resp, domain);
  }

  lemma KeywordLength(content: string, keyword: string)
    requires StartsWith(content, keyword)
    ensures |content| >= |keyword|
  {
  }

  lemma ProcessedShort(s: Server, pending: string, domain: string, reliable: bool)
    requires s.mode == Command && s.cur.body == ""
    requires LineLength(pending, CRLF).Some? && LineLength(pending, CRLF).value < 4
    ensures Processed(s, pending, 500, "", s, pending[LineLength(pending, CRLF).value..], domain, reliable)
  {
    ProcessedLine(s, pending, 500, s, domain, reliable);
  }

  lemma ProcessedData(s: Server, pending: string, data: Server, body: string, resp: int, s': Server, rest: string,
                      domain: string, reliable: bool)
    requires s.mode == Command && s.cur.body == "" && data == s.(mode := Data) && LineLength(pending, CRLF).Some?
    requires var n := LineLength(pending, CRLF).value;
      body == pending[n..] && s.CommandLine(pending[..n - 2]) == (data, Some(354))
    requires resp != 250 ==> s'.mode == Data
    requires MessageRead(data, body, resp, s', rest, reliable)
    ensures Processed(s, pending, resp, Reply(354, domain), s', rest, domain, reliable)
  {
    RunUnfold(s, pending, domain);
    ReadBodyRuns(data, body, domain);
    ReadBodyShrinks(data, body);
    hide LineLength, Run, Reply, Server.CommandLine, ReadBody;
    var b := ReadBody(data, body);
    if resp == 250 {
      AfterAfter(Reply(354, domain), Reply(250, domain), Run(b.server, b.rest, domain));
    } else {
      ReadBodyRuns(s', rest, domain);
    }
  }

  lemma {:induction false} ReadBodyShrinks(s: Server, input: string)
    requires s.mode == Data
    ensures |ReadBody(s, input).rest| <= |input|
    decreases |input|
  {
    hide LineLength, CStr;
    if LineLength(input, CRLF).Some? {
      var n := LineLength(input, CRLF).value;
      var (s', code) := s.BodyLine(input[..n - 2]);
      if code.None? {
        ReadBodyShrinks(s', input[n..]);
      }
    }
  }

  lemma ReplySize(code: int, domain: string)
    requires IsReplyCode(code)
    ensures |Prefix(code)| == 4 && |Reply(code, domain)| == 4 + |Text(code, domain)| && |Text(code, domain)| <= 64 + |domain|
  {
  }

  /** The format of a reply's text: "%s" stands for the domain. */
  function ReplyFormat(code: int): string
    requires IsReplyCode(code)
  {
    Text(code, "%s")
  }

  lemma PrintsPrefix(code: int)
    requires IsReplyCode(code)
    ensures Prints("%d ", [Arg(PrintfScan.Int, Num(code))], Prefix(code))
  {
    hide Prints, PrintfDigits.Digits;
    ThreeDigits(code);
    PrintsNumber("", code, " ");
    assert "" + "%d" + " " == "%d ";
    assert "" + [Digit(code / 100), Digit(code / 10 % 10), Digit(code % 10)] + " " == Prefix(code);
  }

  lemma ThreeDigits(n: nat)
    requires 100 <= n < 1000
    ensures PrintfDigits.Digits(n, 10, PrintfDigits.LOWER) == [Digit(n / 100), Digit(n / 10 % 10), Digit(n % 10)]
  {
    DigitIs(n / 100);
    DigitIs(n / 10 % 10);
    DigitIs(n % 10);
    assert n / 10 / 10 == n / 100;
    assert PrintfDigits.Digits(n / 100, 10, PrintfDigits.LOWER) == [PrintfDigits.LOWER[n / 100]];
    assert PrintfDigits.Digits(n / 10, 10, PrintfDigits.LOWER)
        == PrintfDigits.Digits(n / 100, 10, PrintfDigits.LOWER) + [PrintfDigits.LOWER[n / 10 % 10]];
  }

  lemma DigitIs(d: nat)
    requires d < 10
    ensures PrintfDigits.LOWER[d] == Digit(d)
  {
  }

  lemma PrintsText(code: int, domain: CString)
    requires IsReplyCode(code) && |Text(code, domain)| <= INT_MAX
    ensures Prints(ReplyFormat(code), [Arg(PrintfScan.CharP, Str(Some(domain)))], Text(code, domain))
  {
    hide Prints, Literal;
    LiteralTexts();
    LiteralAnswers();
    LiteralErrorTexts();
    match code
    case 220 => PrintsDomain(code, domain, " Service ready");
    case 221 => PrintsDomain(code, domain, " Service closing transmission channel");
    case 250 => PrintsFixed(code, domain, "Requested mail action okay, completed");
    case 354 => PrintsFixed(code, domain, "Start mail input; end with <CRLF>.<CRLF>");
    case 500 => PrintsFixed(code, domain, "Syntax error, command unrecognized");
    case 501 => PrintsFixed(code, domain, "Syntax error in parameters or arguments");
    case _ => PrintsFixed(code, domain, "Command not implemented");
  }

  lemma LiteralTexts()
    ensures Literal(" Service ready") && Literal(" Service closing transmission channel")
  {
  }

  lemma LiteralAnswers()
    ensures Literal("Requested mail action okay, completed")
    ensures Literal("Start mail input; end with <CRLF>.<CRLF>")
  {
  }

  lemma LiteralErrorTexts()
    ensures Literal("Syntax error, command unrecognized")
    ensures Literal("Syntax error in parameters or arguments")
    ensures Literal("Command not implemented")
  {
  }

  lemma PrintsDomain(code: int, domain: CString, tail: string)
    requires IsReplyCode(code) && |domain + (tail + CRLF)| <= INT_MAX && Literal(tail)
    requires ReplyText(code, domain) == Some(domain + tail) && ReplyText(code, "%s") == Some("%s" + tail)
    ensures Prints(ReplyFormat(code), [Arg(PrintfScan.CharP, Str(Some(domain)))], Text(code, domain))
  {
    hide Prints, ReplyText;
    PrintsString("", domain, tail + CRLF);
    assert "" + "%s" + (tail + CRLF) == ReplyFormat(code);
    assert "" + domain + (tail + CRLF) == Text(code, domain);
  }

  lemma PrintsFixed(code: int, domain: CString, text: string)
    requires IsReplyCode(code) && |text| < 64 && Literal(text)
    requires ReplyText(code, domain) == ReplyText(code, "%s") == Some(text)
    ensures Prints(ReplyFormat(code), [Arg(PrintfScan.CharP, Str(Some(domain)))], Text(code, domain))
  {
    hide Prints, ReplyText;
    PrintsLiteral(text + CRLF, [Arg(PrintfScan.CharP, Str(Some(domain)))]);
  }

  /** What `c_str` passes on of the envelope. */
  function CStrs(to: seq<string>): seq<string> { seq(|to|, i requires 0 <= i < |to| => CStr(to[i])) }

  function Terminated(m: Msg): Msg { Msg(CStr(m.from), CStrs(m.to), m.body) }

  lemma LiteralCommands()
    ensures Literal("HELO ") && Literal("MAIL FROM: ") && Literal("RCPT TO: ") && Literal("DATA\r\n")
    ensures |"HELO "| <= 11 && |"MAIL FROM: "| <= 11 && |"RCPT TO: "| <= 11
  {
  }

  lemma TerminatedIs(m: Msg)
    ensures Terminated(m) == Msg(CStr(m.from), CStrs(m.to), m.body)
  {
  }

  lemma ReplyParts(before: string, code: int, domain: string)
    requires IsReplyCode(code)
    ensures before + Prefix(code) + Text(code, domain) == before + Reply(code, domain)
  {
    hide Prefix, Text;
  }
}
