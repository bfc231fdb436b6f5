/** The two sides of an SMTP connection as functions of the bytes they read:
    smtp/SMTP.cc with the handler of smtp/BasicSMTP.cc. */
module Smtp {
  import opened Util
  import opened BufferedIO

  const CRLF := "\r\n"

  // ----- C strings -----

  function SkipSpaces(s: string): (r: string)
    ensures r != "" ==> r[0] != ' '
    ensures s != "" && s[0] != ' ' ==> r == s
  {
    if s != "" && s[0] == ' ' then SkipSpaces(s[1..]) else s
  }

  function Lower(c: char): char {
    if 'A' <= c <= 'Z' then c + 32 as char else c
  }

  /** `strncasecmp(s, keyword, |keyword|) == 0`, for a keyword in capitals. */
  predicate StartsWith(s: string, keyword: string) {
    |keyword| <= |s| && forall i :: 0 <= i < |keyword| ==> Lower(s[i]) == Lower(keyword[i])
  }

  // ----- replies -----

  function Digit(n: nat): char
    requires n < 10
  {
    '0' + n as char
  }

  /** The texts of the reply codes; each ends in CRLF, which `Reply` adds. */
  function ReplyText(code: int, domain: string): Option<string> {
    match code
    case 211 => Some("System status, or system help reply")
    case 214 => Some("Help message")
    case 220 => Some(domain + " Service ready")
    case 221 => Some(domain + " Service closing transmission channel")
    case 250 => Some("Requested mail action okay, completed")
    case 251 => Some("User not local; will forward to nowhere.net")
    case 354 => Some("Start mail input; end with <CRLF>.<CRLF>")
    case 421 => Some("tierstore Service not available, closing transmission channel")
    case 450 => Some("Requested mail action not taken: mailbox unavailable")
    case 451 => Some("Requested action aborted: local error in processing")
    case 452 => Some("Requested action not taken: insufficient system storage")
    case 500 => Some("Syntax error, command unrecognized")
    case 501 => Some("Syntax error in parameters or arguments")
    case 502 => Some("Command not implemented")
    case 503 => Some("Bad sequence of commands")
    case 504 => Some("Command parameter not implemented")
    case 550 => Some("Requested action not taken: mailbox unavailable")
    case 551 => Some("User not local; please try nowhere.net")
    case 552 => Some("Requested mail action aborted: exceeded storage allocation")
    case 553 => Some("Requested action not taken: mailbox name not allowed")
    case 554 => Some("Transaction failed")
    case _ => None
  }

  /** The codes that a server with this handler ever sends. */
  predicate IsReplyCode(code: int) {
    code in {220, 221, 250, 354, 500, 501, 502}
  }

  function Prefix(code: int): string
    requires IsReplyCode(code)
  {
    [Digit(code / 100), Digit(code / 10 % 10), Digit(code % 10), ' ']
  }

  function Text(code: int, domain: string): string
    requires IsReplyCode(code)
  {
    ReplyText(code, domain).value + CRLF
  }

  function Reply(code: int, domain: string): string
    requires IsReplyCode(code)
  {
    Prefix(code) + Text(code, domain)
  }

  // ----- the server -----

  datatype Msg = Msg(from: string, to: seq<string>, body: string) {
    predicate Valid() { from != "" && to != [] && body != "" }
  }

  const NO_MSG := Msg("", [], "")

  /** Between commands, inside a message body, or gone.  `Asserted` is a failed
      assertion of the handler. */
  datatype Mode = Command | Data | Quit | Asserted

  /** A server session and its handler: the message being put together, and those that
      `message_recvd` was called with. */
  datatype Server = Server(mode: Mode, cur: Msg, received: seq<Msg>) {

    function DataBegin(): Server {
      if cur.body != "" then this.(mode := Asserted) else this.(mode := Data)
    }

    function DataLine(line: string): Server {
      this.(cur := cur.(body := cur.body + line + CRLF))
    }

    function DataEnd(): Server {
      Server(Command, NO_MSG, if cur.Valid() then received + [cur] else received)
    }

    /** One line of the body: an end mark, or text without its dot-stuffing. */
    function BodyLine(content: string): (Server, Option<int>) {
      var line := CStr(content);
      if line == "." then (DataEnd(), Some(250))
      else if line != "" && line[0] == '.' then (DataLine(line[1..]), None)
      else (DataLine(line), None)
    }

    /** One command line, without its newline. */
    function CommandLine(content: string): (r: (Server, Option<int>))
      ensures r.1.Some? ==> IsReplyCode(r.1.value)
    {
      var cmd := CStr(if |content| < 4 then content else content[..4]);
      if |content| + |CRLF| < 4 then (this, Some(500))
      else if |cmd| < 4 then (this, Some(500))
      else if StartsWith(cmd, "HELO") then
        if |content| == 4 || content[4] != ' ' then (this, Some(501))
        else if SkipSpaces(CStr(content[5..])) == "" then (this, Some(501))
        else (this, Some(250))
      else if StartsWith(cmd, "MAIL") then
        if !StartsWith(content, "MAIL FROM:") then (this, Some(501))
        else
          var from := SkipSpaces(CStr(content[10..]));
          if from == "" then (this, Some(501)) else (this.(cur := cur.(from := from)), Some(250))
      else if StartsWith(cmd, "RCPT") then
        if !StartsWith(content, "RCPT TO:") then (this, Some(501))
        else
          var to := SkipSpaces(CStr(content[8..]));
          if to == "" then (this, Some(501)) else (this.(cur := cur.(to := cur.to + [to])), Some(250))
      else if StartsWith(cmd, "DATA") then
        (DataBegin(), if cur.body == "" then Some(354) else None)
      else if StartsWith(cmd, "RSET") then (this, Some(250))
      else if StartsWith(cmd, "NOOP") then (this, Some(220))
      else if StartsWith(cmd, "QUIT") then (this.(mode := Quit), Some(221))
      else if StartsWith(cmd, "TURN") || StartsWith(cmd, "SEND") || StartsWith(cmd, "SOML") || StartsWith(cmd, "SAML")
              || StartsWith(cmd, "VRFY") || StartsWith(cmd, "EXPN") || StartsWith(cmd, "EHLO") then (this, Some(502))
      else (this, Some(500))
    }

    predicate Listening() { mode == Command || mode == Data }

    function Line(content: string): (r: (Server, Option<int>))
      requires Listening()
      ensures r.1.Some? ==> IsReplyCode(r.1.value)
    {
      if mode == Data then BodyLine(content) else CommandLine(content)
    }
  }

  /** What a server does with the bytes it gets: its new state, what it says, and the
      bytes it leaves unread because they hold no complete line, or because it is gone. */
  datatype Served = Served(server: Server, said: string, rest: string) {
    /** The same, after saying something else first. */
    function After(first: string): Served { this.(said := first + said) }
  }

  function ReplyTo(code: Option<int>, domain: string): string
    requires code.Some? ==> IsReplyCode(code.value)
  {
    match code
    case None => ""
    case Some(c) => Reply(c, domain)
  }

  function Run(s: Server, input: string, domain: string): Served
    decreases |input|
  {
    if !s.Listening() || LineLength(input, CRLF).None? then Served(s, "", input)
    else
      var n := LineLength(input, CRLF).value;
      var (s', code) := s.Line(input[..n - 2]);
      Run(s', input[n..], domain).After(ReplyTo(code, domain))
  }

  // ----- the client -----

  /** One thing a client does: put bytes in its output buffer, empty the buffer onto the
      network, or wait for a reply with this code. */
  datatype Act = Say(text: string) | Flush | Expect(code: int)

  function FirstBreak(body: string, i: nat): (r: nat)
    requires i <= |body|
    ensures i <= r <= |body| && (r < |body| ==> body[r] == '\r' || body[r] == '\n')
    ensures forall j :: i <= j < r ==> body[j] != '\r' && body[j] != '\n'
    decreases |body| - i
  {
    if i == |body| || body[i] == '\r' || body[i] == '\n' then i else FirstBreak(body, i + 1)
  }

  /** Where the next line starts after the break at `end`: an LF behind it is swallowed. */
  function AfterBreak(body: string, end: nat): (r: nat)
    requires end < |body|
    ensures end < r <= |body|
  {
    if end + 1 < |body| && body[end + 1] == '\n' then end + 2 else end + 1
  }

  /** The lines the client splits a body into. */
  function BodyLines(body: string, start: nat := 0): (r: seq<string>)
    requires start <= |body|
    ensures |r| > 0
    decreases |body| - start
  {
    var end := FirstBreak(body, start);
    var line := body[start..end];
    if end == |body| then [line]
    else
      var next := AfterBreak(body, end);
      if next == |body| then [line] else [line] + BodyLines(body, next)
  }

  function Stuffed(line: string): string {
    if line != "" && line[0] == '.' then "." + line else line
  }

  function StuffedLines(lines: seq<string>): string {
    if lines == [] then "" else Stuffed(lines[0]) + CRLF + StuffedLines(lines[1..])
  }

  function Unstuffed(lines: seq<string>): string {
    if lines == [] then "" else lines[0] + CRLF + Unstuffed(lines[1..])
  }

  /** The bytes of a body on the wire. */
  function Wire(body: string): string { StuffedLines(BodyLines(body)) + ".\r\n" }

  /** The body that arrives. */
  function Normal(body: string): string { Unstuffed(BodyLines(body)) }

  function Ask(text: string, code: int): seq<Act> { [Say(text), Flush, Expect(code)] }

  function AskAll(to: seq<string>): seq<Act> {
    if to == [] then [] else Ask("RCPT TO: " + to[0] + CRLF, 250) + AskAll(to[1..])
  }

  /** One client session. */
  function Script(m: Msg, first: bool, helo: string): seq<Act> {
    (if first then [Expect(220)] + Ask("HELO " + helo + CRLF, 250) else [])
    + Ask("MAIL FROM: " + m.from + CRLF, 250)
    + AskAll(m.to)
    + Ask("DATA\r\n", 354)
    + Ask(Wire(m.body), 250)
  }

  /** `strtoul` on three characters, all of which must belong to the number. */
  function ParseCode(s: string): Option<int>
    requires |s| == 3
  {
    var t := SkipBlank(s);
    var digits := if t != "" && (t[0] == '+' || t[0] == '-') then t[1..] else t;
    if digits != "" && AllDigits(digits) then
      var n: int := Number(digits);
      Some(if t[0] == '-' then -n else n)
    else None
  }

  function SkipBlank(s: string): string {
    if s != "" && (s[0] == ' ' || '\t' <= s[0] <= '\r') then SkipBlank(s[1..]) else s
  }

  predicate AllDigits(s: string) { forall i :: 0 <= i < |s| ==> '0' <= s[i] <= '9' }

  function Number(s: string): nat
    requires AllDigits(s)
  {
    if s == "" then 0 else 10 * Number(s[..|s| - 1]) + (s[|s| - 1] - '0') as nat
  }

  /** `process_response`: 0 if the line has the expected code. */
  function CheckReply(line: string, expected: int): int {
    if |line| < 3 then 500
    else match ParseCode(line[..3])
      case None => 501
      case Some(code) => if code != expected then 503 else 0
  }

  /** What a client does with the bytes it gets: its result, what it says, and the bytes
      it leaves unread.  The end of the input counts as 221. */
  datatype Talked = Talked(err: int, said: string, rest: string) {
    function After(first: string): Talked { this.(said := first + said) }
  }

  function Talk(acts: seq<Act>, input: string): Talked {
    if acts == [] then Talked(0, "", input)
    else match acts[0]
      case Say(text) => Talk(acts[1..], input).After(text)
      case Flush => Talk(acts[1..], input)
      case Expect(code) =>
        match LineLength(input, CRLF)
        case None => Talked(221, "", input)
        case Some(n) =>
          var err := CheckReply(input[..n], code);
          if err != 0 then Talked(err, "", input[n..]) else Talk(acts[1..], input[n..])
  }
}
