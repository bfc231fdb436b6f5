/** How a server reads what a client writes, line by line. */
module SmtpLines {
  import opened Util
  import opened BufferedIO
  import opened Smtp

  /** Free of line breaks and NULs. */
  ghost predicate Clean(s: string) {
    forall i :: 0 <= i < |s| ==> s[i] != '\r' && s[i] != '\n' && s[i] != '\0'
  }

  lemma CleanConcat(a: string, b: string)
    requires Clean(a) && Clean(b)
    ensures Clean(a + b)
  {
  }

  lemma {:induction false} CStrWhole(s: string)
    requires '\0' !in s
    ensures CStr(s) == s
  {
  }

  lemma CleanLine(content: string, rest: string)
    requires Clean(content)
    ensures LineLength(content + CRLF + rest, CRLF) == Some(|content| + 2)
    ensures (content + CRLF + rest)[..|content|] == content
    ensures (content + CRLF + rest)[|content| + 2..] == rest
  {
    var s := content + CRLF + rest;
    assert s[|content|..|content| + 2] == CRLF;
    assert At(s, |content|, CRLF);
    assert forall i :: 0 <= i < |content| ==> s[i] == content[i];
    AtNeedsFirst(s, FindNl(s, CRLF).value, CRLF);
  }

  /** A server takes one line at a time. */
  lemma RunLine(s: Server, content: string, rest: string, domain: string)
    requires s.Listening() && Clean(content)
    ensures var (s', code) := s.Line(content);
      Run(s, content + CRLF + rest, domain) == Run(s', rest, domain).After(ReplyTo(code, domain))
  {
    hide ReplyTo, Server.Line, LineLength;
    CleanLine(content, rest);
  }

  lemma AfterAfter(first: string, second: string, r: Served)
    ensures r.After(second).After(first) == r.After(first + second)
    ensures r.After("") == r
  {
    assert first + (second + r.said) == first + second + r.said;
    assert "" + r.said == r.said;
  }

  lemma RunNothing(s: Server, domain: string)
    ensures Run(s, "", domain) == Served(s, "", "")
  {
  }

  lemma RunUnfold(s: Server, input: string, domain: string)
    requires s.Listening() && LineLength(input, CRLF).Some?
    ensures var n := LineLength(input, CRLF).value;
      var (s', code) := s.Line(input[..n - 2]);
      Run(s, input, domain) == Run(s', input[n..], domain).After(ReplyTo(code, domain))
  {
    hide ReplyTo, Server.Line, LineLength;
  }

  /** What a server does with bytes it has read completely does not depend on later ones. */
  lemma {:induction false} RunAppend(s: Server, a: string, b: string, domain: string)
    requires Run(s, a, domain).rest == ""
    ensures var first := Run(s, a, domain);
      Run(s, a + b, domain) == Run(first.server, b, domain).After(first.said)
    decreases |a|
  {
    if a == "" {
      assert a + b == b;
      RunNothing(s, domain);
      AfterAfter("", "", Run(s, b, domain));
    } else {
      RunStuck(s, a, domain);
      hide Run, ReplyTo, Server.Line, LineLength;
      var n := LineLength(a, CRLF).value;
      LineIsStable(a, b, CRLF);
      TakeAcross(a, b, n);
      TakeAcross(a, b, n - 2);
      var (s', code) := s.Line(a[..n - 2]);
      RunUnfold(s, a, domain);
      RunUnfold(s, a + b, domain);
      RunAppend(s', a[n..], b, domain);
      var first := Run(s', a[n..], domain);
      AfterAfter(ReplyTo(code, domain), first.said, Run(first.server, b, domain));
    }
  }

  lemma RunStuck(s: Server, a: string, domain: string)
    requires Run(s, a, domain).rest == "" && a != ""
    ensures s.Listening() && LineLength(a, CRLF).Some?
  {
  }

  /** No message is left over between commands, which is what the handler asserts at DATA. */
  ghost predicate Orderly(s: Server) {
    s.mode != Asserted && (s.mode == Command ==> s.cur.body == "")
  }

  lemma LineOrderly(s: Server, content: string)
    requires s.Listening() && Orderly(s)
    ensures Orderly(s.Line(content).0)
  {
    hide CStr, SkipSpaces, StartsWith;
  }

  /** Whatever bytes a client sends, the handler's assertion holds. */
  lemma {:induction false} NeverAsserts(s: Server, input: string, domain: string)
    requires Orderly(s)
    ensures Orderly(Run(s, input, domain).server)
    decreases |input|
  {
    hide LineLength, Orderly, Server.Line, ReplyTo;
    if s.Listening() && LineLength(input, CRLF).Some? {
      var n := LineLength(input, CRLF).value;
      LineOrderly(s, input[..n - 2]);
      NeverAsserts(s.Line(input[..n - 2]).0, input[n..], domain);
    }
  }

  // ----- the body -----

  ghost predicate CleanLines(lines: seq<string>) {
    forall i :: 0 <= i < |lines| ==> Clean(lines[i])
  }

  /** The client's lines hold no line break. */
  lemma {:induction false} BodyLinesClean(body: string, start: nat)
    requires start <= |body| && '\0' !in body
    ensures CleanLines(BodyLines(body, start))
    decreases |body| - start
  {
    var end := FirstBreak(body, start);
    assert Clean(body[start..end]) by {
      forall i | 0 <= i < end - start ensures body[start..end][i] != '\0' {
        assert body[start..end][i] == body[start + i];
      }
    }
    if end < |body| && AfterBreak(body, end) < |body| {
      BodyLinesClean(body, AfterBreak(body, end));
    }
  }

  /** Unstuffing undoes stuffing, and no stuffed line is the end mark. */
  lemma BodyLineUnstuffs(s: Server, line: string)
    requires Clean(line)
    ensures Clean(Stuffed(line)) && Stuffed(line) != "."
    ensures s.BodyLine(Stuffed(line)) == (s.DataLine(line), None)
  {
    CStrWhole(Stuffed(line));
    if line != "" && line[0] == '.' {
      assert ("." + line)[1..] == line;
    }
  }

  /** In the body, a server takes exactly the client's lines up to the lone dot, hands them
      to its handler without their stuffing, and reads nothing behind it. */
  lemma {:induction false} RunBody(s: Server, lines: seq<string>, rest: string, domain: string)
    requires s.mode == Data && CleanLines(lines)
    ensures var done := s.(cur := s.cur.(body := s.cur.body + Unstuffed(lines))).DataEnd();
      Run(s, StuffedLines(lines) + ".\r\n" + rest, domain) == Run(done, rest, domain).After(Reply(250, domain))
    decreases |lines|
  {
    hide Run, Reply, Server.BodyLine, Clean;
    if lines == [] {
      assert StuffedLines(lines) + ".\r\n" + rest == "." + CRLF + rest;
      assert s.cur.body + Unstuffed(lines) == s.cur.body;
      LoneDot(s);
      RunLine(s, ".", rest, domain);
    } else {
      var line := lines[0];
      var tail := StuffedLines(lines[1..]) + ".\r\n" + rest;
      PeelLine(lines, s.cur.body, rest);
      BodyLineUnstuffs(s, line);
      RunLine(s, Stuffed(line), tail, domain);
      RunBody(s.DataLine(line), lines[1..], rest, domain);
      AfterAfter("", "", Run(s.DataLine(line), tail, domain));
    }
  }

  lemma PeelLine(lines: seq<string>, before: string, rest: string)
    requires lines != []
    ensures StuffedLines(lines) + ".\r\n" + rest
         == Stuffed(lines[0]) + CRLF + (StuffedLines(lines[1..]) + ".\r\n" + rest)
    ensures before + lines[0] + CRLF + Unstuffed(lines[1..]) == before + Unstuffed(lines)
  {
    Regroup(Stuffed(lines[0]), CRLF, StuffedLines(lines[1..]), ".\r\n", rest);
    Regroup(before, lines[0], CRLF, Unstuffed(lines[1..]), "");
  }

  lemma Regroup(a: string, b: string, c: string, d: string, e: string)
    ensures (a + b + c) + d + e == a + b + (c + d + e)
    ensures a + b + c + d == a + (b + c + d)
  {
  }

  lemma LoneDot(s: Server)
    ensures Clean(".") && s.BodyLine(".") == (s.DataEnd(), Some(250))
  {
    CStrWhole(".");
  }

  // ----- which bodies arrive unchanged -----

  /** One or more lines, each ended by CRLF and otherwise free of line breaks. */
  ghost predicate Canonical(body: string) {
    exists lines: seq<string> :: lines != [] && NoBreaks(lines) && body == Unstuffed(lines)
  }

  ghost predicate Unbroken(line: string) {
    forall j :: 0 <= j < |line| ==> line[j] != '\r' && line[j] != '\n'
  }

  ghost predicate NoBreaks(lines: seq<string>) {
    forall i :: 0 <= i < |lines| ==> Unbroken(lines[i])
  }

  lemma {:induction false} BodyLinesNoBreaks(body: string, start: nat)
    requires start <= |body|
    ensures NoBreaks(BodyLines(body, start))
    decreases |body| - start
  {
    var end := FirstBreak(body, start);
    if end < |body| && AfterBreak(body, end) < |body| {
      BodyLinesNoBreaks(body, AfterBreak(body, end));
    }
  }

  lemma FirstBreakAt(body: string, start: nat, end: nat)
    requires start <= end <= |body| && (end == |body| || body[end] == '\r' || body[end] == '\n')
    requires forall i :: start <= i < end ==> body[i] != '\r' && body[i] != '\n'
    ensures FirstBreak(body, start) == end
  {
  }

  lemma JoinedAt(body: string, start: nat, line: string, rest: string)
    requires start <= |body| && body[start..] == line + CRLF + rest
    ensures var end := start + |line|;
      && end + 2 <= |body| && body[start..end] == line && body[end + 2..] == rest
      && body[end] == '\r' && body[end + 1] == '\n'
      && forall i :: 0 <= i < |line| ==> line[i] == body[start + i]
  {
    var joined := line + CRLF + rest;
    assert |joined| == |body| - start;
    assert forall i :: 0 <= i < |joined| ==> joined[i] == body[start..][i] == body[start + i];
    assert joined[|line|] == CRLF[0] && joined[|line| + 1] == CRLF[1];
    assert joined[..|line|] == line && joined[|line| + 2..] == rest;
  }

  lemma FirstLineOf(body: string, start: nat, line: string, rest: string)
    requires start <= |body| && body[start..] == line + CRLF + rest
    requires Unbroken(line)
    ensures var end := start + |line|;
      && end + 2 <= |body| && body[start..end] == line && body[end + 2..] == rest
      && FirstBreak(body, start) == end && AfterBreak(body, end) == end + 2
  {
    JoinedAt(body, start, line, rest);
    var end := start + |line|;
    forall i | start <= i < end ensures body[i] != '\r' && body[i] != '\n' {
      assert line[i - start] == body[start + (i - start)];
    }
    FirstBreakAt(body, start, end);
  }

  /** Splitting undoes joining. */
  lemma {:induction false} SplitJoined(body: string, start: nat, lines: seq<string>)
    requires start <= |body| && lines != [] && NoBreaks(lines) && body[start..] == Unstuffed(lines)
    ensures BodyLines(body, start) == lines
    decreases |lines|
  {
    hide *;
    var line, rest := lines[0], lines[1..];
    NoBreaksTail(lines);
    UnstuffedStep(lines);
    FirstLineOf(body, start, line, Unstuffed(rest));
    var end := start + |line|;
    BodyLinesStep(body, start, end);
    HeadTail(lines);
    if rest == [] {
      AtTheEnd(body, end + 2);
    } else {
      SplitJoined(body, end + 2, rest);
    }
  }

  lemma AtTheEnd(body: string, i: nat)
    requires i <= |body| && body[i..] == ""
    ensures i == |body|
  {
  }

  lemma HeadTail(lines: seq<string>)
    requires lines != []
    ensures lines == [lines[0]] + lines[1..]
  {
  }

  lemma UnstuffedStep(lines: seq<string>)
    requires lines != []
    ensures Unstuffed(lines) == lines[0] + CRLF + Unstuffed(lines[1..])
    ensures lines[1..] == [] ==> Unstuffed(lines[1..]) == ""
    ensures lines[1..] != [] ==> Unstuffed(lines[1..]) != ""
  {
  }

  lemma BodyLinesStep(body: string, start: nat, end: nat)
    requires start <= end < |body| && FirstBreak(body, start) == end
    ensures var next := AfterBreak(body, end);
      BodyLines(body, start) == [body[start..end]] + if next == |body| then [] else BodyLines(body, next)
  {
  }

  lemma NoBreaksTail(lines: seq<string>)
    requires lines != [] && NoBreaks(lines)
    ensures NoBreaks(lines[1..]) && Unbroken(lines[0])
  {
  }

  /** A body arrives unchanged exactly if it consists of CRLF-terminated lines. */
  lemma UnchangedIffCanonical(body: string)
    ensures Normal(body) == body <==> Canonical(body)
  {
    if Normal(body) == body {
      BodyLinesNoBreaks(body, 0);
    }
    if Canonical(body) {
      var lines :| lines != [] && NoBreaks(lines) && body == Unstuffed(lines);
      assert body[0..] == body;
      SplitJoined(body, 0, lines);
    }
  }

  // ----- what the splitter does with any body -----

  predicate IsBreak(b: string) {
    b == "\r" || b == "\n" || b == "\r\n" || b == "\n\n"
  }

  predicate LfFirst(s: string) { s != "" && s[0] == '\n' }

  function Joined(lines: seq<string>, breaks: seq<string>): string
    requires |lines| == |breaks|
  {
    if lines == [] then "" else lines[0] + breaks[0] + Joined(lines[1..], breaks[1..])
  }

  /** The body is these lines with these breaks behind them: two characters of which the
      second is an LF make one break, in any mix.  The last break may be missing, but not
      behind an empty line unless it is the only one. */
  ghost predicate Splits(body: string, lines: seq<string>, breaks: seq<string>) {
    && |lines| == |breaks| > 0 && NoBreaks(lines) && body == Joined(lines, breaks)
    && (forall i :: 0 <= i < |breaks| - 1 ==> IsBreak(breaks[i]))
    && (forall i :: 0 <= i < |breaks| - 1 && |breaks[i]| == 1 ==> !LfFirst(Joined(lines[i + 1..], breaks[i + 1..])))
    && var n := |lines| - 1;
       IsBreak(breaks[n]) || (breaks[n] == "" && (n == 0 || lines[n] != ""))
  }

  /** The same, one line at a time. */
  lemma SplitsStep(body: string, lines: seq<string>, breaks: seq<string>)
    requires |lines| == |breaks| > 1
    ensures var rest := Joined(lines[1..], breaks[1..]);
      Splits(body, lines, breaks) <==>
        && Unbroken(lines[0]) && IsBreak(breaks[0]) && body == lines[0] + breaks[0] + rest
        && (|breaks[0]| == 1 ==> !LfFirst(rest))
        && rest != "" && Splits(rest, lines[1..], breaks[1..])
  {
  }

  /** A single line. */
  lemma SplitsOne(body: string, line: string, break_: string)
    ensures Splits(body, [line], [break_]) <==>
      Unbroken(line) && body == line + break_ && (IsBreak(break_) || break_ == "")
  {
    assert Joined([line], [break_]) == line + break_;
    assert NoBreaks([line]) <==> Unbroken(line) by {
      assert [line][0] == line;
    }
  }

  /** The first line of any body, its break, and the rest. */
  lemma FirstPart(body: string, start: nat)
    requires start <= |body|
    ensures var end := FirstBreak(body, start);
      && Unbroken(body[start..end])
      && if end == |body| then body[start..] == body[start..end]
         else
           var next := AfterBreak(body, end);
           && IsBreak(body[end..next]) && body[start..] == body[start..end] + body[end..next] + body[next..]
           && (next == end + 1 ==> !LfFirst(body[next..]))
  {
    var end := FirstBreak(body, start);
    if end < |body| {
      var next := AfterBreak(body, end);
      assert body[end..next] == if next == end + 1 then [body[end]] else [body[end], body[end + 1]];
      assert body[start..] == body[start..end] + body[end..next] + body[next..];
    } else {
      assert body[start..] == body[start..end];
    }
  }

  /** Where the first line of any body ends, and what follows. */
  lemma FirstPartIs(body: string, start: nat, line: string, break_: string, rest: string)
    requires start <= |body| && body[start..] == line + break_ + rest && Unbroken(line)
    requires if rest == "" then IsBreak(break_) || break_ == "" else IsBreak(break_) && (|break_| == 1 ==> !LfFirst(rest))
    ensures var end := start + |line|;
      && end <= |body| && FirstBreak(body, start) == end && body[start..end] == line
      && (break_ == "" <==> end == |body|)
      && (break_ != "" ==> AfterBreak(body, end) == end + |break_| <= |body| && body[end + |break_|..] == rest)
  {
    var end, next := start + |line|, start + |line| + |break_|;
    var s := line + break_ + rest;
    assert forall i :: 0 <= i < |s| ==> s[i] == body[start..][i] == body[start + i];
    assert s[..|line|] == line && s[|line| + |break_|..] == rest;
    assert forall i :: 0 <= i < |line| ==> line[i] == s[i];
    assert forall i :: 0 <= i < |break_| ==> break_[i] == s[|line| + i];
    assert forall i :: start <= i < end ==> body[i] == line[i - start];
    assert rest != "" ==> rest[0] == s[|line| + |break_|];
    FirstBreakAt(body, start, end);
  }

  /** What the splitter makes of a body is such a division of it. */
  lemma {:induction false} SplitterDivides(body: string, start: nat) returns (breaks: seq<string>)
    requires start <= |body|
    ensures Splits(body[start..], BodyLines(body, start), breaks)
    decreases |body| - start
  {
    hide *;
    FirstPart(body, start);
    var end := FirstBreak(body, start);
    var line := body[start..end];
    if end == |body| {
      breaks := [""];
      LastLine(body, start);
      assert line == body[start..] == line + "";
      SplitsOne(body[start..], line, "");
    } else {
      var next := AfterBreak(body, end);
      BodyLinesStep(body, start, end);
      if next == |body| {
        breaks := [body[end..next]];
        assert body[start..] == line + body[end..next] && [line] + [] == [line];
        SplitsOne(body[start..], line, body[end..next]);
      } else {
        var more := SplitterDivides(body, next);
        breaks := [body[end..next]] + more;
        Prepend(body[start..], line, body[end..next], body[next..], BodyLines(body, next), more);
      }
    }
  }

  lemma LastLine(body: string, start: nat)
    requires start <= |body| == FirstBreak(body, start)
    ensures BodyLines(body, start) == [body[start..]]
  {
    assert body[start..|body|] == body[start..];
  }

  lemma Prepend(s: string, line: string, break_: string, rest: string, lines: seq<string>, breaks: seq<string>)
    requires Splits(rest, lines, breaks) && rest != "" && s == line + break_ + rest
    requires Unbroken(line) && IsBreak(break_) && (|break_| == 1 ==> !LfFirst(rest))
    ensures Splits(s, [line] + lines, [break_] + breaks)
  {
    hide *;
    SplitsIs(rest, lines, breaks);
    HeadTails(line, lines);
    HeadTails(break_, breaks);
    SplitsStep(s, [line] + lines, [break_] + breaks);
  }

  lemma HeadTails(x: string, s: seq<string>)
    ensures ([x] + s)[0] == x && ([x] + s)[1..] == s && |[x] + s| == |s| + 1
  {
  }

  lemma SplitsIs(body: string, lines: seq<string>, breaks: seq<string>)
    requires Splits(body, lines, breaks)
    ensures |lines| == |breaks| > 0 && body == Joined(lines, breaks)
  {
  }

  /** There is no other. */
  lemma {:induction false} OnlyDivision(body: string, start: nat, lines: seq<string>, breaks: seq<string>)
    requires start <= |body| && Splits(body[start..], lines, breaks)
    ensures BodyLines(body, start) == lines
    decreases |lines|
  {
    hide *;
    SplitsIs(body[start..], lines, breaks);
    var line, break_ := lines[0], breaks[0];
    var end := start + |line|;
    if |lines| == 1 {
      assert lines == [line] && breaks == [break_];
      SplitsOne(body[start..], line, break_);
      assert body[start..] == line + break_ + "";
      FirstPartIs(body, start, line, break_, "");
      if break_ == "" {
        assert line + "" == line;
        LastLine(body, start);
      } else {
        BodyLinesStep(body, start, end);
        assert [line] + [] == [line];
        AtTheEnd(body, end + |break_|);
      }
    } else {
      var rest := Joined(lines[1..], breaks[1..]);
      SplitsStep(body[start..], lines, breaks);
      FirstPartIs(body, start, line, break_, rest);
      SomeBreak(break_);
      BodyLinesStep(body, start, end);
      OnlyDivision(body, end + |break_|, lines[1..], breaks[1..]);
      HeadTail(lines);
    }
  }

  lemma SomeBreak(b: string)
    requires IsBreak(b)
    ensures b != ""
  {
  }

  /** The splitter of any mix of CR and LF: its lines are the only ones that, with breaks
      behind them, make up the body. */
  lemma SplitterIs(body: string, lines: seq<string>)
    ensures BodyLines(body) == lines <==> exists breaks: seq<string> :: Splits(body, lines, breaks)
  {
    hide *;
    assert body[0..] == body;
    var breaks := SplitterDivides(body, 0);
    if breaks': seq<string> :| Splits(body, lines, breaks') {
      OnlyDivision(body, 0, lines, breaks');
    }
  }

  /** What arrived would arrive unchanged. */
  lemma NormalTwice(body: string)
    ensures Canonical(Normal(body)) && Normal(Normal(body)) == Normal(body)
  {
    BodyLinesNoBreaks(body, 0);
    assert Canonical(Normal(body));
    UnchangedIffCanonical(Normal(body));
  }
}
