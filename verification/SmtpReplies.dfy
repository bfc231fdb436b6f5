/** When a client session fails, and what it has said by then: the codes of the server's answers,
    read as numbers. */
module SmtpReplies {
  import opened Util
  import opened BufferedIO
  import opened Smtp

  // ----- the code of a line -----

  function Pow10(n: nat): nat { if n == 0 then 1 else 10 * Pow10(n - 1) }

  /** The value of some digits, the first one counting most. */
  function Decimal(s: string): nat
    requires AllDigits(s)
  {
    if s == "" then 0 else (s[0] - '0') as nat * Pow10(|s| - 1) + Decimal(s[1..])
  }

  ghost predicate Blank(s: string) {
    forall i :: 0 <= i < |s| ==> s[i] == ' ' || '\t' <= s[i] <= '\r'
  }

  /** The whole of `s` is a number in the way of `strtoul`: blanks, a sign, digits. */
  ghost predicate Parts(s: string, blanks: string, sign: string, digits: string) {
    && s == blanks + sign + digits && Blank(blanks) && sign in {"", "+", "-"} && digits != "" && AllDigits(digits)
  }

  function Signed(sign: string, n: int): int { if sign == "-" then -n else n }

  ghost predicate Numeral(s: string, v: int) {
    exists blanks: string, sign: string, digits: string ::
      Parts(s, blanks, sign, digits) && v == Signed(sign, Decimal(digits))
  }

  lemma {:induction false} DecimalMore(s: string, d: char)
    requires AllDigits(s + [d])
    ensures AllDigits(s) && '0' <= d <= '9' && Decimal(s + [d]) == 10 * Decimal(s) + (d - '0') as nat
  {
    var t := s + [d];
    assert t[|s|] == d && forall i :: 0 <= i < |s| ==> s[i] == t[i];
    if s == "" {
      assert t[1..] == "" && Pow10(0) == 1;
    } else {
      assert t[1..] == s[1..] + [d];
      DecimalMore(s[1..], d);
      TenTimes((s[0] - '0') as nat, Pow10(|s| - 1), Decimal(s[1..]), (d - '0') as nat);
    }
  }

  lemma TenTimes(a: nat, p: nat, q: nat, d: nat)
    ensures a * (10 * p) + (10 * q + d) == 10 * (a * p + q) + d
  {
  }

  lemma {:induction false} NumberIsDecimal(s: string)
    requires AllDigits(s)
    ensures Number(s) == Decimal(s)
    decreases |s|
  {
    if s != "" {
      var n := |s| - 1;
      assert s == s[..n] + [s[n]];
      NumberIsDecimal(s[..n]);
      DecimalMore(s[..n], s[n]);
    }
  }

  lemma {:induction false} SkipsBlanks(blanks: string, t: string)
    requires Blank(blanks) && (t == "" || !(t[0] == ' ' || '\t' <= t[0] <= '\r'))
    ensures SkipBlank(blanks + t) == t
  {
    if blanks == "" {
      assert blanks + t == t;
    } else {
      assert (blanks + t)[1..] == blanks[1..] + t;
      SkipsBlanks(blanks[1..], t);
    }
  }

  lemma {:induction false} BlanksSkipped(s: string) returns (blanks: string)
    ensures s == blanks + SkipBlank(s) && Blank(blanks)
    ensures SkipBlank(s) == "" || !(SkipBlank(s)[0] == ' ' || '\t' <= SkipBlank(s)[0] <= '\r')
  {
    if s != "" && (s[0] == ' ' || '\t' <= s[0] <= '\r') {
      var rest := BlanksSkipped(s[1..]);
      blanks := [s[0]] + rest;
    } else {
      blanks := "";
    }
  }

  /** What three characters are read as. */
  lemma ParseMeaning(s: string, v: int)
    requires |s| == 3
    ensures ParseCode(s) == Some(v) <==> Numeral(s, v)
  {
    hide ParseCode, AllDigits, Blank, Decimal, Signed;
    if ParseCode(s) == Some(v) {
      ParsedIsNumeral(s, v);
    }
    if Numeral(s, v) {
      var blanks: string, sign: string, digits: string :|
        Parts(s, blanks, sign, digits) && v == Signed(sign, Decimal(digits));
      NumeralIsParsed(s, blanks, sign, digits);
    }
  }

  lemma ParsedIsNumeral(s: string, v: int)
    requires |s| == 3 && ParseCode(s) == Some(v)
    ensures Numeral(s, v)
  {
    hide Number, Decimal, SkipBlank, Blank, AllDigits;
    var blanks := BlanksSkipped(s);
    var t := SkipBlank(s);
    var signed := t != "" && (t[0] == '+' || t[0] == '-');
    var digits := if signed then t[1..] else t;
    var sign := if signed then [t[0]] else "";
    NumberIsDecimal(digits);
    assert t == sign + digits;
    Grouped(blanks, sign, digits);
    assert Parts(s, blanks, sign, digits);
  }

  lemma Grouped(a: string, b: string, c: string)
    ensures a + (b + c) == a + b + c
  {
  }

  lemma NumeralIsParsed(s: string, blanks: string, sign: string, digits: string)
    requires |s| == 3 && Parts(s, blanks, sign, digits)
    ensures ParseCode(s) == Some(Signed(sign, Decimal(digits)))
  {
    hide Number, Decimal, SkipBlank, Blank;
    var t := sign + digits;
    Grouped(blanks, sign, digits);
    SkipsBlanks(blanks, t);
    NumberIsDecimal(digits);
    if sign == "" {
      assert t == digits;
    } else {
      assert t[0] == sign[0] && t[1..] == digits;
    }
  }

  /** The line is the answer that was hoped for. */
  ghost predicate Carries(line: string, code: int) {
    |line| >= 3 && Numeral(line[..3], code)
  }

  /** A response is fine exactly if its line carries the expected code, and 503 exactly if it
      carries another number; 500 is too short a line, 501 no number. */
  lemma CheckReplyMeaning(line: string, expected: int)
    ensures CheckReply(line, expected) == 0 <==> Carries(line, expected)
    ensures CheckReply(line, expected) == 503 <==> exists v: int :: v != expected && Carries(line, v)
    ensures CheckReply(line, expected) == 500 <==> |line| < 3
    ensures CheckReply(line, expected) == 501 <==> |line| >= 3 && forall v: int :: !Carries(line, v)
  {
    hide Numeral, ParseCode;
    if |line| >= 3 {
      forall v: int ensures ParseCode(line[..3]) == Some(v) <==> Carries(line, v) {
        ParseMeaning(line[..3], v);
      }
      if ParseCode(line[..3]).Some? {
        assert Carries(line, ParseCode(line[..3]).value);
      }
    }
  }

  // ----- the lines of an input -----

  /** The complete lines of an input, and what is left when `n` of them are gone. */
  function Lines(input: string): seq<string>
    decreases |input|
  {
    match LineLength(input, CRLF)
    case None => []
    case Some(n) => [input[..n]] + Lines(input[n..])
  }

  function Behind(input: string, n: nat): string
    decreases n
  {
    if n == 0 || LineLength(input, CRLF).None? then input else Behind(input[LineLength(input, CRLF).value..], n - 1)
  }

  // ----- scripts -----

  /** The codes that a script waits for. */
  function Awaited(acts: seq<Act>): seq<int> {
    if acts == [] then [] else (if acts[0].Expect? then [acts[0].code] else []) + Awaited(acts[1..])
  }

  /** What is said before the `k`-th wait, or in all if there are no more waits than that. */
  function SaidBefore(acts: seq<Act>, k: nat): string {
    if acts == [] then ""
    else match acts[0]
      case Say(text) => text + SaidBefore(acts[1..], k)
      case Flush => SaidBefore(acts[1..], k)
      case Expect(_) => if k == 0 then "" else SaidBefore(acts[1..], k - 1)
  }

  /** A client goes on while the lines carry the awaited codes, says what the script says up to
      the first one that does not, and nothing more.  `k` is the number of good lines. */
  lemma {:induction false} TalkMeaning(acts: seq<Act>, input: string) returns (k: nat)
    ensures var t, codes, lines := Talk(acts, input), Awaited(acts), Lines(input);
      && k <= |codes| && k <= |lines| && (forall j :: 0 <= j < k ==> Carries(lines[j], codes[j]))
      && t.said == SaidBefore(acts, k)
      && if k == |codes| then t.err == 0 && t.rest == Behind(input, k)
         else if k == |lines| then t.err == 221 && t.rest == Behind(input, k)
         else t.err != 0 && t.err == CheckReply(lines[k], codes[k]) && !Carries(lines[k], codes[k])
              && t.rest == Behind(input, k + 1)
    decreases |acts|
  {
    hide LineLength, CheckReply, Carries, Talk, Awaited, SaidBefore, Lines, Behind;
    if acts == [] {
      NothingLeft(input);
      k := 0;
    } else if !acts[0].Expect? {
      OtherStep(acts, input);
      k := TalkMeaning(acts[1..], input);
    } else {
      WaitStep(acts, input);
      k := 0;
      if LineLength(input, CRLF).Some? {
        var n := LineLength(input, CRLF).value;
        CheckReplyMeaning(input[..n], acts[0].code);
        if CheckReply(input[..n], acts[0].code) == 0 {
          k := TalkMeaning(acts[1..], input[n..]);
          k := k + 1;
        }
      }
    }
  }

  lemma NothingLeft(input: string)
    ensures Talk([], input) == Talked(0, "", input) && Awaited([]) == [] && SaidBefore([], 0) == ""
    ensures Behind(input, 0) == input
  {
  }

  lemma OtherStep(acts: seq<Act>, input: string)
    requires acts != [] && !acts[0].Expect?
    ensures Awaited(acts) == Awaited(acts[1..])
    ensures var t := Talk(acts[1..], input);
      Talk(acts, input) == t.(said := (if acts[0].Say? then acts[0].text else "") + t.said)
    ensures forall k: nat :: SaidBefore(acts, k) == (if acts[0].Say? then acts[0].text else "") + SaidBefore(acts[1..], k)
  {
    assert "" + Talk(acts[1..], input).said == Talk(acts[1..], input).said;
    assert forall k: nat :: "" + SaidBefore(acts[1..], k) == SaidBefore(acts[1..], k);
  }

  lemma WaitStep(acts: seq<Act>, input: string)
    requires acts != [] && acts[0].Expect?
    ensures Awaited(acts) == [acts[0].code] + Awaited(acts[1..]) && SaidBefore(acts, 0) == ""
    ensures forall k: nat :: SaidBefore(acts, k + 1) == SaidBefore(acts[1..], k)
    ensures Behind(input, 0) == input
    ensures match LineLength(input, CRLF)
      case None => Talk(acts, input) == Talked(221, "", input) && Lines(input) == []
      case Some(n) =>
        var err := CheckReply(input[..n], acts[0].code);
        && Lines(input) == [input[..n]] + Lines(input[n..])
        && Behind(input, 1) == input[n..]
        && (forall k: nat :: Behind(input, k + 1) == Behind(input[n..], k))
        && Talk(acts, input) == if err != 0 then Talked(err, "", input[n..]) else Talk(acts[1..], input[n..])
  {
    hide LineLength, CheckReply;
  }

  /** A client reports success exactly if every line it waits for comes and carries its code. */
  lemma TalkSucceeds(acts: seq<Act>, input: string)
    ensures var codes, lines := Awaited(acts), Lines(input);
      Talk(acts, input).err == 0
      <==> |codes| <= |lines| && forall j :: 0 <= j < |codes| ==> Carries(lines[j], codes[j])
  {
    hide Talk, Awaited, Lines, Carries, SaidBefore, Behind, CheckReply;
    var k := TalkMeaning(acts, input);
  }

  /** At the first line that does not carry its code, the client has said what comes before it,
      and says nothing more. */
  lemma TalkStops(acts: seq<Act>, input: string, k: nat)
    requires k < |Awaited(acts)| && k < |Lines(input)| && !Carries(Lines(input)[k], Awaited(acts)[k])
    requires forall j :: 0 <= j < k ==> Carries(Lines(input)[j], Awaited(acts)[j])
    ensures Talk(acts, input).err != 0 && Talk(acts, input).said == SaidBefore(acts, k)
  {
    hide Talk, Awaited, Lines, Carries, SaidBefore, Behind, CheckReply;
    var k' := TalkMeaning(acts, input);
  }

  // ----- the client's script -----

  lemma {:induction false} SaidBeforeJoin(a: seq<Act>, b: seq<Act>, k: nat)
    ensures Awaited(a + b) == Awaited(a) + Awaited(b)
    ensures k >= |Awaited(a)| ==> SaidBefore(a + b, k) == SaidBefore(a, k) + SaidBefore(b, k - |Awaited(a)|)
    decreases |a|
  {
    if a == [] {
      assert a + b == b && "" + SaidBefore(b, k) == SaidBefore(b, k);
    } else {
      assert (a + b)[1..] == a[1..] + b;
      if a[0].Expect? && k > 0 {
        SaidBeforeJoin(a[1..], b, k - 1);
      } else {
        SaidBeforeJoin(a[1..], b, k);
      }
    }
  }

  lemma AskIs(text: string, code: int, k: nat)
    ensures Awaited(Ask(text, code)) == [code] && SaidBefore(Ask(text, code), k) == text
  {
    var a: seq<Act> := [Expect(code)];
    assert a[1..] == [] && Ask(text, code)[1..] == [Flush] + a && ([Flush] + a)[1..] == a;
    var none: seq<Act> := [];
    assert a[1..] == none && Awaited(none) == [] && (k > 0 ==> SaidBefore(none, k - 1) == "");
    assert SaidBefore(a, k) == "" && Awaited(a) == [code] + [];
    assert Awaited([Flush] + a) == [] + Awaited(a);
    assert text + "" == text;
  }

  /** The RCPT commands of some recipients. */
  function Rcpts(to: seq<string>): string {
    if to == [] then "" else "RCPT TO: " + to[0] + CRLF + Rcpts(to[1..])
  }

  /** What a session has said to its first recipients. */
  function Opening(m: Msg, first: bool, helo: string, i: nat): string
    requires i < |m.to|
  {
    (if first then "HELO " + helo + CRLF else "") + ("MAIL FROM: " + m.from + CRLF) + Rcpts(m.to[..i + 1])
  }

  lemma {:induction false} AskAllIs(to: seq<string>, b: seq<Act>, i: nat)
    requires i < |to|
    ensures |Awaited(AskAll(to) + b)| > i && Awaited(AskAll(to) + b)[i] == 250
    ensures SaidBefore(AskAll(to) + b, i) == Rcpts(to[..i + 1])
    decreases |to|
  {
    hide Ask;
    var ask, rest := Ask("RCPT TO: " + to[0] + CRLF, 250), AskAll(to[1..]) + b;
    assert AskAll(to) + b == ask + rest;
    AskIs("RCPT TO: " + to[0] + CRLF, 250, i);
    SaidBeforeJoin(ask, rest, i);
    assert to[..i + 1][1..] == to[1..][..i];
    if i == 0 {
      assert Rcpts(to[..1]) == "RCPT TO: " + to[0] + CRLF + "" == "RCPT TO: " + to[0] + CRLF;
      AskThenMore("RCPT TO: " + to[0] + CRLF, 250, rest);
    } else {
      AskAllIs(to[1..], b, i - 1);
    }
  }

  /** Before the answer, nothing behind it is said. */
  lemma AskThenMore(text: string, code: int, rest: seq<Act>)
    ensures SaidBefore(Ask(text, code) + rest, 0) == text && Awaited(Ask(text, code) + rest) == [code] + Awaited(rest)
  {
    var a := [Expect(code)] + rest;
    var b := [Flush] + a;
    assert Ask(text, code) + rest == [Say(text)] + b && ([Say(text)] + b)[1..] == b && b[1..] == a && a[1..] == rest;
    assert SaidBefore(a, 0) == "" && text + "" == text;
    assert Awaited(a) == [code] + Awaited(rest) && Awaited(b) == [] + Awaited(a);
  }

  /** How many answers are awaited before the first RCPT command's. */
  function Answers(first: bool): nat { if first then 3 else 1 }

  lemma Halves(m: Msg, first: bool, helo: string) returns (head: seq<Act>, tail: seq<Act>)
    ensures Script(m, first, helo) == head + (AskAll(m.to) + tail)
    ensures tail == Ask("DATA\r\n", 354) + Ask(Wire(m.body), 250)
    ensures head == (if first then [Expect(220)] + Ask("HELO " + helo + CRLF, 250) else [])
                    + Ask("MAIL FROM: " + m.from + CRLF, 250)
  {
    hide Ask, AskAll, Wire;
    var hello := if first then [Expect(220)] + Ask("HELO " + helo + CRLF, 250) else [];
    var mail, data, body := Ask("MAIL FROM: " + m.from + CRLF, 250), Ask("DATA\r\n", 354), Ask(Wire(m.body), 250);
    head, tail := hello + mail, data + body;
    assert hello + mail + AskAll(m.to) + data + body == (hello + mail) + (AskAll(m.to) + (data + body));
  }

  lemma HeadIs(m: Msg, first: bool, helo: string, head: seq<Act>, k: nat)
    requires head == (if first then [Expect(220)] + Ask("HELO " + helo + CRLF, 250) else [])
                     + Ask("MAIL FROM: " + m.from + CRLF, 250)
    requires k >= Answers(first)
    ensures Awaited(head) == (if first then [220, 250] else []) + [250]
    ensures SaidBefore(head, k) == (if first then "HELO " + helo + CRLF else "") + ("MAIL FROM: " + m.from + CRLF)
  {
    hide *;
    var mail := Ask("MAIL FROM: " + m.from + CRLF, 250);
    AnswersIs(first);
    if first {
      var hello := Ask("HELO " + helo + CRLF, 250);
      AskIs("HELO " + helo + CRLF, 250, k - 1);
      AskIs("MAIL FROM: " + m.from + CRLF, 250, k - 2);
      SaidBeforeJoin(hello, mail, k - 1);
      assert [Expect(220)] + hello + mail == [Expect(220)] + (hello + mail);
      ExpectThen(220, hello + mail, k - 1);
      assert [220] + ([250] + [250]) == [220, 250] + [250];
    } else {
      AskIs("MAIL FROM: " + m.from + CRLF, 250, k);
      assert [] + mail == mail && [] + [250] == [250];
      Grouped("", "MAIL FROM: " + m.from, CRLF);
    }
  }

  lemma ExpectThen(code: int, acts: seq<Act>, k: nat)
    ensures Awaited([Expect(code)] + acts) == [code] + Awaited(acts)
    ensures SaidBefore([Expect(code)] + acts, k + 1) == SaidBefore(acts, k)
  {
    assert ([Expect(code)] + acts)[1..] == acts;
  }

  /** A refused recipient ends the session: it fails, and nothing behind that RCPT command has
      been said, neither a further recipient nor the message. */
  lemma RefusedRecipient(m: Msg, first: bool, helo: string, input: string, i: nat)
    requires i < |m.to|
    requires var k, script := Answers(first) + i, Script(m, first, helo);
      && k < |Lines(input)| && !Carries(Lines(input)[k], 250)
      && forall j :: 0 <= j < k && j < |Awaited(script)| ==> Carries(Lines(input)[j], Awaited(script)[j])
    ensures Talk(Script(m, first, helo), input).err != 0
    ensures Talk(Script(m, first, helo), input).said == Opening(m, first, helo, i)
  {
    hide *;
    var k, script := Answers(first) + i, Script(m, first, helo);
    var head, tail := Halves(m, first, helo);
    AnswersIs(first);
    HeadIs(m, first, helo, head, k);
    AskAllIs(m.to, tail, i);
    SaidBeforeJoin(head, AskAll(m.to) + tail, k);
    assert |Awaited(head)| == Answers(first);
    assert Awaited(script)[k] == Awaited(AskAll(m.to) + tail)[i] == 250;
    TalkStops(script, input, k);
    OpeningIs(m, first, helo, i);
  }

  lemma AnswersIs(first: bool)
    ensures Answers(first) == if first then 3 else 1
  {
  }

  lemma OpeningIs(m: Msg, first: bool, helo: string, i: nat)
    requires i < |m.to|
    ensures Opening(m, first, helo, i)
         == (if first then "HELO " + helo + CRLF else "") + ("MAIL FROM: " + m.from + CRLF) + Rcpts(m.to[..i + 1])
  {
  }

  /** The whole of a session, as far as codes go. */
  lemma {:induction false} ScriptAwaits(m: Msg, first: bool, helo: string)
    ensures Awaited(Script(m, first, helo))
         == (if first then [220, 250] else []) + [250] + seq(|m.to|, _ => 250) + [354, 250]
  {
    hide *;
    var head, tail := Halves(m, first, helo);
    AnswersIs(first);
    HeadIs(m, first, helo, head, 3);
    SaidBeforeJoin(head, AskAll(m.to) + tail, 0);
    SaidBeforeJoin(AskAll(m.to), tail, 0);
    AskIs("DATA\r\n", 354, 0);
    AskIs(Wire(m.body), 250, 0);
    SaidBeforeJoin(Ask("DATA\r\n", 354), Ask(Wire(m.body), 250), 0);
    RecipientsAwait(m.to);
    assert [354] + [250] == [354, 250];
    var a, b, c := (if first then [220, 250] else []) + [250], seq(|m.to|, _ => 250), [354, 250];
    assert a + (b + c) == a + b + c;
  }

  lemma {:induction false} RecipientsAwait(to: seq<string>)
    ensures Awaited(AskAll(to)) == seq(|to|, _ => 250)
  {
    hide Ask;
    if to != [] {
      RecipientsAwait(to[1..]);
      AskIs("RCPT TO: " + to[0] + CRLF, 250, 0);
      SaidBeforeJoin(Ask("RCPT TO: " + to[0] + CRLF, 250), AskAll(to[1..]), 0);
      assert [250] + seq(|to| - 1, _ => 250) == seq(|to|, _ => 250);
    }
  }
}
