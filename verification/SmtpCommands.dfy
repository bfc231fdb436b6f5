/** What a server answers to each command line, in any case and with any argument. */
module SmtpCommands {
  import opened Util
  import opened Smtp

  /** The commands that the server knows. */
  datatype Word = Helo | Mail | Rcpt | Data | Rset | Noop | Quit | Turn | Send | Soml | Saml | Vrfy | Expn | Ehlo

  function Spelling(w: Word): (s: string)
    ensures |s| == 4 && Capitals(s)
  {
    match w
    case Helo => "HELO"
    case Mail => "MAIL"
    case Rcpt => "RCPT"
    case Data => "DATA"
    case Rset => "RSET"
    case Noop => "NOOP"
    case Quit => "QUIT"
    case Turn => "TURN"
    case Send => "SEND"
    case Soml => "SOML"
    case Saml => "SAML"
    case Vrfy => "VRFY"
    case Expn => "EXPN"
    case Ehlo => "EHLO"
  }

  predicate Capitals(s: string) { forall i :: 0 <= i < |s| ==> 'A' <= s[i] <= 'Z' }

  /** `s` is the keyword, each letter in capitals or not. */
  predicate InAnyCase(s: string, keyword: string) {
    |s| == |keyword| && forall i :: 0 <= i < |s| ==>
      s[i] == keyword[i] || ('A' <= keyword[i] <= 'Z' && s[i] == keyword[i] + 32 as char)
  }

  lemma KeywordIs(s: string, keyword: string)
    requires forall i :: 0 <= i < |keyword| ==> 'A' <= keyword[i] <= 'Z' || keyword[i] == ' ' || keyword[i] == ':'
    ensures StartsWith(s, keyword) <==> |keyword| <= |s| && InAnyCase(s[..|keyword|], keyword)
  {
    if |keyword| <= |s| {
      var t := s[..|keyword|];
      forall i | 0 <= i < |keyword|
        ensures Lower(s[i]) == Lower(keyword[i])
           <==> t[i] == keyword[i] || ('A' <= keyword[i] <= 'Z' && t[i] == keyword[i] + 32 as char)
      {
        assert t[i] == s[i];
      }
    }
  }

  lemma SpellingsDiffer(v: Word, w: Word)
    requires v != w
    ensures Spelling(v)[0] != Spelling(w)[0] || Spelling(v)[1] != Spelling(w)[1]
  {
  }

  /** A line begins with at most one of the commands. */
  lemma OneWord(cmd: string, w: Word)
    requires InAnyCase(cmd, Spelling(w))
    ensures forall v: Word :: StartsWith(cmd, Spelling(v)) <==> v == w
    ensures '\0' !in cmd
  {
    hide Spelling;
    forall v: Word ensures StartsWith(cmd, Spelling(v)) <==> v == w {
      KeywordIs(cmd, Spelling(v));
      assert cmd[..4] == cmd;
      if v != w {
        SpellingsDiffer(v, w);
      }
    }
  }

  /** The argument of a command: what stands behind the blanks, up to a NUL or the end. */
  ghost predicate Argument(text: string, arg: string) {
    exists blanks: string, tail: string ::
      && text == blanks + arg + tail && (forall i :: 0 <= i < |blanks| ==> blanks[i] == ' ')
      && '\0' !in arg && (arg == "" || arg[0] != ' ') && (tail == "" || tail[0] == '\0')
  }

  lemma {:induction false} CStrStops(s: string, tail: string)
    requires '\0' !in s && (tail == "" || tail[0] == '\0')
    ensures CStr(s + tail) == s
  {
    if s == "" {
      assert s + tail == tail;
    } else {
      assert (s + tail)[1..] == s[1..] + tail;
      CStrStops(s[1..], tail);
    }
  }

  lemma {:induction false} SpacesSkipped(blanks: string, arg: string)
    requires (forall i :: 0 <= i < |blanks| ==> blanks[i] == ' ') && (arg == "" || arg[0] != ' ')
    ensures SkipSpaces(blanks + arg) == arg
  {
    if blanks == "" {
      assert blanks + arg == arg;
    } else {
      assert (blanks + arg)[1..] == blanks[1..] + arg;
      SpacesSkipped(blanks[1..], arg);
    }
  }

  lemma ArgumentIs(text: string, arg: string)
    requires Argument(text, arg)
    ensures SkipSpaces(CStr(text)) == arg
  {
    var blanks: string, tail: string :|
      && text == blanks + arg + tail && (forall i :: 0 <= i < |blanks| ==> blanks[i] == ' ')
      && '\0' !in arg && (arg == "" || arg[0] != ' ') && (tail == "" || tail[0] == '\0');
    CStrStops(blanks + arg, tail);
    SpacesSkipped(blanks, arg);
  }

  /** The first word decides. */
  lemma Chain(s: Server, content: string, w: Word)
    requires |content| >= 4 && InAnyCase(content[..4], Spelling(w))
    ensures var r := s.CommandLine(content);
      match w
      case Helo =>
        r == if |content| == 4 || content[4] != ' ' then (s, Some(501))
             else if SkipSpaces(CStr(content[5..])) == "" then (s, Some(501)) else (s, Some(250))
      case Mail =>
        r == if !StartsWith(content, "MAIL FROM:") then (s, Some(501))
             else
               var from := SkipSpaces(CStr(content[10..]));
               if from == "" then (s, Some(501)) else (s.(cur := s.cur.(from := from)), Some(250))
      case Rcpt =>
        r == if !StartsWith(content, "RCPT TO:") then (s, Some(501))
             else
               var to := SkipSpaces(CStr(content[8..]));
               if to == "" then (s, Some(501)) else (s.(cur := s.cur.(to := s.cur.to + [to])), Some(250))
      case Data => r == (s.DataBegin(), if s.cur.body == "" then Some(354) else None)
      case Rset => r == (s, Some(250))
      case Noop => r == (s, Some(220))
      case Quit => r == (s.(mode := Mode.Quit), Some(221))
      case _ => r == (s, Some(502))
  {
    hide SkipSpaces, CStr, StartsWith, InAnyCase, Spelling, Server.DataBegin;
    OneWord(content[..4], w);
    Spelled();
    assert CStr(content[..4]) == content[..4];
    DataIs(s);
  }

  lemma DataIs(s: Server)
    ensures s.cur.body == "" ==> s.DataBegin() == s.(mode := Mode.Data)
  {
  }

  // ----- the answers -----

  /** HELO needs an argument behind one blank or more. */
  lemma HeloAnswered(s: Server, content: string, arg: string)
    requires |content| >= 4 && InAnyCase(content[..4], "HELO")
    ensures |content| == 4 || content[4] != ' ' ==> s.CommandLine(content) == (s, Some(501))
    ensures |content| > 4 && content[4] == ' ' && Argument(content[5..], arg) ==>
      s.CommandLine(content) == (s, Some(if arg == "" then 501 else 250))
  {
    hide SkipSpaces, CStr, StartsWith, Server.CommandLine, InAnyCase, Argument;
    assert Spelling(Helo) == "HELO";
    Chain(s, content, Helo);
    if |content| > 4 && Argument(content[5..], arg) {
      ArgumentIs(content[5..], arg);
    }
  }

  /** MAIL FROM: sets the sender, if there is one. */
  lemma MailAnswered(s: Server, word: string, text: string, arg: string)
    requires InAnyCase(word, "MAIL FROM:") && Argument(text, arg)
    ensures s.CommandLine(word + text)
         == if arg == "" then (s, Some(501)) else (s.(cur := s.cur.(from := arg)), Some(250))
  {
    hide SkipSpaces, CStr, StartsWith, Server.CommandLine, Argument;
    var content := word + text;
    assert content[..4] == word[..4] && content[..10] == word && content[10..] == text;
    assert Spelling(Mail) == "MAIL" && InAnyCase(content[..4], Spelling(Mail));
    KeywordIs(content, "MAIL FROM:");
    Chain(s, content, Mail);
    ArgumentIs(text, arg);
  }

  /** RCPT TO: adds a recipient, if there is one. */
  lemma RcptAnswered(s: Server, word: string, text: string, arg: string)
    requires InAnyCase(word, "RCPT TO:") && Argument(text, arg)
    ensures s.CommandLine(word + text)
         == if arg == "" then (s, Some(501)) else (s.(cur := s.cur.(to := s.cur.to + [arg])), Some(250))
  {
    hide SkipSpaces, CStr, StartsWith, Server.CommandLine, Argument;
    var content := word + text;
    assert content[..4] == word[..4] && content[..8] == word && content[8..] == text;
    assert Spelling(Rcpt) == "RCPT" && InAnyCase(content[..4], Spelling(Rcpt));
    KeywordIs(content, "RCPT TO:");
    Chain(s, content, Rcpt);
    ArgumentIs(text, arg);
  }

  /** MAIL without FROM: and RCPT without TO: are malformed. */
  lemma MalformedAnswered(s: Server, content: string)
    requires |content| >= 4
    requires || (InAnyCase(content[..4], "MAIL") && !(|content| >= 10 && InAnyCase(content[..10], "MAIL FROM:")))
             || (InAnyCase(content[..4], "RCPT") && !(|content| >= 8 && InAnyCase(content[..8], "RCPT TO:")))
    ensures s.CommandLine(content) == (s, Some(501))
  {
    hide SkipSpaces, CStr, StartsWith, Server.CommandLine, InAnyCase;
    assert Spelling(Mail) == "MAIL" && Spelling(Rcpt) == "RCPT";
    if InAnyCase(content[..4], "MAIL") && !(|content| >= 10 && InAnyCase(content[..10], "MAIL FROM:")) {
      KeywordIs(content, "MAIL FROM:");
      Chain(s, content, Mail);
    } else {
      KeywordIs(content, "RCPT TO:");
      Chain(s, content, Rcpt);
    }
  }

  /** The commands without arguments, whatever stands behind them: only QUIT, and DATA between
      messages, change anything; seven are known but not implemented. */
  lemma PlainAnswered(s: Server, content: string, w: Word)
    requires |content| >= 4 && InAnyCase(content[..4], Spelling(w))
    ensures w.Rset? ==> s.CommandLine(content) == (s, Some(250))
    ensures w.Noop? ==> s.CommandLine(content) == (s, Some(220))
    ensures w.Quit? ==> s.CommandLine(content) == (s.(mode := Mode.Quit), Some(221))
    ensures w.Data? && s.cur.body == "" ==> s.CommandLine(content) == (s.(mode := Mode.Data), Some(354))
    ensures w in {Turn, Send, Soml, Saml, Vrfy, Expn, Ehlo} ==> s.CommandLine(content) == (s, Some(502))
  {
    hide Server.CommandLine, InAnyCase, Spelling;
    Chain(s, content, w);
  }

  /** A line of a message up to a NUL: the lone dot ends the message, and it is delivered exactly if
      it has a sender, a recipient and a body; another line loses a leading dot. */
  lemma BodyAnswered(s: Server, text: string, tail: string)
    requires '\0' !in text && (tail == "" || tail[0] == '\0')
    ensures text == "." ==>
      s.BodyLine(text + tail)
      == (Server(Command, Msg("", [], ""),
                 if s.cur.from != "" && s.cur.to != [] && s.cur.body != "" then s.received + [s.cur] else s.received), Some(250))
    ensures text != "." ==>
      var line := if text != "" && text[0] == '.' then text[1..] else text;
      s.BodyLine(text + tail) == (s.(cur := s.cur.(body := s.cur.body + line + "\r\n")), None)
  {
    CStrStops(text, tail);
  }

  /** Anything else is not a command. */
  lemma OtherAnswered(s: Server, content: string)
    requires |content| >= 4 ==> forall w: Word :: !InAnyCase(content[..4], Spelling(w))
    ensures s.CommandLine(content) == (s, Some(500))
  {
    if |content| >= 4 {
      var cmd := CStr(content[..4]);
      if |cmd| == 4 {
        assert cmd == content[..4];
        NoWord(cmd);
      }
    }
    hide SkipSpaces, CStr, StartsWith;
  }

  lemma NoWord(cmd: string)
    requires |cmd| == 4 && forall w: Word :: !InAnyCase(cmd, Spelling(w))
    ensures !StartsWith(cmd, "HELO") && !StartsWith(cmd, "MAIL") && !StartsWith(cmd, "RCPT") && !StartsWith(cmd, "DATA")
    ensures !StartsWith(cmd, "RSET") && !StartsWith(cmd, "NOOP") && !StartsWith(cmd, "QUIT") && !StartsWith(cmd, "TURN")
    ensures !StartsWith(cmd, "SEND") && !StartsWith(cmd, "SOML") && !StartsWith(cmd, "SAML") && !StartsWith(cmd, "VRFY")
    ensures !StartsWith(cmd, "EXPN") && !StartsWith(cmd, "EHLO")
  {
    hide StartsWith, InAnyCase, Spelling;
    forall w: Word ensures !StartsWith(cmd, Spelling(w)) {
      KeywordIs(cmd, Spelling(w));
      assert cmd[..4] == cmd;
    }
    Spelled();
  }

  lemma Spelled()
    ensures Spelling(Helo) == "HELO" && Spelling(Mail) == "MAIL" && Spelling(Rcpt) == "RCPT" && Spelling(Word.Data) == "DATA"
    ensures Spelling(Rset) == "RSET" && Spelling(Noop) == "NOOP" && Spelling(Word.Quit) == "QUIT" && Spelling(Turn) == "TURN"
    ensures Spelling(Send) == "SEND" && Spelling(Soml) == "SOML" && Spelling(Saml) == "SAML" && Spelling(Vrfy) == "VRFY"
    ensures Spelling(Expn) == "EXPN" && Spelling(Ehlo) == "EHLO"
  {
  }
}
