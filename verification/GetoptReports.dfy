/** What calls of `getopt_long` report, said with the option string and the argument vector. */
module GetoptReports {
  import opened Util
  import opened LongOptions
  import opened Getopt

  /** A call finds the option text `p` in argument `o`: in the middle of a cluster, or at the
      start of an argument. */
  predicate Finds(argv: seq<string>, o: nat, place: string, p: string) {
    && o < |argv| && p != "" && InCluster(argv, o, place)
    && if place != "" then p == place else argv[o] == "-" + p && p != "-"
  }

  lemma CallReads(cfg: Config, argv: seq<string>, o: nat, place: string, p: string,
                  opts: seq<string>, skipped: seq<string>)
    requires cfg.Valid() && Finds(argv, o, place, p)
    ensures Next(cfg, argv, o, place, opts, skipped) == OptionTurn(cfg, argv, o, p, opts, skipped)
  {
    hide OptionTurn;
    if place == "" {
      assert argv[o][1..] == p;
    }
  }

  /** The option string lists the letter `c`, and `post` is what stands behind it. */
  ghost predicate Listed(options: string, c: char, post: string) {
    c != ':' && exists pre: string :: options == pre + [c] + post && c !in pre
  }

  lemma {:induction false} IndexOfListed(pre: string, c: char, post: string)
    requires c !in pre
    ensures IndexOf(pre + [c] + post, c) == |pre|
  {
    var s := pre + [c] + post;
    if pre != "" {
      assert s[0] == pre[0] && s[1..] == pre[1..] + [c] + post;
      IndexOfListed(pre[1..], c, post);
    }
  }

  lemma AfterIs(cfg: Config, c: char, post: string)
    requires Listed(cfg.options, c, post)
    ensures c in cfg.options && (cfg.After(c, 1) == ':' <==> post != "" && post[0] == ':')
    ensures cfg.After(c, 2) == ':' <==> |post| > 1 && post[1] == ':'
    ensures cfg.After(c, 1) == ';' <==> post != "" && post[0] == ';'
  {
    var pre: string :| cfg.options == pre + [c] + post && c !in pre;
    IndexOfListed(pre, c, post);
    hide IndexOf;
    PastLetter(pre, c, post);
  }

  lemma PastLetter(pre: string, c: char, post: string)
    ensures var s := pre + [c] + post;
      && |s| == |pre| + 1 + |post| && s[|pre|] == c
      && (forall k :: 0 <= k < |post| ==> s[|pre| + 1 + k] == post[k])
  {
  }

  /** The text is not taken for a long option. */
  predicate ReadAsShort(cfg: Config, p: string)
    requires p != ""
  {
    cfg.longs.None? || (p[0] != '-' && !cfg.longOnly)
    || (p[0] != '-' && p[0] != ':' && p[0] in cfg.options
        && Lookup(cfg.longs.value, Until(p, '='), true, true).NoMatch?)
  }

  lemma ShortIsRead(cfg: Config, argv: seq<string>, o: nat, p: string)
    requires p != "" && ReadAsShort(cfg, p)
    ensures OptionStep(cfg, argv, o, p) == ShortStep(cfg, argv, o, p)
  {
    hide ShortStep, Lookup, IndexOf;
  }

  /** What a call reports: its result, the argument, and where the next call starts. */
  predicate Reported(t: Turn, ret: int, optarg: Option<string>, optind: nat, place: string) {
    t.Turn? && t.out == Outcome(ret, optarg, optind, None, None, None) && t.place == place
  }

  /** An error is reported by a character and a culprit. */
  predicate Complained(t: Turn, ret: int, culprit: int, optind: nat, place: string) {
    t.Turn? && t.out == Outcome(ret, None, optind, Some(culprit), None, None) && t.place == place
  }

  function Missing(options: string): int {
    if options != "" && options[0] == ':' then ':' as int else '?' as int
  }

  /** A letter without argument is reported, and the next call goes on behind it. */
  lemma FlagReported(cfg: Config, argv: seq<string>, o: nat, place: string, c: char, rest: string, post: string,
                     opts: seq<string>, skipped: seq<string>)
    requires cfg.Valid() && Finds(argv, o, place, [c] + rest) && ReadAsShort(cfg, [c] + rest)
    requires Listed(cfg.options, c, post) && (post == "" || post[0] != ':') && (c == '-' ==> rest == "")
    requires cfg.longs.Some? && c == 'W' ==> post == "" || post[0] != ';'
    ensures Reported(Next(cfg, argv, o, place, opts, skipped), c as int, None, if rest == "" then o + 1 else o, rest)
  {
    hide IndexOf, LongOutcome;
    CallReads(cfg, argv, o, place, [c] + rest, opts, skipped);
    ShortIsRead(cfg, argv, o, [c] + rest);
    AfterIs(cfg, c, post);
    assert ([c] + rest)[1..] == rest;
  }

  /** A letter with a required argument: the rest of its cluster, else the next argument; at the
      end of the vector it is missing. */
  lemma ArgumentReported(cfg: Config, argv: seq<string>, o: nat, place: string, c: char, rest: string, post: string,
                         opts: seq<string>, skipped: seq<string>)
    requires cfg.Valid() && Finds(argv, o, place, [c] + rest) && ReadAsShort(cfg, [c] + rest)
    requires Listed(cfg.options, c, post) && post != "" && post[0] == ':' && (|post| == 1 || post[1] != ':')
    requires c == '-' ==> rest == ""
    ensures var t := Next(cfg, argv, o, place, opts, skipped);
      if rest != "" then Reported(t, c as int, Some(rest), o + 1, "")
      else if o + 1 < |argv| then Reported(t, c as int, Some(argv[o + 1]), o + 2, "")
      else Complained(t, Missing(cfg.options), c as int, o + 1, "")
  {
    hide IndexOf, LongOutcome;
    CallReads(cfg, argv, o, place, [c] + rest, opts, skipped);
    ShortIsRead(cfg, argv, o, [c] + rest);
    AfterIs(cfg, c, post);
    assert ([c] + rest)[1..] == rest;
  }

  /** An optional argument is the rest of the cluster; without permutation, the next argument
      too if it does not start with a dash. */
  lemma OptionalReported(cfg: Config, argv: seq<string>, o: nat, place: string, c: char, rest: string, post: string,
                         opts: seq<string>, skipped: seq<string>)
    requires cfg.Valid() && Finds(argv, o, place, [c] + rest) && ReadAsShort(cfg, [c] + rest)
    requires Listed(cfg.options, c, post) && |post| > 1 && post[0] == post[1] == ':'
    requires c == '-' ==> rest == ""
    ensures var t := Next(cfg, argv, o, place, opts, skipped);
      if rest != "" then Reported(t, c as int, Some(rest), o + 1, "")
      else if !cfg.permute && o + 1 < |argv| && !("-" <= argv[o + 1]) then
        Reported(t, c as int, Some(argv[o + 1]), o + 2, "")
      else Reported(t, c as int, None, o + 1, "")
  {
    hide IndexOf, LongOutcome;
    CallReads(cfg, argv, o, place, [c] + rest, opts, skipped);
    ShortIsRead(cfg, argv, o, [c] + rest);
    AfterIs(cfg, c, post);
    assert ([c] + rest)[1..] == rest;
  }

  /** A letter that is no option, a ':' and a dash inside a cluster are '?'. */
  lemma UnknownReported(cfg: Config, argv: seq<string>, o: nat, place: string, c: char, rest: string,
                        opts: seq<string>, skipped: seq<string>)
    requires cfg.Valid() && Finds(argv, o, place, [c] + rest) && ReadAsShort(cfg, [c] + rest)
    requires if c == '-' then rest != "" else c == ':' || c !in cfg.options
    ensures Complained(Next(cfg, argv, o, place, opts, skipped), '?' as int, c as int, if rest == "" then o + 1 else o, rest)
  {
    hide IndexOf, LongOutcome;
    CallReads(cfg, argv, o, place, [c] + rest, opts, skipped);
    ShortIsRead(cfg, argv, o, [c] + rest);
    assert ([c] + rest)[1..] == rest;
  }

  /** A non-option is reported as the argument of 1 when the options start with '-'. */
  lemma NonOptionReported(cfg: Config, argv: seq<string>, o: nat, opts: seq<string>, skipped: seq<string>)
    requires cfg.Valid() && o < |argv| && cfg.allArgs && (argv[o] == "" || argv[o] == "-" || argv[o][0] != '-')
    ensures Reported(Next(cfg, argv, o, "", opts, skipped), 1, Some(argv[o]), o + 1, "")
  {
    assert |argv[o]| == 1 && argv[o][0] == '-' ==> argv[o] == "-";
  }

  // ----- long options -----

  /** `text` is taken for a long option: it stands behind two dashes, or behind one if one is
      enough. */
  predicate ReadAsLong(cfg: Config, p: string, text: string) {
    cfg.longs.Some? && (p == "-" + text || (cfg.longOnly && p == text && !("-" <= text)))
  }

  /** Whether a lone letter could also be a short option. */
  predicate ShortToo(cfg: Config, p: string) {
    p != "" && p[0] != '-' && p[0] != ':' && p[0] in cfg.options
  }

  /** The value that a long option returns, and the one it stores. */
  function Value(l: LongOption): int { if l.flag.None? then l.val else 0 }

  function Stored(l: LongOption): Option<(nat, int)> {
    if l.flag.None? then None else Some((l.flag.value, l.val))
  }

  /** The call reports the long option with this index. */
  predicate LongReport(cfg: Config, t: Turn, i: nat, optarg: Option<string>, optind: nat)
    requires cfg.longs.Some? && i < |cfg.longs.value|
  {
    var l := cfg.longs.value[i];
    t.Turn? && t.out == Outcome(Value(l), optarg, optind, None, Some(i), Stored(l)) && t.place == ""
  }

  lemma LongIsRead(cfg: Config, argv: seq<string>, o: nat, place: string, p: string, text: string,
                   opts: seq<string>, skipped: seq<string>)
    requires cfg.Valid() && Finds(argv, o, place, p) && ReadAsLong(cfg, p, text)
    ensures var out := LongOutcome(cfg, argv, o, text, ShortToo(cfg, p));
      var t := Next(cfg, argv, o, place, opts, skipped);
      out.ret != -1 ==> t.Turn? && t.out == out && t.place == ""
  {
    hide LongOutcome, ShortStep;
    CallReads(cfg, argv, o, place, p, opts, skipped);
    if p == "-" + text {
      assert p[1..] == text;
    }
  }

  lemma {:induction false} NameEnds(name: string, value: string)
    requires '=' !in name
    ensures Until(name, '=') == name && Beyond(name, '=') == None
    ensures Until(name + "=" + value, '=') == name && Beyond(name + "=" + value, '=') == Some(value)
  {
    hide IndexOf;
    IndexOfListed(name, '=', value);
    assert name + ['='] + value == name + "=" + value;
    assert (name + "=" + value)[|name| + 1..] == value;
  }

  /** "name=value": the entry that the name finds is reported with the value, unless it takes no
      argument; that is an error with the entry's value. */
  lemma LongWithValue(cfg: Config, argv: seq<string>, o: nat, place: string, p: string, name: string, value: string,
                      i: nat, opts: seq<string>, skipped: seq<string>)
    requires cfg.Valid() && Finds(argv, o, place, p) && ReadAsLong(cfg, p, name + "=" + value) && '=' !in name
    requires Lookup(cfg.longs.value, name, ShortToo(cfg, p), cfg.longOnly) == Found(i)
    ensures var t := Next(cfg, argv, o, place, opts, skipped);
      var l := cfg.longs.value[i];
      if l.hasArg.NoArgument? then Complained(t, '?' as int, Value(l), o + 1, "")
      else LongReport(cfg, t, i, Some(value), o + 1)
  {
    hide Lookup, Until, Beyond;
    NameEnds(name, value);
    LongIsRead(cfg, argv, o, place, p, name + "=" + value, opts, skipped);
  }

  /** "name": an entry with a required argument gets the next argument; at the end of the vector
      it is missing. */
  lemma LongAlone(cfg: Config, argv: seq<string>, o: nat, place: string, p: string, name: string,
                  i: nat, opts: seq<string>, skipped: seq<string>)
    requires cfg.Valid() && Finds(argv, o, place, p) && ReadAsLong(cfg, p, name) && '=' !in name
    requires Lookup(cfg.longs.value, name, ShortToo(cfg, p), cfg.longOnly) == Found(i)
    ensures var t := Next(cfg, argv, o, place, opts, skipped);
      var l := cfg.longs.value[i];
      if !l.hasArg.RequiredArgument? then LongReport(cfg, t, i, None, o + 1)
      else if o + 1 < |argv| then LongReport(cfg, t, i, Some(argv[o + 1]), o + 2)
      else Complained(t, Missing(cfg.options), Value(l), o + 1, "")
  {
    hide Lookup, Until, Beyond;
    NameEnds(name, "");
    LongIsRead(cfg, argv, o, place, p, name, opts, skipped);
  }

  /** A name that finds nothing, or several options, is '?', unless it may be a short option. */
  lemma LongUnknown(cfg: Config, argv: seq<string>, o: nat, place: string, p: string, name: string, text: string,
                    opts: seq<string>, skipped: seq<string>)
    requires cfg.Valid() && Finds(argv, o, place, p) && ReadAsLong(cfg, p, text) && '=' !in name
    requires text == name || exists value: string :: text == name + "=" + value
    requires !Lookup(cfg.longs.value, name, ShortToo(cfg, p), cfg.longOnly).Found?
    requires Lookup(cfg.longs.value, name, ShortToo(cfg, p), cfg.longOnly).NoMatch? ==> !ShortToo(cfg, p)
    ensures Complained(Next(cfg, argv, o, place, opts, skipped), '?' as int, 0, o + 1, "")
  {
    hide Lookup, Until, Beyond;
    if text != name {
      var value: string :| text == name + "=" + value;
      NameEnds(name, value);
    } else {
      NameEnds(name, "");
    }
    LongIsRead(cfg, argv, o, place, p, text, opts, skipped);
  }

  /** "-W name" is "--name", with the name in the rest of the cluster or in the next argument. */
  lemma LongByW(cfg: Config, argv: seq<string>, o: nat, place: string, rest: string, post: string,
                opts: seq<string>, skipped: seq<string>)
    requires cfg.Valid() && Finds(argv, o, place, "W" + rest) && ReadAsShort(cfg, "W" + rest)
    requires cfg.longs.Some? && Listed(cfg.options, 'W', post) && post != "" && post[0] == ';'
    ensures var t := Next(cfg, argv, o, place, opts, skipped);
      if rest != "" then t.Turn? && t.out == LongOutcome(cfg, argv, o, rest, false) && t.place == ""
      else if o + 1 < |argv| then t.Turn? && t.out == LongOutcome(cfg, argv, o + 1, argv[o + 1], false) && t.place == ""
      else Complained(t, Missing(cfg.options), 'W' as int, o + 1, "")
  {
    hide IndexOf, LongOutcome;
    CallReads(cfg, argv, o, place, "W" + rest, opts, skipped);
    ShortIsRead(cfg, argv, o, "W" + rest);
    AfterIs(cfg, 'W', post);
    assert ("W" + rest)[1..] == rest;
  }
}
