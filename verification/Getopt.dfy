/** Option parsing with permutation: `parse_long_options` and `getopt_internal` of
    compat/getopt_long.c, and the loop of a caller around them.

    `Walk` reads the original argument vector from left to right and never moves
    anything.  The class does what the source does: it permutes the vector in place,
    a block at a time, over many calls. */
module Getopt {
  import opened Util
  import opened LongOptions
  import opened ArgRotation

  const BADCH := '?' as int
  const INORDER := 1

  /** Everything that stays fixed during a run.  `options` has lost its leading
      '+' or '-', which `allArgs` and `permute` record. */
  datatype Config = Config(options: string, longs: Option<seq<LongOption>>, longOnly: bool,
                           allArgs: bool, permute: bool) {
    function BadArg(): int {
      if |options| > 0 && options[0] == ':' then ':' as int else BADCH
    }

    /** The character `k` places after the option letter; '\0' past the end. */
    function After(c: char, k: nat): char
      requires c in options
    {
      var i := IndexOf(options, c) + k;
      if i < |options| then options[i] else '\0'
    }

    predicate Permutes() { permute && !allArgs }

    /** -1 is what `getopt_long` returns at the end, so no option may use it. */
    ghost predicate Valid() {
      longs.Some? ==> forall i :: 0 <= i < |longs.value| ==> longs.value[i].val != -1
    }
  }

  function MakeConfig(options: string, longs: Option<seq<LongOption>>, longOnly: bool, permute: bool,
                      posixlyCorrect: bool): Config {
    var first := if |options| > 0 then options[0] else '\0';
    Config(if first == '+' || first == '-' then options[1..] else options, longs, longOnly,
           first == '-', permute && (first == '-' || !(posixlyCorrect || first == '+')))
  }

  /** Who permutes: callers that ask for it, without POSIXLY_CORRECT and without a mode
      character; '-' has non-options reported in any case. */
  lemma ModeIs(options: string, longs: Option<seq<LongOption>>, longOnly: bool, permute: bool, posixlyCorrect: bool)
    ensures var cfg := MakeConfig(options, longs, longOnly, permute, posixlyCorrect);
      var mode := options != "" && (options[0] == '+' || options[0] == '-');
      && (cfg.Permutes() <==> permute && !posixlyCorrect && !mode)
      && (cfg.allArgs <==> options != "" && options[0] == '-')
      && options == (if mode then [options[0]] else "") + cfg.options
  {
  }

  function IndexOf(s: string, c: char): (i: nat)
    ensures i <= |s| && (i < |s| <==> c in s)
    ensures i < |s| ==> s[i] == c
    ensures c !in s[..i]
  {
    if s == [] then 0
    else if s[0] == c then 0
    else
      var i := IndexOf(s[1..], c);
      assert s[..i + 1] == [s[0]] + s[1..][..i];
      i + 1
  }

  function Until(s: string, c: char): string { s[..IndexOf(s, c)] }

  function Beyond(s: string, c: char): Option<string> {
    if c in s then Some(s[IndexOf(s, c) + 1..]) else None
  }

  function Arg(argv: seq<string>, i: nat): Option<string> {
    if i < |argv| then Some(argv[i]) else None
  }

  // ----- one option, read off an argument vector that nobody moves -----

  /** What one call reports, and where scanning goes on. */
  datatype Outcome = Outcome(ret: int, optarg: Option<string>, optind: nat, optopt: Option<int>,
                             index: Option<nat>, store: Option<(nat, int)>)

  function Report(ret: int, optind: nat, optopt: int): Outcome {
    Outcome(ret, None, optind, Some(optopt), None, None)
  }

  function LongOutcome(cfg: Config, argv: seq<string>, o: nat, text: string, shortToo: bool): (out: Outcome)
    requires cfg.longs.Some?
    ensures out.ret != -1 && o < |argv| ==> o < out.optind <= |argv|
    ensures out.ret == -1 && cfg.Valid() ==> shortToo && out == Outcome(-1, None, o, None, None, None)
  {
    var table := cfg.longs.value;
    var equal := Beyond(text, '=');
    match Lookup(table, Until(text, '='), shortToo, cfg.longOnly)
    case Ambiguous => Report(BADCH, o + 1, 0)
    case NoMatch =>
      if shortToo then Outcome(-1, None, o, None, None, None) else Report(BADCH, o + 1, 0)
    case Found(i) => LongFound(cfg, argv, o, i, equal)
  }

  /** The option with this index, with what follows the '=' if there is one. */
  function LongFound(cfg: Config, argv: seq<string>, o: nat, i: nat, equal: Option<string>): (out: Outcome)
    requires cfg.longs.Some? && i < |cfg.longs.value|
    ensures (out.ret != -1 || cfg.Valid()) && o < |argv| ==> o < out.optind <= |argv|
    ensures cfg.Valid() ==> out.ret != -1
  {
    var l := cfg.longs.value[i];
    var culprit := if l.flag.None? then l.val else 0;
    if l.hasArg.NoArgument? && equal.Some? then
      Report(BADCH, o + 1, culprit)
    else if l.hasArg.RequiredArgument? && equal.None? && o + 1 >= |argv| then
      Report(cfg.BadArg(), o + 1, culprit)
    else
      var next := l.hasArg.RequiredArgument? && equal.None?;
      Outcome(if l.flag.None? then l.val else 0,
              if next then Arg(argv, o + 1) else if l.hasArg.NoArgument? then None else equal,
              if next then o + 2 else o + 1, None, Some(i),
              if l.flag.None? then None else Some((l.flag.value, l.val)))
  }

  /** `DashStop` is the lone '-' at the end of a cluster, which ends the run early. */
  datatype Step = DashStop | Step(out: Outcome, place: string)

  function ShortStep(cfg: Config, argv: seq<string>, o: nat, place: string): (r: Step)
    requires place != ""
    ensures r.Step? && o < |argv| ==> o <= r.out.optind <= |argv|
    ensures r.Step? ==> (r.place == "" && (o < |argv| && cfg.Valid() ==> o < r.out.optind))
                        || (r.place == place[1..] != "" && r.out.optind == o)
    ensures r.Step? && cfg.Valid() ==> r.out.ret != -1
  {
    var c, rest := place[0], place[1..];
    var moved := if rest == "" then o + 1 else o;
    if c == ':' || (c == '-' && rest != "") || c !in cfg.options then
      if c == '-' && rest == "" then DashStop else Step(Report(BADCH, moved, c as int), rest)
    else if cfg.longs.Some? && c == 'W' && cfg.After(c, 1) == ';' then
      if rest != "" then Step(LongOutcome(cfg, argv, o, rest, false), "")
      else if o + 1 >= |argv| then Step(Report(cfg.BadArg(), o + 1, c as int), "")
      else Step(LongOutcome(cfg, argv, o + 1, argv[o + 1], false), "")
    else if cfg.After(c, 1) != ':' then
      Step(Outcome(c as int, None, moved, None, None, None), rest)
    else if rest != "" then
      Step(Outcome(c as int, Some(rest), o + 1, None, None, None), "")
    else if cfg.After(c, 2) != ':' then
      if o + 1 >= |argv| then Step(Report(cfg.BadArg(), o + 1, c as int), "")
      else Step(Outcome(c as int, Some(argv[o + 1]), o + 2, None, None, None), "")
    else if !cfg.permute && o + 1 < |argv| && (argv[o + 1] == "" || argv[o + 1][0] != '-') then
      Step(Outcome(c as int, Some(argv[o + 1]), o + 2, None, None, None), "")
    else
      Step(Outcome(c as int, None, o + 1, None, None, None), "")
  }

  /** A long option if the table is consulted and knows it, else a short one. */
  function OptionStep(cfg: Config, argv: seq<string>, o: nat, place: string): (r: Step)
    requires place != ""
    ensures r.Step? && o < |argv| ==> o <= r.out.optind <= |argv|
    ensures r.Step? ==> (r.place == "" && (o < |argv| && cfg.Valid() ==> o < r.out.optind))
                        || (r.place == place[1..] != "" && r.out.optind == o)
    ensures r.Step? && cfg.Valid() ==> r.out.ret != -1
  {
    if cfg.longs.Some? && (place[0] == '-' || cfg.longOnly) then
      var text := if place[0] == '-' then place[1..] else place;
      var shortToo := place[0] != '-' && place[0] != ':' && place[0] in cfg.options;
      var out := LongOutcome(cfg, argv, o, text, shortToo);
      if out.ret != -1 then Step(out, "") else ShortStep(cfg, argv, o, place)
    else
      ShortStep(cfg, argv, o, place)
  }

  // ----- the whole vector, read from left to right -----

  predicate IsNonOption(a: string) { a == "" || a[0] != '-' || |a| == 1 }

  /** What one call of `getopt_long` does: it reports an option, or ends the run, or stops
      early.  `opts` and `skipped` are everything read so far, in order: the options with
      the arguments they take up, and the non-options that were passed over. */
  datatype Turn =
    | Turn(out: Outcome, opts: seq<string>, skipped: seq<string>, place: string)
    | End(opts: seq<string>, skipped: seq<string>, optind: nat)
    | Stuck(opts: seq<string>, skipped: seq<string>, optind: nat)

  /** Scanning is between arguments (`place` is empty) or inside argument `o`. */
  predicate InCluster(argv: seq<string>, o: nat, place: string) {
    o <= |argv| && (place != "" ==> o < |argv| && |place| < |argv[o]|)
  }

  function OptionTurn(cfg: Config, argv: seq<string>, o: nat, place: string, opts: seq<string>, skipped: seq<string>): Turn
    requires o < |argv| && place != "" && cfg.Valid()
  {
    match OptionStep(cfg, argv, o, place)
    case DashStop => Stuck(opts, skipped, o)
    case Step(out, place') => Turn(out, opts + argv[o..out.optind], skipped, place')
  }

  function Next(cfg: Config, argv: seq<string>, o: nat, place: string, opts: seq<string>, skipped: seq<string>): (t: Turn)
    requires cfg.Valid() && InCluster(argv, o, place)
    ensures t.Turn? ==> o <= t.out.optind <= |argv| && t.out.ret != -1
    ensures t.Turn? && t.place == "" ==> o < t.out.optind
    ensures t.Turn? && t.place != "" ==>
      && InCluster(argv, t.out.optind, t.place)
      && (o < t.out.optind || |t.place| < if place == "" then |argv[o]| else |place|)
    ensures !t.Turn? ==> o <= t.optind <= |argv|
    decreases |argv| - o
  {
    if place != "" then
      OptionTurn(cfg, argv, o, place, opts, skipped)
    else if o == |argv| then End(opts, skipped, o)
    else if IsNonOption(argv[o]) then
      if cfg.allArgs then
        Turn(Outcome(INORDER, Some(argv[o]), o + 1, None, None, None), opts + [argv[o]], skipped, "")
      else if !cfg.permute then End(opts, skipped, o)
      else Next(cfg, argv, o + 1, "", opts, skipped + [argv[o]])
    else if argv[o] == "--" then End(opts + ["--"], skipped, o + 1)
    else OptionTurn(cfg, argv, o, argv[o][1..], opts, skipped)
  }

  lemma NextAtEnd(cfg: Config, argv: seq<string>, opts: seq<string>, skipped: seq<string>)
    requires cfg.Valid()
    ensures Next(cfg, argv, |argv|, "", opts, skipped) == End(opts, skipped, |argv|)
  {
  }

  lemma NextAt(cfg: Config, argv: seq<string>, o: nat, opts: seq<string>, skipped: seq<string>)
    requires cfg.Valid() && o < |argv|
    ensures Next(cfg, argv, o, "", opts, skipped) ==
      if IsNonOption(argv[o]) then
        if cfg.allArgs then
          Turn(Outcome(INORDER, Some(argv[o]), o + 1, None, None, None), opts + [argv[o]], skipped, "")
        else if !cfg.permute then End(opts, skipped, o)
        else Next(cfg, argv, o + 1, "", opts, skipped + [argv[o]])
      else if argv[o] == "--" then End(opts + ["--"], skipped, o + 1)
      else OptionTurn(cfg, argv, o, argv[o][1..], opts, skipped)
  {
  }

  lemma NextInCluster(cfg: Config, argv: seq<string>, o: nat, place: string, opts: seq<string>, skipped: seq<string>)
    requires cfg.Valid() && InCluster(argv, o, place) && place != ""
    ensures Next(cfg, argv, o, place, opts, skipped) == OptionTurn(cfg, argv, o, place, opts, skipped)
  {
  }

  /** A whole run: all reports in order, the options with their arguments (and "--"),
      the non-options that were skipped, and where reading stopped. */
  datatype Run = Run(events: seq<Outcome>, opts: seq<string>, nonopts: seq<string>, optind: nat, stuck: bool)

  function Walk(cfg: Config, argv: seq<string>, o: nat, place: string, opts: seq<string> := [],
                skipped: seq<string> := []): (w: Run)
    requires cfg.Valid() && InCluster(argv, o, place)
    ensures o <= w.optind <= |argv|
    decreases |argv| - o, if place == "" && o < |argv| then |argv[o]| else |place|
  {
    match Next(cfg, argv, o, place, opts, skipped)
    case Turn(out, opts', skipped', place') =>
      var w := Walk(cfg, argv, out.optind, place', opts', skipped');
      w.(events := [out] + w.events)
    case End(opts', skipped', optind) => Run([], opts', skipped', optind, false)
    case Stuck(opts', skipped', optind) => Run([], opts', skipped', optind, true)
  }

  /** What the caller sees of each report. */
  function Observed(events: seq<Outcome>): seq<(int, Option<string>)> {
    if events == [] then [] else [(events[0].ret, events[0].optarg)] + Observed(events[1..])
  }

  lemma WalkStep(cfg: Config, argv: seq<string>, o: nat, place: string, opts: seq<string>, skipped: seq<string>)
    requires cfg.Valid() && InCluster(argv, o, place)
    ensures var w := Walk(cfg, argv, o, place, opts, skipped);
      match Next(cfg, argv, o, place, opts, skipped)
      case Turn(out, opts', skipped', place') =>
        var w' := Walk(cfg, argv, out.optind, place', opts', skipped');
        && w == w'.(events := w.events)
        && Observed(w.events) == [(out.ret, out.optarg)] + Observed(w'.events)
      case End(opts', skipped', optind) => w == Run([], opts', skipped', optind, false) && Observed(w.events) == []
      case Stuck(opts', skipped', optind) => w == Run([], opts', skipped', optind, true) && Observed(w.events) == []
  {
    var t := Next(cfg, argv, o, place, opts, skipped);
    if t.Turn? {
      var w' := Walk(cfg, argv, t.out.optind, t.place, t.opts, t.skipped);
      assert ([t.out] + w'.events)[1..] == w'.events;
    }
  }

  // ----- which runs stop short -----

  /** A letter that takes an argument. */
  predicate Takes(cfg: Config, c: char) {
    c != ':' && c in cfg.options && cfg.After(c, 1) == ':'
  }

  predicate NoneTakes(cfg: Config, s: string) {
    forall i :: 0 <= i < |s| ==> !Takes(cfg, s[i])
  }

  /** A cluster that ends with a '-' no letter takes as its argument. */
  predicate DashLast(cfg: Config, p: string) {
    p != "" && p[|p| - 1] == '-' && NoneTakes(cfg, p[..|p| - 1])
  }

  /** Such an argument: at least one letter between its dash and its last '-'. */
  predicate DashEnd(cfg: Config, a: string) {
    |a| > 2 && a[0] == '-' && DashLast(cfg, a[1..])
  }

  /** The cluster's last letter takes its argument from the vector. */
  predicate TakesNext(cfg: Config, argv: seq<string>, o: nat, p: string) {
    p != "" && NoneTakes(cfg, p[..|p| - 1])
    && var last := p[|p| - 1];
      && Takes(cfg, last) && o + 1 < |argv|
      && (cfg.After(last, 2) != ':' || (!cfg.permute && (argv[o + 1] == "" || argv[o + 1][0] != '-')))
  }

  /** Where scanning goes on behind the short options `p` of argument `o`. */
  function Behind(cfg: Config, argv: seq<string>, o: nat, p: string): nat {
    if TakesNext(cfg, argv, o, p) then o + 2 else o + 1
  }

  /** The first argument, from `o` on, that ends a run of short options early. */
  function DashAt(cfg: Config, argv: seq<string>, o: nat): (r: Option<nat>)
    ensures r.Some? ==> o <= r.value < |argv| && DashEnd(cfg, argv[r.value])
    decreases |argv| - o
  {
    if o >= |argv| then None
    else if IsNonOption(argv[o]) then
      if cfg.Permutes() || cfg.allArgs then DashAt(cfg, argv, o + 1) else None
    else if argv[o] == "--" then None
    else if DashEnd(cfg, argv[o]) then Some(o)
    else DashAt(cfg, argv, Behind(cfg, argv, o, argv[o][1..]))
  }

  /** No long options, and '-' is no option. */
  predicate OnlyShort(cfg: Config) {
    cfg.longs.None? && '-' !in cfg.options
  }

  /** The argument at which scanning from `o`, or from `place` within it, stops short. */
  function StopFrom(cfg: Config, argv: seq<string>, o: nat, place: string): Option<nat> {
    if !OnlyShort(cfg) then None
    else if place == "" then DashAt(cfg, argv, o)
    else if DashLast(cfg, place) then Some(o)
    else DashAt(cfg, argv, Behind(cfg, argv, o, place))
  }

  /** One letter of a cluster. */
  lemma ShortLetter(cfg: Config, argv: seq<string>, o: nat, p: string)
    requires OnlyShort(cfg) && p != "" && o < |argv|
    ensures var r := OptionStep(cfg, argv, o, p);
      && (r.DashStop? <==> p == "-")
      && (r.Step? ==> r.place == (if Takes(cfg, p[0]) then "" else p[1..]))
      && (r.Step? ==> r.out.optind == if r.place == "" then Behind(cfg, argv, o, p) else o)
  {
    hide IndexOf;
    if |p| > 1 {
      assert p[..|p| - 1][0] == p[0];
    }
  }

  /** A letter without argument changes nothing about the rest of its cluster. */
  lemma LetterPassed(cfg: Config, argv: seq<string>, o: nat, p: string)
    requires OnlyShort(cfg) && p != ""
    ensures if Takes(cfg, p[0]) then !DashLast(cfg, p)
            else p != "-" && DashLast(cfg, p) <==> p[1..] != "" && DashLast(cfg, p[1..])
    ensures !Takes(cfg, p[0]) && p[1..] != "" ==> Behind(cfg, argv, o, p) == Behind(cfg, argv, o, p[1..])
  {
    hide Config.After;
    if |p| > 1 {
      var init := p[..|p| - 1];
      assert init[0] == p[0] && p[1..][..|p| - 2] == init[1..];
      assert forall i :: 1 <= i < |init| ==> init[i] == init[1..][i - 1];
    }
  }

  lemma DashEndIs(cfg: Config, a: string)
    requires !IsNonOption(a)
    ensures DashEnd(cfg, a) <==> a != "--" && DashLast(cfg, a[1..])
  {
    if |a| == 2 && a[1] == '-' {
      assert a == "--";
    }
  }

  lemma OptionTurnStops(cfg: Config, argv: seq<string>, o: nat, place: string, opts: seq<string>, skipped: seq<string>)
    requires cfg.Valid() && o < |argv| && place != ""
    ensures match OptionTurn(cfg, argv, o, place, opts, skipped)
      case Turn(out, _, _, place') => StopFrom(cfg, argv, o, place) == StopFrom(cfg, argv, out.optind, place')
      case Stuck(_, _, i) => StopFrom(cfg, argv, o, place) == Some(i)
      case End(_, _, _) => false
  {
    if OnlyShort(cfg) {
      hide OptionStep, DashAt, DashLast, Takes, Behind;
      ShortLetter(cfg, argv, o, place);
      LetterPassed(cfg, argv, o, place);
    }
  }

  lemma {:induction false} NextStops(cfg: Config, argv: seq<string>, o: nat, place: string,
                                     opts: seq<string>, skipped: seq<string>)
    requires cfg.Valid() && InCluster(argv, o, place)
    ensures match Next(cfg, argv, o, place, opts, skipped)
      case Turn(out, _, _, place') => StopFrom(cfg, argv, o, place) == StopFrom(cfg, argv, out.optind, place')
      case Stuck(_, _, i) => StopFrom(cfg, argv, o, place) == Some(i)
      case End(_, _, _) => StopFrom(cfg, argv, o, place) == None
    decreases |argv| - o
  {
    hide OptionTurn, DashLast, Takes, Behind, OnlyShort;
    if place != "" {
      OptionTurnStops(cfg, argv, o, place, opts, skipped);
    } else if o < |argv| {
      if !IsNonOption(argv[o]) {
        DashEndIs(cfg, argv[o]);
        OptionTurnStops(cfg, argv, o, argv[o][1..], opts, skipped);
      } else if cfg.Permutes() {
        NextStops(cfg, argv, o + 1, "", opts, skipped + [argv[o]]);
      }
    }
  }

  /** Whether and where a run stops short can be read off the vector: exactly at the first
      argument that is reached and ends in a '-' which no letter of its cluster takes. */
  lemma {:induction false} StopsShort(cfg: Config, argv: seq<string>, o: nat, place: string,
                                      opts: seq<string>, skipped: seq<string>)
    requires cfg.Valid() && InCluster(argv, o, place)
    ensures var w := Walk(cfg, argv, o, place, opts, skipped);
      StopFrom(cfg, argv, o, place) == if w.stuck then Some(w.optind) else None
    decreases |argv| - o, if place == "" && o < |argv| then |argv[o]| else |place|
  {
    hide Next, StopFrom;
    NextStops(cfg, argv, o, place, opts, skipped);
    var t := Next(cfg, argv, o, place, opts, skipped);
    if t.Turn? {
      StopsShort(cfg, argv, t.out.optind, t.place, t.opts, t.skipped);
    }
  }

  // ----- the state between two calls -----

  /** The vector after a run: options, then skipped non-options, then what was not read. */
  function Arranged(was: seq<string>, base: nat, opts: seq<string>, skipped: seq<string>, o: nat): seq<string>
    requires base <= |was| && o <= |was|
  {
    was[..base] + opts + skipped + was[o..]
  }

  /** Between calls the vector is the original one up to the order of what was read:
      options so far and skipped non-options form at most three blocks, of which the
      middle one, `[start..end]`, holds the non-options.  -1 stands for "not set". */
  ghost predicate Tracks(now: seq<string>, was: seq<string>, base: nat, opts: seq<string>, skipped: seq<string>,
                         o: int, start: int, end: int)
  {
    && base <= o <= |was| == |now|
    && now[..base] == was[..base] && now[o..] == was[o..]
    && |opts| + |skipped| == o - base
    && if start == -1 then
         end == -1 && skipped == [] && now[base..o] == opts
       else if end == -1 then
         skipped != [] && start == base + |opts| && now[base..o] == opts + skipped
       else
         && skipped != [] && base <= start <= base + |opts| && end == start + |skipped|
         && now[base..o] == opts[..start - base] + skipped + opts[start - base..]
  }

  lemma TracksFresh(was: seq<string>, base: nat)
    requires base <= |was|
    ensures Tracks(was, was, base, [], [], base, -1, -1)
  {
  }

  lemma TracksSkip(now: seq<string>, was: seq<string>, base: nat, opts: seq<string>, skipped: seq<string>,
                   o: int, start: int)
    requires Tracks(now, was, base, opts, skipped, o, start, -1) && o < |was|
    ensures Tracks(now, was, base, opts, skipped + [was[o]], o + 1, if start == -1 then o else start, -1)
  {
    assert now[base..o + 1] == now[base..o] + [now[o]];
    assert was[o..][0] == now[o..][0];
    assert now[o + 1..] == now[o..][1..] && was[o + 1..] == was[o..][1..];
  }

  lemma TracksBlocks(now: seq<string>, was: seq<string>, base: nat, opts: seq<string>, skipped: seq<string>,
                     o: int, start: int, end: int)
    requires Tracks(now, was, base, opts, skipped, o, start, end)
    ensures end <= o
  {
  }

  /** Exchanging the skipped block with the options behind it. */
  lemma TracksExchange(now: seq<string>, next: seq<string>, was: seq<string>, base: nat, opts: seq<string>,
                       skipped: seq<string>, o: int, start: int, end: int)
    requires Tracks(now, was, base, opts, skipped, o, start, end) && end != -1 && start != -1 && start >= 0
    requires end < o && next == Exchanged(now, start, end, o)
    ensures Tracks(next, was, base, opts, skipped, o, o - (end - start), -1)
  {
    var k := start - base;
    Cut3(now[base..o], opts[..k], skipped, opts[k..]);
    ExchangedWindow(now, base, start, end, o);
    assert opts == opts[..k] + opts[k..];
  }

  lemma Cut3(s: seq<string>, a: seq<string>, b: seq<string>, c: seq<string>)
    requires s == a + b + c
    ensures s[..|a|] == a && s[|a|..|a| + |b|] == b && s[|a| + |b|..] == c
  {
  }

  /** What the exchange does to the part from `base` to `o`. */
  lemma ExchangedWindow(now: seq<string>, base: nat, start: nat, end: nat, o: nat)
    requires base <= start <= end <= o <= |now|
    ensures var next, w := Exchanged(now, start, end, o), now[base..o];
      && |next| == |now| && next[..base] == now[..base] && next[o..] == now[o..]
      && next[base..o] == w[..start - base] + w[end - base..] + w[start - base..end - base]
  {
    var w := now[base..o];
    Window(now, base, o, base, start);
    Window(now, base, o, start, end);
    Window(now, base, o, end, o);
    assert now[..start] == now[..base] + now[base..start];
  }

  lemma Window(s: seq<string>, base: nat, o: nat, i: nat, j: nat)
    requires base <= i <= j <= o <= |s|
    ensures s[base..o][i - base..j - base] == s[i..j]
  {
    var w := s[base..o];
    forall k | 0 <= k < j - i ensures w[i - base..j - base][k] == s[i..j][k] {
      assert w[i - base + k] == s[base + (i - base + k)];
    }
  }

  lemma ExtendWindow(now: seq<string>, was: seq<string>, base: nat, o: nat, o': nat)
    requires base <= o <= o' <= |was| == |now| && now[o..] == was[o..]
    ensures now[base..o'] == now[base..o] + was[o..o'] && now[o'..] == was[o'..]
  {
    assert now[o..o'] == now[o..][..o' - o] && was[o..o'] == was[o..][..o' - o];
    assert now[o'..] == now[o..][o' - o..] && was[o'..] == was[o..][o' - o..];
  }

  lemma SplitExtended(opts: seq<string>, ext: seq<string>, skipped: seq<string>, k: nat)
    requires k <= |opts|
    ensures opts[..k] + skipped + opts[k..] + ext == (opts + ext)[..k] + skipped + (opts + ext)[k..]
  {
    assert (opts + ext)[..k] == opts[..k] && (opts + ext)[k..] == opts[k..] + ext;
  }

  lemma TracksOption(now: seq<string>, was: seq<string>, base: nat, opts: seq<string>, skipped: seq<string>,
                     o: int, start: int, end: int, o': int)
    requires Tracks(now, was, base, opts, skipped, o, start, end) && o <= o' <= |was|
    requires start != -1 ==> end != -1
    ensures Tracks(now, was, base, opts + was[o..o'], skipped, o', start, end)
    ensures o' == o + 1 ==> was[o..o'] == [was[o]]
  {
    ExtendWindow(now, was, base, o, o');
    if start != -1 {
      SplitExtended(opts, was[o..o'], skipped, start - base);
    }
  }

  /** The first option behind skipped non-options closes their block. */
  lemma TracksClose(now: seq<string>, was: seq<string>, base: nat, opts: seq<string>, skipped: seq<string>,
                    o: int, start: int)
    requires Tracks(now, was, base, opts, skipped, o, start, -1) && start != -1
    ensures Tracks(now, was, base, opts, skipped, o, start, o)
  {
    assert opts[..start - base] == opts && opts[start - base..] == [];
  }

  /** Once no option stands behind the non-options, the run's order is reached. */
  lemma TracksDone(now: seq<string>, was: seq<string>, base: nat, opts: seq<string>, skipped: seq<string>,
                   o: int, start: int)
    requires Tracks(now, was, base, opts, skipped, o, start, -1)
    ensures now == Arranged(was, base, opts, skipped, o)
    ensures base + |opts| == if start == -1 then o else start
  {
    assert now == now[..base] + now[base..o] + now[o..];
  }

  ghost predicate SameFrom(a: seq<string>, b: seq<string>, o: nat) {
    |a| == |b| && forall i :: o <= i < |a| ==> a[i] == b[i]
  }

  lemma LongOutcomeLocal(cfg: Config, a: seq<string>, b: seq<string>, o: nat, text: string, shortToo: bool)
    requires SameFrom(a, b, o) && cfg.longs.Some?
    ensures LongOutcome(cfg, a, o, text, shortToo) == LongOutcome(cfg, b, o, text, shortToo)
  {
    hide Lookup, Until, Beyond;
  }

  lemma ShortStepLocal(cfg: Config, a: seq<string>, b: seq<string>, o: nat, place: string)
    requires SameFrom(a, b, o) && place != ""
    ensures ShortStep(cfg, a, o, place) == ShortStep(cfg, b, o, place)
  {
    hide LongOutcome, Config.After, Config.BadArg;
    if cfg.longs.Some? {
      LongOutcomeLocal(cfg, a, b, o, place[1..], false);
      if o + 1 < |a| {
        LongOutcomeLocal(cfg, a, b, o + 1, a[o + 1], false);
      }
    }
  }

  /** Reading an option looks at nothing to its left. */
  lemma OptionStepLocal(cfg: Config, a: seq<string>, b: seq<string>, o: nat, place: string)
    requires SameFrom(a, b, o) && place != ""
    ensures OptionStep(cfg, a, o, place) == OptionStep(cfg, b, o, place)
  {
    hide LongOutcome, ShortStep;
    ShortStepLocal(cfg, a, b, o, place);
    if cfg.longs.Some? {
      LongOutcomeLocal(cfg, a, b, o, place[1..], false);
      var shortToo := place[0] != '-' && place[0] != ':' && place[0] in cfg.options;
      LongOutcomeLocal(cfg, a, b, o, place, shortToo);
    }
  }

  lemma TracksTail(now: seq<string>, was: seq<string>, base: nat, opts: seq<string>, skipped: seq<string>,
                   o: int, start: int, end: int)
    requires Tracks(now, was, base, opts, skipped, o, start, end)
    ensures base <= o <= |now| == |was| && SameFrom(now, was, o) && (start == -1 ==> end == -1)
  {
    assert forall i :: o <= i < |now| ==> now[i] == now[o..][i - o] && was[i] == was[o..][i - o];
  }

  /** What the scan finds at one argument. */
  datatype Found = EndOfCall | NonOption | AnOption

  /** The globals of the source. */
  class Parser {
    var optind: nat
    var optopt: int
    var optreset: bool
    var optarg: Option<string>
    var place: string
    var nonoptStart: int
    var nonoptEnd: int
    // the caller's `*idx` and flag cells
    var longIndex: int
    var cells: map<nat, int>

    constructor ()
      ensures optind == 1 && !optreset && place == "" && nonoptStart == nonoptEnd == -1
    {
      optind, optopt, optreset, optarg, place := 1, BADCH, false, None, "";
      nonoptStart, nonoptEnd, longIndex, cells := -1, -1, 0, map[];
    }

    /** The call returned `ret` and left the globals as `out` says. */
    twostate predicate Reports(out: Outcome, ret: int)
      reads this
    {
      && ret == out.ret && optind == out.optind && optarg == out.optarg
      && optopt == out.optopt.GetOr(old(optopt))
      && longIndex == (if out.index.None? then old(longIndex) else out.index.value)
      && cells == (if out.store.None? then old(cells) else old(cells)[out.store.value.0 := out.store.value.1])
    }

    /** `parse_long_options` on the text at `place`. */
    method ParseLongOptions(argv: array<string>, cfg: Config, shortToo: bool) returns (ret: int)
      requires cfg.longs.Some? && optarg == None
      modifies this`optind, this`optarg, this`optopt, this`longIndex, this`cells
      ensures Reports(LongOutcome(cfg, argv[..], old(optind), place, shortToo), ret)
    {
      hide Lookup, IndexOf, Until, Beyond, LongFound;
      var table := cfg.longs.value;
      var hasEqual := Beyond(place, '=');
      optind := optind + 1;
      var m := MatchLong(table, Until(place, '='), shortToo, cfg.longOnly);
      match m {
        case Ambiguous =>
          optopt := 0;
          return BADCH;
        case NoMatch =>
          if shortToo {
            optind := optind - 1;
            return -1;
          }
          optopt := 0;
          return BADCH;
        case Found(i) =>
          ret := TakeLong(argv, cfg, i, hasEqual);
      }
    }

    /** The long option that was found, with its argument if it has one. */
    method TakeLong(argv: array<string>, cfg: Config, i: nat, hasEqual: Option<string>) returns (ret: int)
      requires cfg.longs.Some? && i < |cfg.longs.value| && optarg == None && optind > 0
      modifies this`optind, this`optarg, this`optopt, this`longIndex, this`cells
      ensures Reports(LongFound(cfg, argv[..], old(optind) - 1, i, hasEqual), ret)
    {
      var l := cfg.longs.value[i];
      if l.hasArg.NoArgument? && hasEqual.Some? {
        optopt := if l.flag.None? then l.val else 0;
        return BADCH;
      }
      if l.hasArg.RequiredArgument? || l.hasArg.OptionalArgument? {
        if hasEqual.Some? {
          optarg := hasEqual;
        } else if l.hasArg.RequiredArgument? {
          // the source reads the NULL behind the last argument here
          optarg := if optind < argv.Length then Some(argv[optind]) else None;
          optind := optind + 1;
        }
      }
      if l.hasArg.RequiredArgument? && optarg.None? {
        optopt := if l.flag.None? then l.val else 0;
        optind := optind - 1;
        return cfg.BadArg();
      }
      longIndex := i;
      if l.flag.Some? {
        cells := cells[l.flag.value := l.val];
        return 0;
      }
      return l.val;
    }

    /** The short option `c`, already consumed from `place`, with its argument if it has one. */
    method TakeArgument(argv: array<string>, cfg: Config, c: char) returns (ret: int)
      requires optind < argv.Length && c in cfg.options && optarg == None
      requires c != ':' && (c == '-' ==> place == "") && !(cfg.longs.Some? && c == 'W' && cfg.After(c, 1) == ';')
      modifies this`optind, this`optarg, this`optopt, this`place
      ensures var r := ShortStep(cfg, argv[..], old(optind), [c] + old(place));
        r.Step? && Reports(r.out, ret) && place == r.place
    {
      hide LongOutcome, IndexOf, Lookup, Config.After, Config.BadArg, Config.Valid, Arg;
      assert ([c] + place)[1..] == place;
      if cfg.After(c, 1) != ':' {
        if place == "" {
          optind := optind + 1;
        }
      } else {
        if place != "" {
          optarg := Some(place);
        } else if cfg.After(c, 2) != ':' {
          optind := optind + 1;
          if optind >= argv.Length {
            place := "";
            optopt := c as int;
            return cfg.BadArg();
          }
          optarg := Some(argv[optind]);
        } else if !cfg.permute {
          if optind + 1 < argv.Length && (argv[optind + 1] == "" || argv[optind + 1][0] != '-') {
            optind := optind + 1;
            optarg := Some(argv[optind]);
          }
        }
        place := "";
        optind := optind + 1;
      }
      return c as int;
    }

    /** The short option at `place`. */
    method ParseShort(argv: array<string>, cfg: Config) returns (ret: int)
      requires cfg.Valid() && optind < argv.Length && place != ""
      requires optarg == None
      modifies this`optind, this`optarg, this`optopt, this`longIndex, this`cells, this`place
      ensures match ShortStep(cfg, argv[..], old(optind), old(place))
        case DashStop => ret == -1 && optind == old(optind) && place == ""
        case Step(out, place') => Reports(out, ret) && place == place'
    {
      hide LongOutcome, IndexOf, Lookup, Config.After, Config.BadArg, Config.Valid, Arg;
      var c := place[0];
      place := place[1..];
      assert [c] + place == old(place);
      if c == ':' || (c == '-' && place != "") || c !in cfg.options {
        if c == '-' && place == "" {
          return -1;
        }
        if place == "" {
          optind := optind + 1;
        }
        optopt := c as int;
        return BADCH;
      }
      if cfg.longs.Some? && c == 'W' && cfg.After(c, 1) == ';' {
        if place != "" {
        } else {
          optind := optind + 1;
          if optind >= argv.Length {
            place := "";
            optopt := c as int;
            return cfg.BadArg();
          }
          place := argv[optind];
        }
        ret := ParseLongOptions(argv, cfg, false);
        place := "";
        return;
      }
      ret := TakeArgument(argv, cfg, c);
    }

    /** The option at `place`: the second half of `getopt_internal`. */
    method ParseOption(argv: array<string>, cfg: Config) returns (ret: int)
      requires cfg.Valid() && optind < argv.Length && place != "" && InCluster(argv[..], optind, place)
      requires optarg == None
      modifies this`optind, this`optarg, this`optopt, this`longIndex, this`cells, this`place
      ensures match OptionStep(cfg, argv[..], old(optind), old(place))
        case DashStop => ret == -1 && optind == old(optind) && place == ""
        case Step(out, place') => Reports(out, ret) && place == place'
    {
      // a proper suffix of an argument is never the argument itself
      if cfg.longs.Some? && place != argv[optind] && (place[0] == '-' || cfg.longOnly) {
        var shortToo := false;
        ghost var whole := place;
        if place[0] == '-' {
          place := place[1..];
        } else if place[0] != ':' && place[0] in cfg.options {
          shortToo := true;
        }
        hide LongOutcome, ShortStep;
        ret := ParseLongOptions(argv, cfg, shortToo);
        if ret != -1 {
          place := "";
          return;
        }
        assert place == whole;
      }
      ret := ParseShort(argv, cfg);
    }

    /** Where the next call starts scanning. */
    function StartIndex(): nat reads this { if optind == 0 then 1 else optind }

    function StartPlace(): string reads this { if optind == 0 || optreset then "" else place }

    /** Ready for a call: reset, or in the middle of a run over `was`. */
    ghost predicate Ready(now: seq<string>, was: seq<string>, base: nat, opts: seq<string>, skipped: seq<string>)
      reads this
    {
      if optind == 0 || optreset then
        base == StartIndex() <= |was| && now == was && opts == [] && skipped == []
      else
        && InCluster(was, optind, place) && base <= |was|
        && (place == "" && nonoptStart != -1 ==> nonoptEnd < optind)
        && (place != "" && nonoptStart != -1 ==> nonoptEnd != -1)
        && Tracks(now, was, base, opts, skipped, optind, nonoptStart, nonoptEnd)
    }

    /** Moves skipped non-options behind the options read since, if there are any. */
    method Permute(argv: array<string>, ghost was: seq<string>, ghost base: nat,
                   ghost opts: seq<string>, ghost skipped: seq<string>)
      requires nonoptEnd != -1 && nonoptEnd < optind
      requires Tracks(argv[..], was, base, opts, skipped, optind, nonoptStart, nonoptEnd)
      modifies argv
      ensures Tracks(argv[..], was, base, opts, skipped, optind, optind - (nonoptEnd - nonoptStart), -1)
    {
      ghost var now := argv[..];
      PermuteArgs(nonoptStart, nonoptEnd, optind, argv);
      TracksExchange(now, argv[..], was, base, opts, skipped, optind, nonoptStart, nonoptEnd);
    }

    /** The end of the options: non-options still in front move behind them. */
    method Finish(argv: array<string>, ghost was: seq<string>, ghost base: nat,
                  ghost opts: seq<string>, ghost skipped: seq<string>)
      requires Tracks(argv[..], was, base, opts, skipped, optind, nonoptStart, nonoptEnd)
      requires nonoptStart != -1 ==> nonoptEnd < optind
      modifies argv, this`optind, this`nonoptStart, this`nonoptEnd
      ensures nonoptStart == nonoptEnd == -1 && optind == base + |opts|
      ensures argv[..] == Arranged(was, base, opts, skipped, old(optind))
    {
      if nonoptEnd != -1 {
        Permute(argv, was, base, opts, skipped);
        TracksDone(argv[..], was, base, opts, skipped, optind, optind - (nonoptEnd - nonoptStart));
        optind := optind - (nonoptEnd - nonoptStart);
      } else {
        TracksDone(argv[..], was, base, opts, skipped, optind, nonoptStart);
        if nonoptStart != -1 {
          optind := nonoptStart;
        }
      }
      nonoptStart, nonoptEnd := -1, -1;
    }

    /** The argument at `optind` is a non-option to be skipped. */
    method Skip(argv: array<string>, ghost was: seq<string>, ghost base: nat,
                ghost opts: seq<string>, ghost skipped: seq<string>)
      requires Tracks(argv[..], was, base, opts, skipped, optind, nonoptStart, nonoptEnd) && optind < |was|
      requires nonoptStart != -1 ==> nonoptEnd < optind
      modifies argv, this`optind, this`nonoptStart, this`nonoptEnd
      ensures optind == old(optind) + 1 && nonoptStart != -1 == nonoptEnd
      ensures Tracks(argv[..], was, base, opts, skipped + [was[old(optind)]], optind, nonoptStart, nonoptEnd)
    {
      ghost var start := nonoptStart;
      if nonoptStart == -1 {
        nonoptStart := optind;
      } else if nonoptEnd != -1 {
        Permute(argv, was, base, opts, skipped);
        nonoptStart := optind - (nonoptEnd - nonoptStart);
        nonoptEnd := -1;
        start := nonoptStart;
      }
      TracksSkip(argv[..], was, base, opts, skipped, optind, start);
      optind := optind + 1;
    }

    /** The call is over, with `ret`, in the way that `t` says. */
    ghost predicate Finished(now: seq<string>, was: seq<string>, base: nat, t: Turn, ret: int)
      reads this
    {
      && place == "" && base <= |was|
      && match t
         case Turn(out, opts, skipped, place') =>
           && place' == "" && out == Outcome(ret, optarg, optind, None, None, None)
           && ret != -1 && (nonoptStart != -1 ==> nonoptEnd < optind)
           && Tracks(now, was, base, opts, skipped, optind, nonoptStart, nonoptEnd)
         case End(opts, skipped, i) =>
           && ret == -1 && nonoptStart == nonoptEnd == -1 && optind == base + |opts|
           && i <= |was| && now == Arranged(was, base, opts, skipped, i)
         case Stuck(_, _, _) => false
    }

    /** The argument at `optind` is a non-option: report it, stop at it, or skip it. */
    method PassNonOption(argv: array<string>, cfg: Config, ghost was: seq<string>, ghost base: nat,
                         ghost opts: seq<string>, ghost skipped: seq<string>, ghost t: Turn)
      returns (found: Found, ret: int)
      requires cfg.Valid() && optarg == None && optind < argv.Length
      requires nonoptStart != -1 ==> nonoptEnd < optind
      requires cfg.Permutes() || nonoptStart == -1
      requires Tracks(argv[..], was, base, opts, skipped, optind, nonoptStart, nonoptEnd)
      requires optind < |was| && argv[optind] == was[optind]
      requires t == if cfg.allArgs then
                      Turn(Outcome(INORDER, Some(was[optind]), optind + 1, None, None, None), opts + [was[optind]], skipped, "")
                    else if !cfg.permute then End(opts, skipped, optind)
                    else Next(cfg, was, optind + 1, "", opts, skipped + [was[optind]])
      modifies argv, this`optind, this`optarg, this`place, this`nonoptStart, this`nonoptEnd
      ensures cfg.Permutes() || nonoptStart == -1
      ensures !found.AnOption?
      ensures found.EndOfCall? ==> Finished(argv[..], was, base, t, ret)
      ensures found.NonOption? ==>
        && place == "" && optind == old(optind) + 1
        && optarg == None && (nonoptStart != -1 ==> nonoptEnd < optind)
        && t == Next(cfg, was, optind, "", opts, skipped + [was[old(optind)]])
        && Tracks(argv[..], was, base, opts, skipped + [was[old(optind)]], optind, nonoptStart, nonoptEnd)
    {
      hide OptionTurn, Exchanged, Tracks, Arranged, Next, Config.Valid;
      TracksTail(argv[..], was, base, opts, skipped, optind, nonoptStart, nonoptEnd);
      place := "";
      if cfg.allArgs {
        optarg := Some(argv[optind]);
        TracksOption(argv[..], was, base, opts, skipped, optind, nonoptStart, nonoptEnd, optind + 1);
        optind := optind + 1;
        return EndOfCall, INORDER;
      }
      if !cfg.permute {
        TracksDone(argv[..], was, base, opts, skipped, optind, nonoptStart);
        return EndOfCall, -1;
      }
      Skip(argv, was, base, opts, skipped);
      return NonOption, 0;
    }

    /** One round of the `start:` loop: the argument at `optind` ends the call, is skipped,
        or is an option. */
    method Examine(argv: array<string>, cfg: Config,
                   ghost was: seq<string>, ghost base: nat, ghost opts: seq<string>, ghost skipped: seq<string>)
      returns (found: Found, ret: int, ghost t: Turn)
      requires cfg.Valid() && place == "" && optarg == None && optind < argv.Length
      requires nonoptStart != -1 ==> nonoptEnd < optind
      requires cfg.Permutes() || nonoptStart == -1
      requires Tracks(argv[..], was, base, opts, skipped, optind, nonoptStart, nonoptEnd)
      modifies argv, this`optind, this`optarg, this`place, this`nonoptStart, this`nonoptEnd
      ensures cfg.Permutes() || nonoptStart == -1
      ensures old(optind) < |was| && t == Next(cfg, was, old(optind), "", opts, skipped)
      ensures found.EndOfCall? ==> Finished(argv[..], was, base, t, ret)
      ensures found.NonOption? ==>
        && place == "" && optind == old(optind) + 1
        && optarg == None && (nonoptStart != -1 ==> nonoptEnd < optind)
        && t == Next(cfg, was, optind, "", opts, skipped + [was[old(optind)]])
        && Tracks(argv[..], was, base, opts, skipped + [was[old(optind)]], optind, nonoptStart, nonoptEnd)
      ensures found.AnOption? ==>
        && optind == old(optind) && InCluster(was, optind, place) && place != "" && optarg == None
        && t == OptionTurn(cfg, was, optind, place, opts, skipped)
        && (nonoptStart != -1 ==> nonoptEnd != -1)
        && Tracks(argv[..], was, base, opts, skipped, optind, nonoptStart, nonoptEnd)
    {
      hide OptionTurn, Exchanged, Tracks, Arranged, Next, Config.Valid;
      TracksTail(argv[..], was, base, opts, skipped, optind, nonoptStart, nonoptEnd);
      assert argv[optind] == was[optind];
      t := Next(cfg, was, optind, "", opts, skipped);
      NextAt(cfg, was, optind, opts, skipped);
      place := argv[optind];
      if IsNonOption(place) {
        found, ret := PassNonOption(argv, cfg, was, base, opts, skipped, t);
        return;
      }
      found, ret := EnterOption(argv, cfg, was, base, opts, skipped, t);
    }

    /** The argument at `optind` is an option, or "--". */
    method EnterOption(argv: array<string>, cfg: Config, ghost was: seq<string>, ghost base: nat,
                       ghost opts: seq<string>, ghost skipped: seq<string>, ghost t: Turn)
      returns (found: Found, ret: int)
      requires cfg.Valid() && optarg == None && optind < |was| == argv.Length
      requires place == was[optind] && !IsNonOption(place)
      requires nonoptStart != -1 ==> nonoptEnd < optind
      requires cfg.Permutes() || nonoptStart == -1
      requires Tracks(argv[..], was, base, opts, skipped, optind, nonoptStart, nonoptEnd)
      requires t == if was[optind] == "--" then End(opts + ["--"], skipped, optind + 1)
                    else OptionTurn(cfg, was, optind, was[optind][1..], opts, skipped)
      modifies argv, this`optind, this`place, this`nonoptStart, this`nonoptEnd
      ensures cfg.Permutes() || nonoptStart == -1
      ensures !found.NonOption?
      ensures found.EndOfCall? ==> Finished(argv[..], was, base, t, ret)
      ensures found.AnOption? ==>
        && optind == old(optind) && InCluster(was, optind, place) && place != ""
        && t == OptionTurn(cfg, was, optind, place, opts, skipped)
        && (nonoptStart != -1 ==> nonoptEnd != -1)
        && Tracks(argv[..], was, base, opts, skipped, optind, nonoptStart, nonoptEnd)
    {
      hide OptionTurn, Exchanged, Tracks, Arranged, Config.Valid;
      if nonoptStart != -1 && nonoptEnd == -1 {
        TracksClose(argv[..], was, base, opts, skipped, optind, nonoptStart);
        nonoptEnd := optind;
      }
      place := place[1..];
      if place == "-" {
        TracksOption(argv[..], was, base, opts, skipped, optind, nonoptStart, nonoptEnd, optind + 1);
        optind := optind + 1;
        place := "";
        Finish(argv, was, base, opts + ["--"], skipped);
        return EndOfCall, -1;
      }
      return AnOption, 0;
    }

    /** The `start:` loop of `getopt_internal`: skips non-options until an option is at
        `place`, or ends the call. */
    method Scan(argv: array<string>, cfg: Config,
                ghost was: seq<string>, ghost base: nat, ghost opts: seq<string>, ghost skipped: seq<string>)
      returns (done: bool, ret: int, ghost all: seq<string>, ghost t: Turn)
      requires cfg.Valid() && place == "" && optarg == None
      requires nonoptStart != -1 ==> nonoptEnd < optind
      requires cfg.Permutes() || nonoptStart == -1
      requires Tracks(argv[..], was, base, opts, skipped, optind, nonoptStart, nonoptEnd)
      modifies argv, this`optind, this`optarg, this`place, this`nonoptStart, this`nonoptEnd
      ensures cfg.Permutes() || nonoptStart == -1
      ensures old(optind) <= |was| && t == Next(cfg, was, old(optind), "", opts, skipped)
      ensures done ==> Finished(argv[..], was, base, t, ret)
      ensures !done ==>
        && optind < |was| && InCluster(was, optind, place) && place != "" && optarg == None
        && t == OptionTurn(cfg, was, optind, place, opts, all)
        && (nonoptStart != -1 ==> nonoptEnd != -1)
        && Tracks(argv[..], was, base, opts, all, optind, nonoptStart, nonoptEnd)
    {
      hide OptionTurn, Tracks, Arranged;
      all := skipped;
      TracksTail(argv[..], was, base, opts, skipped, optind, nonoptStart, nonoptEnd);
      t := Next(cfg, was, optind, "", opts, skipped);
      while optind < argv.Length
        invariant place == "" && optarg == None
        invariant old(optind) <= optind <= |was| == argv.Length && base <= |was|
        invariant t == Next(cfg, was, optind, "", opts, all)
        invariant nonoptStart != -1 ==> nonoptEnd < optind
        invariant cfg.Permutes() || nonoptStart == -1
        invariant Tracks(argv[..], was, base, opts, all, optind, nonoptStart, nonoptEnd)
        decreases argv.Length - optind
      {
        ghost var o := optind;
        var found;
        ghost var t';
        found, ret, t' := Examine(argv, cfg, was, base, opts, all);
        if found.EndOfCall? {
          return true, ret, all, t;
        }
        if found.AnOption? {
          return false, ret, all, t;
        }
        all := all + [was[o]];
      }
      Finish(argv, was, base, opts, all);
      return true, -1, all, t;
    }

    /** The call reports the option at `place`, in the way that `t` says. */
    method ReportOption(argv: array<string>, cfg: Config, ghost was: seq<string>, ghost base: nat,
                        ghost opts: seq<string>, ghost skipped: seq<string>, ghost t: Turn)
      returns (ret: int)
      requires cfg.Valid() && optind < |was| && InCluster(was, optind, place) && place != "" && optarg == None
      requires t == OptionTurn(cfg, was, optind, place, opts, skipped)
      requires nonoptStart != -1 ==> nonoptEnd != -1
      requires Tracks(argv[..], was, base, opts, skipped, optind, nonoptStart, nonoptEnd)
      modifies this`optind, this`optarg, this`optopt, this`longIndex, this`cells, this`place
      ensures match t
        case Turn(out, opts', skipped', place') =>
          && Reports(out, ret) && ret != -1 && place == place' && InCluster(was, optind, place)
          && (place == "" && nonoptStart != -1 ==> nonoptEnd < optind)
          && Tracks(argv[..], was, base, opts', skipped', optind, nonoptStart, nonoptEnd)
        case End(_, _, _) => false
        case Stuck(opts', skipped', i) =>
          && ret == -1 && place == "" && optind == i
          && Tracks(argv[..], was, base, opts', skipped', i, nonoptStart, nonoptEnd)
    {
      hide Tracks, OptionStep, Config.Valid;
      ghost var o, p := optind, place;
      TracksTail(argv[..], was, base, opts, skipped, o, nonoptStart, nonoptEnd);
      TracksBlocks(argv[..], was, base, opts, skipped, o, nonoptStart, nonoptEnd);
      OptionStepLocal(cfg, argv[..], was, o, p);
      ret := ParseOption(argv, cfg);
      if t.Turn? {
        TracksOption(argv[..], was, base, opts, skipped, o, nonoptStart, nonoptEnd, optind);
      }
    }

    /** The start of a call: a pending reset forgets the blocks of an earlier run. */
    method Begin(ghost now: seq<string>, ghost was: seq<string>, ghost base: nat,
                 ghost opts: seq<string>, ghost skipped: seq<string>)
      requires Ready(now, was, base, opts, skipped)
      modifies this`optind, this`optreset, this`optarg, this`nonoptStart, this`nonoptEnd
      ensures optarg == None && optind == old(StartIndex())
      ensures optreset == old(optreset || optind == 0)
      ensures if optreset then nonoptStart == nonoptEnd == -1 else
        nonoptStart == old(nonoptStart) && nonoptEnd == old(nonoptEnd)
      ensures base <= |was| && InCluster(was, optind, old(StartPlace()))
      ensures Tracks(now, was, base, opts, skipped, optind, nonoptStart, nonoptEnd)
      ensures old(StartPlace()) == "" && nonoptStart != -1 ==> nonoptEnd < optind
      ensures old(StartPlace()) != "" && nonoptStart != -1 ==> nonoptEnd != -1
    {
      hide Tracks;
      if optind == 0 {
        optind, optreset := 1, true;
      }
      optarg := None;
      if optreset {
        nonoptStart, nonoptEnd := -1, -1;
        TracksFresh(now, base);
      }
    }

    /** `getopt_internal`, once its flags are computed (see `MakeConfig`).  `was` is the
        vector as it was when the run began; `opts` and `skipped` are what the run has read
        of it so far. */
    method GetoptInternal(argv: array<string>, cfg: Config,
                          ghost was: seq<string>, ghost base: nat, ghost opts: seq<string>, ghost skipped: seq<string>)
      returns (ret: int, ghost t: Turn)
      requires cfg.Valid() && Ready(argv[..], was, base, opts, skipped)
      requires cfg.Permutes() || nonoptStart == -1 || optind == 0 || optreset
      modifies this, argv
      ensures InCluster(was, old(StartIndex()), old(StartPlace())) && base <= |was|
      ensures cfg.Permutes() || nonoptStart == -1
      ensures t == Next(cfg, was, old(StartIndex()), old(StartPlace()), opts, skipped)
      ensures !optreset && (place != "" ==> t.Turn?)
      ensures match t
        case Turn(out, opts', skipped', place') =>
          Reports(out, ret) && ret != -1 && place == place' && Ready(argv[..], was, base, opts', skipped')
        case End(opts', skipped', i) =>
          && ret == -1 && nonoptStart == nonoptEnd == -1 && optind == base + |opts'|
          && argv[..] == Arranged(was, base, opts', skipped', i)
        case Stuck(opts', skipped', i) =>
          && ret == -1 && optind == i
          && Tracks(argv[..], was, base, opts', skipped', i, nonoptStart, nonoptEnd)
    {
      hide OptionTurn, Arranged, Tracks, Config.Valid, Next;
      Begin(argv[..], was, base, opts, skipped);
      ghost var all := skipped;
      if optreset || place == "" {
        optreset, place := false, "";
        var done;
        done, ret, all, t := Scan(argv, cfg, was, base, opts, skipped);
        if done {
          return;
        }
      } else {
        t := Next(cfg, was, optind, place, opts, skipped);
        NextInCluster(cfg, was, optind, place, opts, skipped);
      }
      ret := ReportOption(argv, cfg, was, base, opts, all, t);
    }

    /** A fresh start, or a reset one. */
    predicate Fresh()
      reads this
    {
      optind == 0 || optreset || (place == "" && nonoptStart == -1 && nonoptEnd == -1)
    }

    /** The caller's loop: calls `getopt_long` until it returns -1.  The vector, not the
        outcome, says whether the run gets to its end. */
    method ParseAll(argv: array<string>, options: string, longs: Option<seq<LongOption>>, longOnly: bool,
                    permute: bool, posixlyCorrect: bool)
      returns (seen: seq<(int, Option<string>)>)
      requires MakeConfig(options, longs, longOnly, permute, posixlyCorrect).Valid()
      requires Fresh() && StartIndex() <= argv.Length
      modifies this, argv
      ensures var cfg := MakeConfig(options, longs, longOnly, permute, posixlyCorrect);
        var was, base := old(argv[..]), old(StartIndex());
        var w := Walk(cfg, was, base, "");
        && seen == Observed(w.events)
        && match StopFrom(cfg, was, base, "")
           case None => argv[..] == Arranged(was, base, w.opts, w.nonopts, w.optind) && optind == base + |w.opts|
           case Some(i) =>
             optind == i == w.optind && Tracks(argv[..], was, base, w.opts, w.nonopts, i, nonoptStart, nonoptEnd)
    {
      hide Next, Tracks, Arranged, Config.Valid, OptionTurn, Walk, Observed, StopFrom, MakeConfig;
      var cfg := MakeConfig(options, longs, longOnly, permute, posixlyCorrect);
      ghost var was, base := argv[..], StartIndex();
      ghost var opts: seq<string>, skipped: seq<string> := [], [];
      ghost var w := Walk(cfg, was, base, "");
      StopsShort(cfg, was, base, "", [], []);
      TracksFresh(was, base);
      seen := [];
      while true
        invariant Ready(argv[..], was, base, opts, skipped) && argv.Length == |was|
        invariant cfg.Permutes() || nonoptStart == -1 || optind == 0 || optreset
        invariant InCluster(was, StartIndex(), StartPlace())
        invariant var rest := Walk(cfg, was, StartIndex(), StartPlace(), opts, skipped);
          && w == rest.(events := w.events)
          && Observed(w.events) == seen + Observed(rest.events)
        decreases |was| - StartIndex(),
                  if StartPlace() == "" && StartIndex() < |was| then |was[StartIndex()]| else |StartPlace()|
      {
        ghost var o, p := StartIndex(), StartPlace();
        ghost var rest := Walk(cfg, was, o, p, opts, skipped);
        WalkStep(cfg, was, o, p, opts, skipped);
        var c;
        ghost var t;
        c, t := GetoptInternal(argv, cfg, was, base, opts, skipped);
        if c == -1 {
          break;
        }
        assert t.Turn?;
        seen := seen + [(c, optarg)];
        opts, skipped := t.opts, t.skipped;
      }
    }
  }
}
