/** What the left-to-right reading of an argument vector guarantees. */
module GetoptProperties {
  import opened Util
  import opened LongOptions
  import opened Getopt

  /** `s` is `a` and `b` shuffled together, each keeping its order. */
  ghost predicate Interleaves(a: seq<string>, b: seq<string>, s: seq<string>)
    decreases |s|
  {
    if s == [] then a == [] && b == []
    else
      var last, init := s[|s| - 1], s[..|s| - 1];
      || (a != [] && a[|a| - 1] == last && Interleaves(a[..|a| - 1], b, init))
      || (b != [] && b[|b| - 1] == last && Interleaves(a, b[..|b| - 1], init))
  }

  lemma InterleaveLeft(a: seq<string>, b: seq<string>, s: seq<string>, x: string)
    requires Interleaves(a, b, s)
    ensures Interleaves(a + [x], b, s + [x])
  {
    assert (a + [x])[..|a|] == a && (s + [x])[..|s|] == s;
  }

  lemma InterleaveRight(a: seq<string>, b: seq<string>, s: seq<string>, x: string)
    requires Interleaves(a, b, s)
    ensures Interleaves(a, b + [x], s + [x])
  {
    assert (b + [x])[..|b|] == b && (s + [x])[..|s|] == s;
  }

  lemma {:induction false} InterleaveSlice(a: seq<string>, b: seq<string>, argv: seq<string>, base: nat, o: nat, o': nat)
    requires base <= o <= o' <= |argv| && Interleaves(a, b, argv[base..o])
    ensures Interleaves(a + argv[o..o'], b, argv[base..o'])
    decreases o' - o
  {
    if o == o' {
      assert a + argv[o..o'] == a;
    } else {
      InterleaveLeft(a, b, argv[base..o], argv[o]);
      assert argv[base..o] + [argv[o]] == argv[base..o + 1];
      InterleaveSlice(a + [argv[o]], b, argv, base, o + 1, o');
      assert a + [argv[o]] + argv[o + 1..o'] == a + argv[o..o'];
    }
  }

  lemma ReadOne(a: seq<string>, b: seq<string>, argv: seq<string>, base: nat, o: nat)
    requires base <= o < |argv| && Interleaves(a, b, argv[base..o])
    ensures Interleaves(a + [argv[o]], b, argv[base..o + 1])
    ensures Interleaves(a, b + [argv[o]], argv[base..o + 1])
    ensures AllNonOptions(b) && IsNonOption(argv[o]) ==> AllNonOptions(b + [argv[o]])
  {
    hide Interleaves;
    assert argv[base..o] + [argv[o]] == argv[base..o + 1];
    InterleaveLeft(a, b, argv[base..o], argv[o]);
    InterleaveRight(a, b, argv[base..o], argv[o]);
  }

  ghost predicate AllNonOptions(s: seq<string>) {
    forall i :: 0 <= i < |s| ==> IsNonOption(s[i])
  }

  lemma {:induction false} NextInterleaves(cfg: Config, argv: seq<string>, o: nat, place: string,
                                           opts: seq<string>, skipped: seq<string>, base: nat)
    requires cfg.Valid() && InCluster(argv, o, place) && base <= o
    requires Interleaves(opts, skipped, argv[base..o]) && AllNonOptions(skipped)
    ensures var t := Next(cfg, argv, o, place, opts, skipped);
      var o' := if t.Turn? then t.out.optind else t.optind;
      Interleaves(t.opts, t.skipped, argv[base..o']) && AllNonOptions(t.skipped)
    decreases |argv| - o
  {
    hide OptionStep, Next, Interleaves, OptionTurn, Config.Valid, AllNonOptions;
    if place != "" {
      NextInCluster(cfg, argv, o, place, opts, skipped);
      OptionInterleaves(cfg, argv, o, place, opts, skipped, base);
    } else if o == |argv| {
      NextAtEnd(cfg, argv, opts, skipped);
    } else {
      NextAt(cfg, argv, o, opts, skipped);
      ReadOne(opts, skipped, argv, base, o);
      if IsNonOption(argv[o]) {
        if cfg.Permutes() {
          NextInterleaves(cfg, argv, o + 1, "", opts, skipped + [argv[o]], base);
        }
      } else if argv[o] != "--" {
        OptionInterleaves(cfg, argv, o, argv[o][1..], opts, skipped, base);
      }
    }
  }

  lemma OptionInterleaves(cfg: Config, argv: seq<string>, o: nat, place: string,
                          opts: seq<string>, skipped: seq<string>, base: nat)
    requires cfg.Valid() && o < |argv| && place != "" && base <= o
    requires Interleaves(opts, skipped, argv[base..o])
    ensures var t := OptionTurn(cfg, argv, o, place, opts, skipped);
      && !t.End? && t.skipped == skipped
      && var o' := if t.Turn? then t.out.optind else t.optind;
         o <= o' <= |argv| && Interleaves(t.opts, t.skipped, argv[base..o'])
  {
    hide OptionStep, Interleaves, Config.Valid;
    var step := OptionStep(cfg, argv, o, place);
    if step.Step? {
      InterleaveSlice(opts, skipped, argv, base, o, step.out.optind);
    }
  }

  /** The reordering is a stable partition: what was read, up to `optind`, is exactly the
      options and the skipped non-options shuffled together, each in original order. */
  lemma {:induction false} StablePartition(cfg: Config, argv: seq<string>, o: nat, place: string,
                                           opts: seq<string>, skipped: seq<string>, base: nat)
    requires cfg.Valid() && InCluster(argv, o, place) && base <= o
    requires Interleaves(opts, skipped, argv[base..o]) && AllNonOptions(skipped)
    ensures var w := Walk(cfg, argv, o, place, opts, skipped);
      Interleaves(w.opts, w.nonopts, argv[base..w.optind]) && AllNonOptions(w.nonopts)
    decreases |argv| - o, if place == "" && o < |argv| then |argv[o]| else |place|
  {
    hide Next, Interleaves;
    NextInterleaves(cfg, argv, o, place, opts, skipped, base);
    var t := Next(cfg, argv, o, place, opts, skipped);
    if t.Turn? {
      StablePartition(cfg, argv, t.out.optind, t.place, t.opts, t.skipped, base);
    }
  }

  ghost predicate Ends(cfg: Config, argv: seq<string>, w: Run) {
    || w.optind == |argv|
    || (|w.opts| > 0 && w.opts[|w.opts| - 1] == "--" && 0 < w.optind <= |argv| && argv[w.optind - 1] == "--")
    || (!cfg.Permutes() && w.optind < |argv| && IsNonOption(argv[w.optind]))
  }

  lemma {:induction false} NextEnds(cfg: Config, argv: seq<string>, o: nat, place: string,
                                    opts: seq<string>, skipped: seq<string>)
    requires cfg.Valid() && InCluster(argv, o, place)
    ensures var t := Next(cfg, argv, o, place, opts, skipped);
      && (t.End? ==> Ends(cfg, argv, Run([], t.opts, t.skipped, t.optind, false)))
      && (!cfg.Permutes() ==> t.skipped == skipped)
    decreases |argv| - o
  {
    if place == "" && o < |argv| && IsNonOption(argv[o]) && cfg.Permutes() {
      NextEnds(cfg, argv, o + 1, "", opts, skipped + [argv[o]]);
    }
  }

  /** A run reads on to the end of the vector, to just behind a "--", or, when it may not
      permute, to the first non-option, which then nothing is skipped for.  It stops early
      exactly if it reaches an argument that ends in a '-' which its cluster does not take,
      without long options and with '-' no option. */
  lemma {:induction false} RunEnds(cfg: Config, argv: seq<string>, o: nat, place: string,
                                   opts: seq<string>, skipped: seq<string>)
    requires cfg.Valid() && InCluster(argv, o, place)
    ensures var w := Walk(cfg, argv, o, place, opts, skipped);
      && StopFrom(cfg, argv, o, place) == (if w.stuck then Some(w.optind) else None)
      && (StopFrom(cfg, argv, o, place) == None ==> Ends(cfg, argv, w))
      && (!cfg.Permutes() ==> w.nonopts == skipped)
    decreases |argv| - o, if place == "" && o < |argv| then |argv[o]| else |place|
  {
    hide Next, StopFrom;
    NextEnds(cfg, argv, o, place, opts, skipped);
    StopsShort(cfg, argv, o, place, opts, skipped);
    var t := Next(cfg, argv, o, place, opts, skipped);
    if t.Turn? {
      RunEnds(cfg, argv, t.out.optind, t.place, t.opts, t.skipped);
      NextStops(cfg, argv, o, place, opts, skipped);
    }
  }

  /** No run stops short on a vector without such an argument, and one that reaches such an
      argument does. */
  lemma StopsAtDashEnd(cfg: Config, argv: seq<string>, o: nat)
    requires cfg.Valid() && o <= |argv|
    ensures var w := Walk(cfg, argv, o, "");
      && (w.stuck ==> OnlyShort(cfg) && w.optind < |argv| && DashEnd(cfg, argv[w.optind]))
      && ((forall i :: o <= i < |argv| ==> !DashEnd(cfg, argv[i])) ==> !w.stuck)
      && (OnlyShort(cfg) && o < |argv| && DashEnd(cfg, argv[o]) ==> w.stuck && w.optind == o)
  {
    hide Walk;
    StopsShort(cfg, argv, o, "", [], []);
    if o < |argv| && DashEnd(cfg, argv[o]) {
      DashEndIs(cfg, argv[o]);
    }
  }

  /** The options for which every run gets to its end, whatever the vector. */
  lemma NeverStopsShort(cfg: Config)
    requires cfg.Valid()
    ensures (forall argv: seq<string> :: !Walk(cfg, argv, 0, "").stuck) <==> cfg.longs.Some? || '-' in cfg.options
  {
    hide Walk;
    if OnlyShort(cfg) {
      StopsAtDashEnd(cfg, ["---"], 0);
      assert Walk(cfg, ["---"], 0, "").stuck;
    } else {
      forall argv: seq<string> ensures !Walk(cfg, argv, 0, "").stuck {
        StopsAtDashEnd(cfg, argv, 0);
      }
    }
  }

  /** With "a" for the options, "prog x -a- y" stops at "-a-", before "y" is read. */
  lemma StopsShortOnce()
    ensures var cfg := Config("a", None, false, false, true);
      var w := Walk(cfg, ["prog", "x", "-a-", "y"], 1, "");
      w.stuck && w.optind == 2 && !Ends(cfg, ["prog", "x", "-a-", "y"], w)
  {
    hide Walk;
    var cfg := Config("a", None, false, false, true);
    var argv := ["prog", "x", "-a-", "y"];
    assert !Takes(cfg, 'a') && DashEnd(cfg, "-a-");
    assert DashAt(cfg, argv, 2) == Some(2);
    StopsShort(cfg, argv, 1, "", [], []);
  }
}
