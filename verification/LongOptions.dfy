/** Long-option lookup: the matching loop of `parse_long_options` in
    compat/getopt_long.c. */
module LongOptions {
  import opened Util

  datatype HasArg = NoArgument | RequiredArgument | OptionalArgument

  /** `flag` names the caller's cell that receives `val`, if there is one. */
  datatype LongOption = LongOption(name: string, hasArg: HasArg, flag: Option<nat>, val: int)

  datatype Match = Found(index: nat) | Ambiguous | NoMatch

  /** Two abbreviations may stand for each other: they mean the same option. */
  predicate SameMeaning(a: LongOption, b: LongOption) {
    a.hasArg == b.hasArg && a.flag == b.flag && a.val == b.val
  }

  predicate Abbreviates(text: string, o: LongOption) {
    text <= o.name
  }

  function FirstExact(table: seq<LongOption>, text: string, i: nat := 0): (r: nat)
    requires i <= |table|
    ensures i <= r <= |table|
    ensures r < |table| ==> table[r].name == text
    ensures forall j :: i <= j < r ==> table[j].name != text
    decreases |table| - i
  {
    if i == |table| || table[i].name == text then i else FirstExact(table, text, i + 1)
  }

  function FirstPartial(table: seq<LongOption>, text: string, i: nat := 0): (r: nat)
    requires i <= |table|
    ensures i <= r <= |table|
    ensures r < |table| ==> Abbreviates(text, table[r])
    ensures forall j :: i <= j < r ==> !Abbreviates(text, table[j])
    decreases |table| - i
  {
    if i == |table| || Abbreviates(text, table[i]) then i else FirstPartial(table, text, i + 1)
  }

  predicate Clashes(table: seq<LongOption>, text: string, longOnly: bool, first: nat, j: nat)
    requires first < |table| && j < |table|
  {
    Abbreviates(text, table[j]) && (longOnly || !SameMeaning(table[j], table[first]))
  }

  /** The outcome of a lookup.  `shortToo` says that the text could also be a short
      option, in which case a single character is no abbreviation. */
  function Lookup(table: seq<LongOption>, text: string, shortToo: bool, longOnly: bool): (r: Match)
    ensures r.Found? ==> r.index < |table|
  {
    var exact := FirstExact(table, text);
    if exact < |table| then Found(exact)
    else if shortToo && |text| == 1 then NoMatch
    else
      var first := FirstPartial(table, text);
      if first == |table| then NoMatch
      else if exists j :: first < j < |table| && Clashes(table, text, longOnly, first, j) then Ambiguous
      else Found(first)
  }

  /** The loop of the source, with `match == -1` for "none yet". */
  method MatchLong(table: seq<LongOption>, text: string, shortToo: bool, longOnly: bool) returns (r: Match)
    ensures r == Lookup(table, text, shortToo, longOnly)
  {
    var match_ := -1;
    var exactMatch, secondPartialMatch := false, false;
    var i := 0;
    while i < |table|
      invariant 0 <= i <= |table|
      invariant !exactMatch
      invariant forall j :: 0 <= j < i ==> table[j].name != text
      invariant -1 <= match_ < i
      invariant shortToo && |text| == 1 ==> match_ == -1
      invariant match_ == -1 && !(shortToo && |text| == 1) ==> forall j :: 0 <= j < i ==> !Abbreviates(text, table[j])
      invariant match_ >= 0 ==> match_ == FirstPartial(table, text)
      invariant secondPartialMatch <==>
        match_ >= 0 && exists j :: match_ < j < i && Clashes(table, text, longOnly, match_, j)
    {
      if Abbreviates(text, table[i]) {
        if |table[i].name| == |text| {
          match_ := i;
          exactMatch := true;
          break;
        }
        if shortToo && |text| == 1 {
        } else if match_ == -1 {
          match_ := i;
        } else if longOnly || table[i].hasArg != table[match_].hasArg ||
                  table[i].flag != table[match_].flag || table[i].val != table[match_].val {
          assert Clashes(table, text, longOnly, match_, i);
          secondPartialMatch := true;
        }
      }
      i := i + 1;
    }
    if !exactMatch && secondPartialMatch {
      r := Ambiguous;
    } else if match_ != -1 {
      r := Found(match_);
    } else {
      r := NoMatch;
    }
  }

  // ----- properties of the lookup -----

  ghost predicate Admissible(o: LongOption, text: string, shortToo: bool) {
    Abbreviates(text, o) && !(shortToo && |text| == 1)
  }

  ghost predicate HasExact(table: seq<LongOption>, text: string) {
    exists o :: o in table && o.name == text
  }

  ghost predicate HasRivals(table: seq<LongOption>, text: string, shortToo: bool) {
    exists o, o' :: && o in table && o' in table && !SameMeaning(o, o')
                    && Admissible(o, text, shortToo) && Admissible(o', text, shortToo)
  }

  ghost predicate HasLoneAbbreviation(table: seq<LongOption>, text: string, shortToo: bool) {
    exists i :: && 0 <= i < |table| && Admissible(table[i], text, shortToo)
                && forall j :: 0 <= j < |table| && j != i ==> !Admissible(table[j], text, shortToo)
  }

  ghost predicate NoneAdmissible(table: seq<LongOption>, text: string, shortToo: bool) {
    forall o :: o in table ==> !Admissible(o, text, shortToo)
  }

  ghost predicate AllMean(table: seq<LongOption>, text: string, shortToo: bool, p: LongOption) {
    forall o :: o in table && Admissible(o, text, shortToo) ==> SameMeaning(o, p)
  }

  /** An exact name wins over every abbreviation; otherwise all admissible
      abbreviations must mean the same option; otherwise the text is ambiguous.
      `getopt_long_only` lets no two abbreviations stand side by side. */
  lemma LookupMeaning(table: seq<LongOption>, text: string, shortToo: bool, longOnly: bool)
    ensures var r := Lookup(table, text, shortToo, longOnly);
      && (HasExact(table, text) ==> r.Found? && r.index < |table| && table[r.index].name == text)
      && (!HasExact(table, text) ==>
           && (r.NoMatch? <==> NoneAdmissible(table, text, shortToo))
           && (r.Found? ==>
                && r.index < |table| && Admissible(table[r.index], text, shortToo)
                && AllMean(table, text, shortToo, table[r.index]))
           && (r.Ambiguous? && !longOnly ==> HasRivals(table, text, shortToo))
           && (longOnly ==> (r.Found? <==> HasLoneAbbreviation(table, text, shortToo))))
  {
    hide *;
    ExactIs(table, text);
    LookupIs(table, text, shortToo, longOnly);
    var first := FirstPartial(table, text);
    if (shortToo && |text| == 1) || first == |table| {
      NothingFound(table, text, shortToo);
    } else if HasClash(table, text, longOnly, first) {
      FirstIs(table, text, shortToo);
      ClashIsRival(table, text, shortToo, longOnly, first);
    } else {
      FirstIs(table, text, shortToo);
      NoClashMeans(table, text, shortToo, longOnly, first);
    }
  }

  lemma ExactIs(table: seq<LongOption>, text: string)
    ensures HasExact(table, text) <==> FirstExact(table, text) < |table|
    ensures FirstExact(table, text) < |table| ==> table[FirstExact(table, text)].name == text
  {
    if FirstExact(table, text) < |table| {
      assert table[FirstExact(table, text)] in table;
    }
  }

  ghost predicate HasClash(table: seq<LongOption>, text: string, longOnly: bool, first: nat) {
    exists j :: first < j < |table| && Clashes(table, text, longOnly, first, j)
  }

  lemma LookupIs(table: seq<LongOption>, text: string, shortToo: bool, longOnly: bool)
    ensures var exact, first := FirstExact(table, text), FirstPartial(table, text);
      Lookup(table, text, shortToo, longOnly) ==
        if exact < |table| then Found(exact)
        else if (shortToo && |text| == 1) || first == |table| then NoMatch
        else if HasClash(table, text, longOnly, first) then Ambiguous else Found(first)
  {
    hide Clashes, FirstExact, FirstPartial;
  }

  lemma FirstIs(table: seq<LongOption>, text: string, shortToo: bool)
    requires FirstPartial(table, text) < |table| && !(shortToo && |text| == 1)
    ensures Admissible(table[FirstPartial(table, text)], text, shortToo)
    ensures !NoneAdmissible(table, text, shortToo)
  {
    assert table[FirstPartial(table, text)] in table;
  }

  lemma NothingFound(table: seq<LongOption>, text: string, shortToo: bool)
    requires (shortToo && |text| == 1) || FirstPartial(table, text) == |table|
    ensures NoneAdmissible(table, text, shortToo) && !HasLoneAbbreviation(table, text, shortToo)
  {
  }

  lemma ClashIsRival(table: seq<LongOption>, text: string, shortToo: bool, longOnly: bool, first: nat)
    requires first < |table| && HasClash(table, text, longOnly, first)
    requires Admissible(table[first], text, shortToo)
    ensures !longOnly ==> HasRivals(table, text, shortToo)
    ensures !HasLoneAbbreviation(table, text, shortToo)
  {
    var j :| first < j < |table| && Clashes(table, text, longOnly, first, j);
    assert table[j] in table && table[first] in table && Admissible(table[j], text, shortToo);
  }

  /** Without a clash, what is admissible means the same as the first abbreviation. */
  lemma NoClashMeans(table: seq<LongOption>, text: string, shortToo: bool, longOnly: bool, first: nat)
    requires first == FirstPartial(table, text) < |table| && Admissible(table[first], text, shortToo)
    requires !HasClash(table, text, longOnly, first)
    ensures AllMean(table, text, shortToo, table[first])
    ensures longOnly ==> HasLoneAbbreviation(table, text, shortToo)
  {
    forall o | o in table && Admissible(o, text, shortToo) ensures SameMeaning(o, table[first]) {
      var j :| 0 <= j < |table| && table[j] == o;
      assert j == first || !Clashes(table, text, longOnly, first, j);
    }
    if longOnly {
      forall j | 0 <= j < |table| && j != first ensures !Admissible(table[j], text, shortToo) {
        assert j < first || !Clashes(table, text, longOnly, first, j);
      }
    }
  }

  ghost predicate DistinctNames(table: seq<LongOption>) {
    forall i, j :: 0 <= i < j < |table| ==> table[i].name != table[j].name
  }

  /** The outcome without the table index. */
  function Meaning(table: seq<LongOption>, r: Match): Option<Option<(HasArg, Option<nat>, int)>>
    requires r.Found? ==> r.index < |table|
  {
    match r
    case Found(i) => Some(Some((table[i].hasArg, table[i].flag, table[i].val)))
    case Ambiguous => Some(None)
    case NoMatch => None
  }

  /** With distinct names, the table's order does not matter to what is found. */
  lemma OrderIndependent(t1: seq<LongOption>, t2: seq<LongOption>, text: string, shortToo: bool, longOnly: bool)
    requires multiset(t1) == multiset(t2) && DistinctNames(t1) && DistinctNames(t2)
    ensures Meaning(t1, Lookup(t1, text, shortToo, longOnly)) == Meaning(t2, Lookup(t2, text, shortToo, longOnly))
  {
    hide *;
    var r1, r2 := Lookup(t1, text, shortToo, longOnly), Lookup(t2, text, shortToo, longOnly);
    LookupMeaning(t1, text, shortToo, longOnly);
    LookupMeaning(t2, text, shortToo, longOnly);
    SameMembers(t1, t2);
    MembersDecide(t1, t2, text, shortToo);
    MeaningIs(t1, r1);
    MeaningIs(t2, r2);
    if r1.Found? && r2.Found? {
      if HasExact(t1, text) {
        SameName(t1, t1[r1.index], t2[r2.index]);
      } else {
        AllMeanThis(t1, text, shortToo, t1[r1.index], t2[r2.index]);
      }
    } else if longOnly {
      if HasLoneAbbreviation(t1, text, shortToo) {
        LoneTransfers(t1, t2, text, shortToo);
      }
      if HasLoneAbbreviation(t2, text, shortToo) {
        LoneTransfers(t2, t1, text, shortToo);
      }
    } else if r1.Found? {
      RivalsDiffer(t1, text, shortToo, t1[r1.index]);
    } else if r2.Found? {
      RivalsDiffer(t2, text, shortToo, t2[r2.index]);
    }
  }

  lemma MembersDecide(t1: seq<LongOption>, t2: seq<LongOption>, text: string, shortToo: bool)
    requires forall o :: o in t1 <==> o in t2
    ensures HasExact(t1, text) <==> HasExact(t2, text)
    ensures NoneAdmissible(t1, text, shortToo) <==> NoneAdmissible(t2, text, shortToo)
    ensures HasRivals(t1, text, shortToo) <==> HasRivals(t2, text, shortToo)
  {
    hide Admissible, SameMeaning;
  }

  lemma MeaningIs(t: seq<LongOption>, r: Match)
    requires r.Found? ==> r.index < |t|
    ensures r.Found? ==>
      t[r.index] in t && Meaning(t, r) == Some(Some((t[r.index].hasArg, t[r.index].flag, t[r.index].val)))
    ensures r.Ambiguous? ==> Meaning(t, r) == Some(None)
    ensures r.NoMatch? ==> Meaning(t, r) == None
  {
  }

  lemma AllMeanThis(t: seq<LongOption>, text: string, shortToo: bool, p: LongOption, o: LongOption)
    requires AllMean(t, text, shortToo, p) && o in t && Admissible(o, text, shortToo)
    ensures o.hasArg == p.hasArg && o.flag == p.flag && o.val == p.val
  {
    hide Admissible;
  }

  lemma RivalsDiffer(t: seq<LongOption>, text: string, shortToo: bool, p: LongOption)
    requires AllMean(t, text, shortToo, p)
    ensures !HasRivals(t, text, shortToo)
  {
    hide Admissible;
  }

  lemma SameMembers(t1: seq<LongOption>, t2: seq<LongOption>)
    requires multiset(t1) == multiset(t2)
    ensures forall o :: o in t1 <==> o in t2
  {
    forall o ensures o in t1 <==> o in t2 {
      assert o in t1 <==> o in multiset(t1);
      assert o in t2 <==> o in multiset(t2);
    }
  }

  lemma SameName(t: seq<LongOption>, o: LongOption, o': LongOption)
    requires DistinctNames(t) && o in t && o' in t && o.name == o'.name
    ensures o == o'
  {
  }

  lemma LoneTransfers(t1: seq<LongOption>, t2: seq<LongOption>, text: string, shortToo: bool)
    requires DistinctNames(t2) && (forall o :: o in t1 <==> o in t2)
    requires HasLoneAbbreviation(t1, text, shortToo)
    ensures HasLoneAbbreviation(t2, text, shortToo)
  {
    var i :| && 0 <= i < |t1| && Admissible(t1[i], text, shortToo)
             && forall j :: 0 <= j < |t1| && j != i ==> !Admissible(t1[j], text, shortToo);
    assert t1[i] in t2;
    var k :| 0 <= k < |t2| && t2[k] == t1[i];
    forall j | 0 <= j < |t2| && j != k ensures !Admissible(t2[j], text, shortToo) {
      assert t2[j] in t1;
      var l :| 0 <= l < |t1| && t1[l] == t2[j];
      assert l != i;
    }
  }
}
