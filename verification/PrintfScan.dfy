/** The two scanners of format strings in debug/vfprintf.c: the formatting loop of
    `log_vsnprintf`, and `__find_arguments`, which runs over the whole format once a
    positional argument shows up, to learn the type of each argument. */
module PrintfScan {
  import opened Util

  // ----- the format language -----

  /** Length modifiers. */
  datatype Mods = Mods(long: bool, llong: bool, short: bool, chr: bool,
                       intmax: bool, sizet: bool, ptrdiff: bool, longdbl: bool)

  const NO_MODS := Mods(false, false, false, false, false, false, false, false)

  predicate IsModifier(c: char) {
    match c
    case 'L' | 'h' | 'j' | 'l' | 'q' | 't' | 'z' => true
    case _ => false
  }

  predicate IsFlag(c: char) {
    match c
    case ' ' | '#' | '-' | '+' | '\'' | '0' => true
    case _ => false
  }

  function Modify(m: Mods, c: char): Mods {
    match c
    case 'L' => m.(longdbl := true)
    case 'h' => if m.short then m.(short := false, chr := true) else m.(short := true)
    case 'j' => m.(intmax := true)
    case 'l' => if m.long then m.(long := false, llong := true) else m.(long := true)
    case 'q' => m.(llong := true)
    case 't' => m.(ptrdiff := true)
    case 'z' => m.(sizet := true)
    case _ => m
  }

  /** One piece of a conversion specification.  An `index` is a position given with '$'. */
  datatype Token =
    | Flag(c: char)                    // one of " #-+'0"
    | Modifier(c: char)
    | Star(index: Option<nat>)
    | Prec(n: nat)
    | PrecStar(index: Option<nat>)
    | Position(n: nat)
    | Width(n: nat)
    | Conversion(c: char)
    | Stop                             // the NUL at the end

  function CharAt(fmt: string, i: nat): char {
    if i < |fmt| then fmt[i] else '\0'
  }

  predicate IsDigit(c: char) { '0' <= c <= '9' }

  function ToDigit(c: char): nat
    requires IsDigit(c)
  {
    (c - '0') as nat
  }

  /** The number whose digits start at `i`, in front of `n`: its value and its end. */
  function Number(fmt: string, i: nat, n: nat): (r: (nat, nat))
    ensures i <= r.1 && (i <= |fmt| ==> r.1 <= |fmt|) && !IsDigit(CharAt(fmt, r.1))
    ensures IsDigit(CharAt(fmt, i)) ==> i < r.1
    decreases |fmt| - i
  {
    if IsDigit(CharAt(fmt, i)) then Number(fmt, i + 1, 10 * n + ToDigit(fmt[i])) else (n, i)
  }

  /** The index behind a '*', if there is one. */
  function StarIndex(fmt: string, i: nat): (r: (Option<nat>, nat))
    ensures i <= r.1 && (i <= |fmt| ==> r.1 <= |fmt|)
  {
    var (n, end) := Number(fmt, i, 0);
    if CharAt(fmt, end) == '$' then (Some(n), end + 1) else (None, i)
  }

  /** The token at `i` and the place behind it. */
  function Lex(fmt: string, i: nat): (r: (Token, nat))
    ensures i < r.1 && (r.0.Stop? <==> i >= |fmt| || fmt[i] == '\0')
    ensures i < |fmt| ==> r.1 <= |fmt|
  {
    var c := CharAt(fmt, i);
    if c == '\0' then (Stop, i + 1)
    else if IsFlag(c) then (Flag(c), i + 1)
    else if IsModifier(c) then (Modifier(c), i + 1)
    else if c == '*' then
      var (index, end) := StarIndex(fmt, i + 1);
      (Star(index), end)
    else if c == '.' then
      if CharAt(fmt, i + 1) == '*' then
        var (index, end) := StarIndex(fmt, i + 2);
        (PrecStar(index), end)
      else
        var (n, end) := Number(fmt, i + 1, 0);
        (Prec(n), end)
    else if IsDigit(c) then
      var (n, end) := Number(fmt, i, 0);
      if CharAt(fmt, end) == '$' then (Position(n), end + 1) else (Width(n), end)
    else (Conversion(c), i + 1)
  }

  /** The next '%', or the end. */
  function NextPercent(fmt: string, i: nat): (r: nat)
    requires i <= |fmt|
    ensures i <= r <= |fmt| && (r < |fmt| ==> fmt[r] == '%' || fmt[r] == '\0')
    ensures forall k :: i <= k < r ==> fmt[k] != '%' && fmt[k] != '\0'
    decreases |fmt| - i
  {
    if i == |fmt| || fmt[i] == '%' || fmt[i] == '\0' then i else NextPercent(fmt, i + 1)
  }

  // ----- the types of arguments -----

  /** What an argument is fetched as; the pointers of %n and the wide types included. */
  datatype ArgType =
    | Unused
    | Int | UInt | Long | ULong | LLong | ULLong | PtrDiff | SizeT | IntMax | UIntMax
    | Wint | WcharP | CharP | VoidP | Double | LongDouble
    | PShort | PInt | PLong | PLLong | PPtrDiff | PSizeT | PIntMax | PSChar

  function Unsigned(t: ArgType): ArgType {
    match t
    case Int => UInt
    case Long => ULong
    case LLong => ULLong
    case IntMax => UIntMax
    case _ => t
  }

  /** The same slot of the argument table, up to signedness. */
  predicate SameSlot(t: ArgType, u: ArgType) { Unsigned(t) == Unsigned(u) }

  /** The kinds of conversion. */
  datatype Kind = Character | Decimal | Floating | Written | Natural | Pointer | Text | Other

  function KindOf(c: char): Kind {
    match c
    case 'c' | 'C' => Character
    case 'd' | 'D' | 'i' => Decimal
    case 'a' | 'A' | 'e' | 'E' | 'f' | 'F' | 'g' | 'G' => Floating
    case 'n' => Written
    case 'o' | 'O' | 'u' | 'U' | 'x' | 'X' => Natural
    case 'p' => Pointer
    case 's' | 'S' => Text
    case _ => Other
  }

  /** Capital C, D, O, S and U imply the modifier l. */
  function Implied(m: Mods, c: char): Mods {
    if c == 'C' || c == 'D' || c == 'O' || c == 'S' || c == 'U' then m.(long := true) else m
  }

  /** The type that the formatting loop fetches (SARG, UARG, SJARG, UJARG, GETARG). */
  function FetchType(c: char, mods: Mods): ArgType {
    var m := Implied(mods, c);
    match KindOf(c)
    case Character => if m.long then Wint else Int
    case Decimal =>
      if m.intmax then IntMax else if m.sizet then SizeT else if m.ptrdiff then PtrDiff else if m.llong then LLong
      else if m.long then Long else Int
    case Floating => Double
    case Written =>
      if m.llong then PLLong else if m.sizet then PSizeT else if m.ptrdiff then PPtrDiff else if m.intmax then PIntMax
      else if m.long then PLong else if m.short then PShort else if m.chr then PSChar else PInt
    case Natural =>
      if m.intmax then UIntMax else if m.sizet then SizeT else if m.ptrdiff then PtrDiff else if m.llong then ULLong
      else if m.long then ULong else if m.short || m.chr then Int else UInt
    case Pointer => VoidP
    case Text => if m.long then WcharP else CharP
    case Other => Unused
  }

  /** The type that `__find_arguments` records (ADDSARG, ADDUARG, ADDTYPE). */
  function RecordType(c: char, mods: Mods): ArgType {
    var m := Implied(mods, c);
    match KindOf(c)
    case Character => if m.long then Wint else Int
    case Decimal =>
      if m.intmax then IntMax else if m.sizet then SizeT else if m.ptrdiff then PtrDiff else if m.llong then LLong
      else if m.long then Long else Int
    case Floating => if c == 'F' then Unused else if m.longdbl then LongDouble else Double
    case Written =>
      if m.intmax then PIntMax else if m.ptrdiff then PPtrDiff else if m.sizet then PSizeT else if m.llong then PLLong
      else if m.long then PLong else if m.short then PShort else if m.chr then PSChar else PInt
    case Natural =>
      if m.intmax then UIntMax else if m.sizet then SizeT else if m.ptrdiff then PtrDiff else if m.llong then ULLong
      else if m.long then ULong else UInt
    case Pointer => VoidP
    case Text => if m.long then WcharP else CharP
    case Other => Unused
  }

  function Count(b: bool): nat { if b then 1 else 0 }

  /** The conversions on which the scanners differ: %F is not recorded, L is recorded but
      not fetched, and %n ranks contradictory modifiers in opposite orders. */
  predicate Disputed(c: char, m: Mods) {
    || c == 'F'
    || (KindOf(c).Floating? && m.longdbl)
    || (KindOf(c).Written? && Count(m.intmax) + Count(m.ptrdiff) + Count(m.sizet) + Count(m.llong) >= 2)
  }

  lemma TypesAgree(c: char, m: Mods)
    ensures SameSlot(FetchType(c, m), RecordType(c, m)) <==> !Disputed(c, m)
  {
    hide FetchType, RecordType, Implied;
    match KindOf(c)
    case Written => WrittenTypes(c, m);
    case Floating => FloatingTypes(c, m);
    case _ => OtherTypes(c, m);
  }

  lemma WrittenTypes(c: char, m: Mods)
    requires KindOf(c).Written?
    ensures SameSlot(FetchType(c, m), RecordType(c, m)) <==>
      Count(m.intmax) + Count(m.ptrdiff) + Count(m.sizet) + Count(m.llong) < 2
    ensures c != 'F'
  {
    assert c == 'n' && Implied(m, c) == m;
  }

  lemma FloatingTypes(c: char, m: Mods)
    requires KindOf(c).Floating?
    ensures SameSlot(FetchType(c, m), RecordType(c, m)) <==> c != 'F' && !m.longdbl
  {
    assert Implied(m, c) == m;
  }

  lemma OtherTypes(c: char, m: Mods)
    requires !KindOf(c).Written? && !KindOf(c).Floating?
    ensures SameSlot(FetchType(c, m), RecordType(c, m)) && c != 'F'
  {
    hide Implied;
  }

  // ----- the arguments that a scan uses -----

  /** An argument, by its number from 1 on, and the type it is used at.  Number 0 is what a
      format can ask for with "*0$". */
  datatype Use = Use(index: nat, ty: ArgType)

  /** The arguments that a scanner uses from `i` on.  `mods` is None outside conversion
      specifications; `fetch` tells the formatting loop from `__find_arguments`. */
  function Uses(fmt: string, i: nat, mods: Option<Mods>, nextarg: nat, fetch: bool): seq<Use>
    requires mods.None? ==> i <= |fmt|
    decreases |fmt| + 1 - i, if mods.None? then 1 else 0
  {
    match mods
    case None =>
      var j := NextPercent(fmt, i);
      if CharAt(fmt, j) == '\0' then [] else Uses(fmt, j + 1, Some(NO_MODS), nextarg, fetch)
    case Some(m) =>
      var (token, end) := Lex(fmt, i);
      match token
      case Stop => []
      case Modifier(c) => Uses(fmt, end, Some(Modify(m, c)), nextarg, fetch)
      case Star(None) => [Use(nextarg, Int)] + Uses(fmt, end, mods, nextarg + 1, fetch)
      case Star(Some(n)) => [Use(n, Int)] + Uses(fmt, end, mods, nextarg, fetch)
      case PrecStar(None) => [Use(nextarg, Int)] + Uses(fmt, end, mods, nextarg + 1, fetch)
      case PrecStar(Some(n)) => [Use(n, Int)] + Uses(fmt, end, mods, nextarg, fetch)
      case Position(n) => Uses(fmt, end, mods, n, fetch)
      case Conversion(c) =>
        var t := if fetch then FetchType(c, m) else RecordType(c, m);
        if t.Unused? then Uses(fmt, end, None, nextarg, fetch)
        else [Use(nextarg, t)] + Uses(fmt, end, None, nextarg + 1, fetch)
      case _ => Uses(fmt, end, mods, nextarg, fetch)
  }

  /** Whether a disputed conversion follows. */
  predicate Disputes(fmt: string, i: nat, mods: Option<Mods>)
    requires mods.None? ==> i <= |fmt|
    decreases |fmt| + 1 - i, if mods.None? then 1 else 0
  {
    match mods
    case None =>
      var j := NextPercent(fmt, i);
      CharAt(fmt, j) != '\0' && Disputes(fmt, j + 1, Some(NO_MODS))
    case Some(m) =>
      var (token, end) := Lex(fmt, i);
      match token
      case Stop => false
      case Modifier(c) => Disputes(fmt, end, Some(Modify(m, c)))
      case Conversion(c) => Disputed(c, m) || Disputes(fmt, end, None)
      case _ => Disputes(fmt, end, mods)
  }

  /** The same arguments in the same order, in the same slots. */
  ghost predicate Agree(us: seq<Use>, vs: seq<Use>) {
    && |us| == |vs|
    && forall k :: 0 <= k < |us| ==> us[k].index == vs[k].index && SameSlot(us[k].ty, vs[k].ty)
  }

  lemma AgreeCons(u: Use, us: seq<Use>, v: Use, vs: seq<Use>)
    ensures Agree([u] + us, [v] + vs) <==> u.index == v.index && SameSlot(u.ty, v.ty) && Agree(us, vs)
  {
    hide SameSlot;
    var x, y := [u] + us, [v] + vs;
    if Agree(x, y) {
      forall k | 0 <= k < |us| ensures us[k].index == vs[k].index && SameSlot(us[k].ty, vs[k].ty) {
        assert us[k] == x[k + 1] && vs[k] == y[k + 1];
      }
      assert x[0] == u && y[0] == v;
    }
  }

  /** The formatting loop never fetches fewer arguments, and strictly more if %F follows. */
  lemma {:induction false} FetchesAtLeast(fmt: string, i: nat, mods: Option<Mods>, k: nat, l: nat)
    requires mods.None? ==> i <= |fmt|
    ensures |Uses(fmt, i, mods, k, true)| >= |Uses(fmt, i, mods, l, false)|
    decreases |fmt| + 1 - i, if mods.None? then 1 else 0
  {
    hide Lex, NextPercent, FetchType, RecordType, Modify;
    match mods {
      case None =>
        var j := NextPercent(fmt, i);
        if CharAt(fmt, j) != '\0' {
          FetchesAtLeast(fmt, j + 1, Some(NO_MODS), k, l);
        }
      case Some(m) =>
        var (token, end) := Lex(fmt, i);
        match token {
          case Stop =>
          case Modifier(c) => FetchesAtLeast(fmt, end, Some(Modify(m, c)), k, l);
          case Star(None) => FetchesAtLeast(fmt, end, mods, k + 1, l + 1);
          case Star(Some(n)) => FetchesAtLeast(fmt, end, mods, k, l);
          case PrecStar(None) => FetchesAtLeast(fmt, end, mods, k + 1, l + 1);
          case PrecStar(Some(n)) => FetchesAtLeast(fmt, end, mods, k, l);
          case Position(n) => FetchesAtLeast(fmt, end, mods, n, n);
          case Conversion(c) =>
            RecordedIsFetched(c, m);
            var k' := if FetchType(c, m).Unused? then k else k + 1;
            var l' := if RecordType(c, m).Unused? then l else l + 1;
            FetchesAtLeast(fmt, end, None, k', l');
          case _ => FetchesAtLeast(fmt, end, mods, k, l);
        }
    }
  }

  lemma RecordedIsFetched(c: char, m: Mods)
    ensures RecordType(c, m).Unused? <==> FetchType(c, m).Unused? || c == 'F'
  {
  }

  /** The two scanners use the same arguments in the same slots exactly if no disputed
      conversion follows. */
  lemma {:induction false} ScannersAgree(fmt: string, i: nat, mods: Option<Mods>, k: nat)
    requires mods.None? ==> i <= |fmt|
    ensures Agree(Uses(fmt, i, mods, k, true), Uses(fmt, i, mods, k, false)) <==> !Disputes(fmt, i, mods)
    decreases |fmt| + 1 - i, if mods.None? then 1 else 0
  {
    hide Lex, NextPercent, FetchType, RecordType, Modify, SameSlot, Agree, Disputed;
    match mods {
      case None =>
        var j := NextPercent(fmt, i);
        if CharAt(fmt, j) != '\0' {
          ScannersAgree(fmt, j + 1, Some(NO_MODS), k);
        } else {
          AgreeNothing();
        }
      case Some(m) =>
        var (token, end) := Lex(fmt, i);
        match token {
          case Stop => AgreeNothing();
          case Modifier(c) => ScannersAgree(fmt, end, Some(Modify(m, c)), k);
          case Star(index) =>
            AfterStar(fmt, end, m, k, index);
          case PrecStar(index) =>
            AfterStar(fmt, end, m, k, index);
          case Position(n) => ScannersAgree(fmt, end, mods, n);
          case Conversion(c) => AfterConversion(fmt, end, c, m, k);
          case _ => ScannersAgree(fmt, end, mods, k);
        }
    }
  }

  lemma AgreeNothing()
    ensures Agree([], [])
  {
  }

  lemma {:induction false} AfterStar(fmt: string, end: nat, m: Mods, k: nat, index: Option<nat>)
    requires end <= |fmt|
    ensures var u, k' := Use(index.GetOr(k), Int), if index.None? then k + 1 else k;
      Agree([u] + Uses(fmt, end, Some(m), k', true), [u] + Uses(fmt, end, Some(m), k', false))
      <==> !Disputes(fmt, end, Some(m))
    decreases |fmt| + 1 - end, 2
  {
    hide *;
    var u := Use(index.GetOr(k), Int);
    var k' := if index.None? then k + 1 else k;
    ScannersAgree(fmt, end, Some(m), k');
    SameSlotSelf(Int);
    AgreeCons(u, Uses(fmt, end, Some(m), k', true), u, Uses(fmt, end, Some(m), k', false));
  }

  lemma {:induction false} AfterConversion(fmt: string, end: nat, c: char, m: Mods, k: nat)
    requires end <= |fmt|
    ensures var t, u := FetchType(c, m), RecordType(c, m);
      var fetched := if t.Unused? then Uses(fmt, end, None, k, true) else [Use(k, t)] + Uses(fmt, end, None, k + 1, true);
      var recorded := if u.Unused? then Uses(fmt, end, None, k, false) else [Use(k, u)] + Uses(fmt, end, None, k + 1, false);
      Agree(fetched, recorded) <==> !Disputed(c, m) && !Disputes(fmt, end, None)
    decreases |fmt| + 1 - end, 2
  {
    hide FetchType, RecordType, Uses, Disputes, SameSlot, Agree;
    var t, u := FetchType(c, m), RecordType(c, m);
    TypesAgree(c, m);
    RecordedIsFetched(c, m);
    ScannersAgree(fmt, end, None, k);
    ScannersAgree(fmt, end, None, k + 1);
    if c == 'F' {
      FetchesAtLeast(fmt, end, None, k + 1, k);
      DoubleIsUsed(m);
      AgreeLengths([Use(k, t)] + Uses(fmt, end, None, k + 1, true), Uses(fmt, end, None, k, false));
    } else if !t.Unused? {
      AgreeCons(Use(k, t), Uses(fmt, end, None, k + 1, true), Use(k, u), Uses(fmt, end, None, k + 1, false));
    } else {
      SameSlotSelf(t);
    }
  }

  lemma DoubleIsUsed(m: Mods)
    ensures FetchType('F', m) == Double
  {
  }

  lemma SameSlotSelf(t: ArgType)
    ensures SameSlot(t, t)
  {
  }

  lemma AgreeLengths(us: seq<Use>, vs: seq<Use>)
    ensures Agree(us, vs) ==> |us| == |vs|
  {
  }

  /** "%F %d" is such a format: the second argument is fetched as an int, but the table says
      that it is the first one. */
  lemma ScannersDiffer()
    ensures Uses("%F %d", 0, None, 1, true) == [Use(1, Double), Use(2, Int)]
    ensures Uses("%F %d", 0, None, 1, false) == [Use(1, Int)]
    ensures Disputes("%F %d", 0, None)
  {
    var fmt := "%F %d";
    assert NextPercent(fmt, 0) == 0 && Lex(fmt, 1) == (Conversion('F'), 2);
    assert NextPercent(fmt, 2) == 3 && Lex(fmt, 4) == (Conversion('d'), 5);
    assert NextPercent(fmt, 5) == 5;
    assert Uses(fmt, 5, None, 3, true) == [] && Uses(fmt, 5, None, 2, false) == [];
    assert Uses(fmt, 2, None, 2, true) == [Use(2, Int)] && Uses(fmt, 2, None, 1, false) == [Use(1, Int)];
  }
}
