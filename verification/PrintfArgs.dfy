/** How debug/vfprintf.c gets at the arguments: `__find_arguments` and its growing type
    table, and the GETARG and GETASTER of the formatting loop. */
module PrintfArgs {
  import opened Util
  import opened PrintfScan

  /** Arguments are numbers or strings (NULL is None); other pointers are opaque. */
  datatype Value = Num(n: int) | Str(s: Option<string>) | Opaque(id: int)

  datatype Arg = Arg(ty: ArgType, value: Value)

  /** Fetching an argument at the wrong type is undefined, so a caller passes the right types. */
  predicate Holds(args: seq<Arg>, u: Use) {
    u.index <= |args| && (if u.index == 0 then u.ty.Int? else SameSlot(u.ty, args[u.index - 1].ty))
  }

  /** The argument with number `n`. */
  function Argument(args: seq<Arg>, n: nat): Value {
    if 0 < n <= |args| then args[n - 1].value else Num(0)
  }

  /** A va_list. */
  class VaList {
    const args: seq<Arg>
    var next: nat

    constructor (args: seq<Arg>)
      ensures this.args == args && next == 0
    {
      this.args := args;
      next := 0;
    }

    /** va_copy */
    constructor Copy(other: VaList)
      ensures args == other.args && next == other.next
    {
      args := other.args;
      next := other.next;
    }

    /** va_arg */
    method Get(t: ArgType) returns (v: Value)
      requires next < |args| && SameSlot(t, args[next].ty)
      modifies this
      ensures next == old(next) + 1 && v == args[old(next)].value
    {
      v := args[next].value;
      next := next + 1;
    }
  }

  // ----- the type table -----

  /** The type that a table has at `n` after `uses`, later uses replacing earlier ones. */
  function LastType(uses: seq<Use>, n: nat): ArgType {
    if uses == [] then Unused
    else if uses[|uses| - 1].index == n then uses[|uses| - 1].ty
    else LastType(uses[..|uses| - 1], n)
  }

  /** The greatest index used. */
  function MaxIndex(uses: seq<Use>): nat {
    if uses == [] then 0
    else
      var m, k := MaxIndex(uses[..|uses| - 1]), uses[|uses| - 1].index;
      if k > m then k else m
  }

  lemma AddUse(uses: seq<Use>, u: Use)
    ensures MaxIndex(uses + [u]) == if u.index > MaxIndex(uses) then u.index else MaxIndex(uses)
    ensures forall n: nat :: LastType(uses + [u], n) == if n == u.index then u.ty else LastType(uses, n)
  {
    assert (uses + [u])[..|uses|] == uses;
  }

  lemma {:induction false} NothingBeyond(uses: seq<Use>, n: nat)
    requires n > MaxIndex(uses)
    ensures LastType(uses, n) == Unused
  {
    if uses != [] {
      NothingBeyond(uses[..|uses| - 1], n);
    }
  }

  const STATIC_ARG_TBL_SIZE := 8

  class TypeTable {
    var types: array<ArgType>
    var max: nat
    var nextarg: nat
    /** What was recorded so far. */
    ghost var uses: seq<Use>

    ghost predicate Valid()
      reads `types, `max, `uses, types
    {
      && types.Length >= STATIC_ARG_TBL_SIZE
      && max == MaxIndex(uses) < types.Length
      && forall n: nat :: n < types.Length ==> types[n] == LastType(uses, n)
    }

    constructor ()
      ensures Valid() && fresh(types) && uses == [] && nextarg == 1
    {
      types := new ArgType[STATIC_ARG_TBL_SIZE](_ => Unused);
      max := 0;
      nextarg := 1;
      uses := [];
    }

    /** `__grow_type_table` */
    method Grow(index: nat)
      requires Valid() && index >= types.Length
      modifies this
      ensures Valid() && fresh(types) && index < types.Length
      ensures uses == old(uses) && nextarg == old(nextarg)
    {
      var newsize := types.Length * 2;
      if newsize < index + 1 {
        newsize := index + 1;
      }
      var newtable := new ArgType[newsize];
      forall n | 0 <= n < types.Length {
        newtable[n] := types[n];
      }
      for n := types.Length to newsize
        invariant unchanged(this)
        invariant forall k :: types.Length <= k < n ==> newtable[k] == Unused
        invariant forall k :: 0 <= k < types.Length ==> newtable[k] == types[k]
      {
        newtable[n] := Unused;
      }
      forall n: nat | types.Length <= n < newsize ensures newtable[n] == LastType(uses, n) {
        NothingBeyond(uses, n);
      }
      types := newtable;
    }

    /** ADDTYPE */
    method Add(t: ArgType)
      requires Valid()
      modifies this, types
      ensures Valid() && (types == old(types) || fresh(types))
      ensures uses == old(uses) + [Use(old(nextarg), t)] && nextarg == old(nextarg) + 1
    {
      hide LastType, MaxIndex;
      if nextarg >= types.Length {
        Grow(nextarg);
      }
      if nextarg > max {
        max := nextarg;
      }
      AddUse(uses, Use(nextarg, t));
      types[nextarg] := t;
      uses := uses + [Use(nextarg, t)];
      nextarg := nextarg + 1;
    }

    /** ADDASTER, from the character behind the '*' on. */
    method AddAster(fmt: string, i: nat) returns (end: nat)
      requires Valid() && i <= |fmt|
      modifies this, types
      ensures Valid() && (types == old(types) || fresh(types))
      ensures end == StarIndex(fmt, i).1
      ensures uses == old(uses) + [Use(StarIndex(fmt, i).0.GetOr(old(nextarg)), Int)]
      ensures nextarg == if StarIndex(fmt, i).0.None? then old(nextarg) + 1 else old(nextarg)
    {
      hide LastType, MaxIndex, Number;
      var n, cp := ReadNumber(fmt, i, 0);
      if CharAt(fmt, cp) == '$' {
        var hold := nextarg;
        nextarg := n;
        Add(Int);
        nextarg := hold;
        end := cp + 1;
      } else {
        Add(Int);
        end := i;
      }
    }

    /** One conversion specification, from the character behind the '%' on, for the format
        whose uses are `all`. */
    method AddSpecification(fmt: string, start: nat, ghost all: seq<Use>) returns (more: bool, i: nat)
      requires Valid() && start <= |fmt|
      requires all == uses + Uses(fmt, start, Some(NO_MODS), nextarg, false)
      modifies this, types
      ensures Valid() && (types == old(types) || fresh(types))
      ensures more ==> start < i <= |fmt| && all == uses + Uses(fmt, i, None, nextarg, false)
      ensures !more ==> all == uses
    {
      hide LastType, MaxIndex, Number, RecordType, Modify, Uses, TypeTable.Valid;
      i := start;
      var mods := NO_MODS;
      while true
        invariant start <= i <= |fmt| && Valid() && (types == old(types) || fresh(types))
        invariant all == uses + Uses(fmt, i, Some(mods), nextarg, false)
        decreases |fmt| - i
      {
        var ch := CharAt(fmt, i);
        UsesToken(fmt, i, mods, nextarg, uses, all);
        if ch == '\0' {
          return false, i;
        }
        if IsFlag(ch) {
          i := i + 1;
        } else if IsModifier(ch) {
          mods := Modify(mods, ch);
          i := i + 1;
        } else if ch == '*' {
          i := AddAster(fmt, i + 1);
        } else if ch == '.' {
          if CharAt(fmt, i + 1) == '*' {
            i := AddAster(fmt, i + 2);
            } else {
            var n;
            n, i := ReadNumber(fmt, i + 1, 0);
          }
        } else if IsDigit(ch) {
          var n, end := ReadNumber(fmt, i, 0);
          if CharAt(fmt, end) == '$' {
            nextarg := n;
            i := end + 1;
          } else {
            i := end;
          }
        } else {
          i := i + 1;
          var t := RecordType(ch, mods);
          if !t.Unused? {
            Add(t);
          }
          return true, i;
        }
      }
    }
  }

  /** What is left to record after one token. */
  lemma UsesToken(fmt: string, i: nat, m: Mods, k: nat, was: seq<Use>, all: seq<Use>)
    requires i <= |fmt| && all == was + Uses(fmt, i, Some(m), k, false)
    ensures var (token, end) := Lex(fmt, i);
      match token
      case Stop => all == was
      case Modifier(c) => all == was + Uses(fmt, end, Some(Modify(m, c)), k, false)
      case Star(index) =>
        all == was + [Use(index.GetOr(k), Int)] + Uses(fmt, end, Some(m), if index.None? then k + 1 else k, false)
      case PrecStar(index) =>
        all == was + [Use(index.GetOr(k), Int)] + Uses(fmt, end, Some(m), if index.None? then k + 1 else k, false)
      case Position(n) => all == was + Uses(fmt, end, Some(m), n, false)
      case Conversion(c) =>
        var t := RecordType(c, m);
        if t.Unused? then all == was + Uses(fmt, end, None, k, false)
        else all == was + [Use(k, t)] + Uses(fmt, end, None, k + 1, false)
      case _ => all == was + Uses(fmt, end, Some(m), k, false)
  {
    hide Lex, Modify, RecordType, FetchType, NextPercent;
    var (token, end) := Lex(fmt, i);
    match token {
      case Star(index) => Shift(was, Use(index.GetOr(k), Int), Uses(fmt, end, Some(m), if index.None? then k + 1 else k, false));
      case PrecStar(index) => Shift(was, Use(index.GetOr(k), Int), Uses(fmt, end, Some(m), if index.None? then k + 1 else k, false));
      case Conversion(c) => Shift(was, Use(k, RecordType(c, m)), Uses(fmt, end, None, k + 1, false));
      case _ =>
    }
  }

  lemma Shift(was: seq<Use>, u: Use, rest: seq<Use>)
    ensures was + ([u] + rest) == was + [u] + rest
  {
  }

  /** The loops that read a number. */
  method ReadNumber(fmt: string, i: nat, start: nat) returns (n: nat, end: nat)
    ensures (n, end) == Number(fmt, i, start)
  {
    n, end := start, i;
    while IsDigit(CharAt(fmt, end))
      invariant Number(fmt, end, n) == Number(fmt, i, start)
      decreases |fmt| - end
    {
      n := 10 * n + ToDigit(fmt[end]);
      end := end + 1;
    }
  }

  /** The loops that look for the next '%'. */
  method FindPercent(fmt: string, i: nat) returns (j: nat)
    requires i <= |fmt|
    ensures j == NextPercent(fmt, i)
  {
    j := i;
    while j < |fmt| && fmt[j] != '\0' && fmt[j] != '%'
      invariant i <= j <= |fmt| && NextPercent(fmt, j) == NextPercent(fmt, i)
    {
      j := j + 1;
    }
  }

  // ----- the argument table -----

  /** Arguments no one uses are read as ints. */
  predicate Recorded(uses: seq<Use>, args: seq<Arg>) {
    && MaxIndex(uses) <= |args|
    && forall n: nat :: 0 < n <= MaxIndex(uses) ==>
         var t := LastType(uses, n);
         SameSlot(if t.Unused? then Int else t, args[n - 1].ty)
  }

  /** A table of the arguments up to number `max`. */
  ghost predicate Tabled(table: seq<Value>, max: nat, args: seq<Arg>) {
    && |table| > max
    && forall n: nat :: n <= max ==> table[n] == Argument(args, n)
  }

  /** `__find_arguments`: the table holds each argument at its number, up to the greatest
      number that the format uses. */
  method FindArguments(fmt: string, ap: VaList) returns (table: array<Value>)
    requires ap.next == 0 && Recorded(Uses(fmt, 0, None, 1, false), ap.args)
    modifies ap
    ensures fresh(table) && Tabled(table[..], MaxIndex(Uses(fmt, 0, None, 1, false)), ap.args)
  {
    hide LastType, MaxIndex, Lex, SameSlot;
    ghost var all := Uses(fmt, 0, None, 1, false);
    var t := new TypeTable();
    var i := 0;
    while true
      invariant i <= |fmt| && t.Valid() && fresh(t) && fresh(t.types) && ap.next == 0
      invariant all == t.uses + Uses(fmt, i, None, t.nextarg, false)
      decreases |fmt| - i
    {
      var j := FindPercent(fmt, i);
      if CharAt(fmt, j) == '\0' {
        assert Uses(fmt, i, None, t.nextarg, false) == [];
        break;
      }
      var more;
      more, i := t.AddSpecification(fmt, j + 1, all);
      if !more {
        break;
      }
    }
    assert t.uses == all;
    table := BuildTable(t, ap);
  }

  /** The end of `__find_arguments`: reads the arguments in order, each at its recorded type. */
  method BuildTable(t: TypeTable, ap: VaList) returns (table: array<Value>)
    requires t.Valid() && ap.next == 0 && Recorded(t.uses, ap.args)
    modifies ap
    ensures fresh(table) && Tabled(table[..], MaxIndex(t.uses), ap.args)
  {
    hide LastType, MaxIndex, SameSlot;
    table := new Value[if t.max >= STATIC_ARG_TBL_SIZE then t.max + 1 else STATIC_ARG_TBL_SIZE](_ => Num(0));
    table[0] := Num(0);
    for n: nat := 1 to t.max + 1
      invariant t.Valid() && fresh(table) && ap.next == n - 1
      invariant forall k: nat :: k < n ==> table[k] == Argument(ap.args, k)
    {
      var ty := t.types[n];
      table[n] := ap.Get(if ty.Unused? then Int else ty);
    }
  }

  // ----- the formatting loop's view -----

  /** The arguments that formatting uses. */
  function Fetched(fmt: string): seq<Use> { Uses(fmt, 0, None, 1, true) }

  /** What C demands of a caller: each argument is there and is used at the type it has, and
      one that is skipped is an int. */
  ghost predicate Passed(fmt: string, args: seq<Arg>) {
    && (forall u :: u in Fetched(fmt) ==> Holds(args, u))
    && forall n: nat :: 0 < n <= MaxIndex(Fetched(fmt)) && LastType(Fetched(fmt), n).Unused? ==>
         n <= |args| && SameSlot(Int, args[n - 1].ty)
  }

  lemma {:induction false} AgreeingTables(us: seq<Use>, vs: seq<Use>, n: nat)
    requires Agree(us, vs)
    ensures MaxIndex(us) == MaxIndex(vs) && SameSlot(LastType(us, n), LastType(vs, n))
    decreases |us|
  {
    hide SameSlot;
    if us == [] {
      SameSlotSelf(Unused);
    } else {
      var k := |us| - 1;
      AgreeingTables(us[..k], vs[..k], n);
    }
  }

  lemma {:induction false} LastTypeUsed(us: seq<Use>, n: nat)
    ensures LastType(us, n).Unused? || Use(n, LastType(us, n)) in us
  {
    if us != [] {
      LastTypeUsed(us[..|us| - 1], n);
    }
  }

  lemma {:induction false} MaxIndexHeld(us: seq<Use>, args: seq<Arg>)
    requires forall u :: u in us ==> Holds(args, u)
    ensures MaxIndex(us) <= |args| && forall u :: u in us ==> u.index <= MaxIndex(us)
  {
    hide SameSlot;
    if us != [] {
      var last := us[|us| - 1];
      assert last in us && Holds(args, last);
      MaxIndexHeld(us[..|us| - 1], args);
      forall u | u in us ensures u.index <= MaxIndex(us) {
        assert u == us[|us| - 1] || u in us[..|us| - 1];
      }
    }
  }

  /** What the caller owes is enough for `__find_arguments`. */
  lemma PassedIsRecorded(fmt: string, args: seq<Arg>)
    requires Passed(fmt, args) && !Disputes(fmt, 0, None)
    ensures Recorded(Uses(fmt, 0, None, 1, false), args)
    ensures MaxIndex(Uses(fmt, 0, None, 1, false)) == MaxIndex(Fetched(fmt))
  {
    hide LastType, MaxIndex, Uses, Disputes, SameSlot, Agree;
    var us, vs := Fetched(fmt), Uses(fmt, 0, None, 1, false);
    ScannersAgree(fmt, 0, None, 1);
    AgreeingTables(us, vs, 0);
    MaxIndexHeld(us, args);
    forall n: nat | 0 < n <= MaxIndex(vs)
      ensures var t := LastType(vs, n); SameSlot(if t.Unused? then Int else t, args[n - 1].ty)
    {
      AgreeingTables(us, vs, n);
      LastTypeUsed(us, n);
      SlotOf(LastType(us, n), LastType(vs, n), args[n - 1].ty);
    }
  }

  lemma SlotOf(t: ArgType, u: ArgType, a: ArgType)
    requires SameSlot(t, u)
    ensures t.Unused? <==> u.Unused?
    ensures SameSlot(t, a) ==> SameSlot(u, a)
  {
  }

  /** GETARG and GETASTER: arguments come in order from `ap` until the format first gives a
      position, and from the table from then on. */
  class Source {
    const fmt: string
    const args: seq<Arg>
    const ap: VaList
    const orgap: VaList
    var table: array?<Value>
    var nextarg: nat

    ghost predicate Valid()
      reads this, ap, orgap, table
    {
      && Passed(fmt, args) && !Disputes(fmt, 0, None)
      && ap != orgap && ap.args == args && orgap.args == args
      && (table == null ==> orgap.next == 0 && ap.next == nextarg - 1 && nextarg > 0)
      && (table != null ==> Tabled(table[..], MaxIndex(Fetched(fmt)), args))
    }

    constructor (fmt: string, args: seq<Arg>)
      requires Passed(fmt, args) && !Disputes(fmt, 0, None)
      ensures Valid() && fresh(ap) && fresh(orgap) && table == null
      ensures this.fmt == fmt && this.args == args && nextarg == 1
    {
      this.fmt, this.args := fmt, args;
      ap := new VaList(args);
      orgap := new VaList(args);
      table := null;
      nextarg := 1;
    }

    /** GETARG */
    method Get(t: ArgType) returns (v: Value)
      requires Valid() && Use(nextarg, t) in Fetched(fmt)
      modifies this`nextarg, ap
      ensures Valid() && nextarg == old(nextarg) + 1
      ensures v == Argument(args, old(nextarg))
    {
      hide Fetched, SameSlot, MaxIndex, LastType;
      MaxIndexHeld(Fetched(fmt), args);
      assert Holds(args, Use(nextarg, t));
      if table != null {
        v := table[nextarg];
        nextarg := nextarg + 1;
      } else {
        nextarg := nextarg + 1;
        v := ap.Get(t);
      }
    }

    /** Makes the table when it is first needed. */
    method NeedTable()
      requires Valid()
      modifies this`table, orgap
      ensures Valid() && table != null && (table == old(table) || fresh(table))
    {
      hide Fetched, SameSlot, MaxIndex, LastType, Recorded, Uses, Disputes;
      if table == null {
        PassedIsRecorded(fmt, args);
        table := FindArguments(fmt, orgap);
      }
    }

    /** GETASTER, from the character behind the '*' on. */
    method GetAster(i: nat) returns (v: Value, end: nat)
      requires Valid() && i <= |fmt|
      requires Use(StarIndex(fmt, i).0.GetOr(nextarg), Int) in Fetched(fmt)
      modifies this`nextarg, this`table, ap, orgap
      ensures Valid() && (table == old(table) || fresh(table))
      ensures end == StarIndex(fmt, i).1
      ensures v == Argument(args, StarIndex(fmt, i).0.GetOr(old(nextarg)))
      ensures nextarg == if StarIndex(fmt, i).0.None? then old(nextarg) + 1 else old(nextarg)
    {
      hide Fetched, MaxIndex, LastType, Passed, Number;
      var n2, cp := ReadNumber(fmt, i, 0);
      if CharAt(fmt, cp) == '$' {
        var hold := nextarg;
        NeedTable();
        nextarg := n2;
        v := Get(Int);
        nextarg := hold;
        end := cp + 1;
      } else {
        v := Get(Int);
        end := i;
      }
    }

    /** `n$` */
    method Position(n: nat)
      requires Valid()
      modifies this`nextarg, this`table, orgap
      ensures Valid() && nextarg == n && (table == old(table) || fresh(table))
    {
      NeedTable();
      nextarg := n;
    }
  }
}
