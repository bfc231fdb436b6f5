/** Scattered transfers: `COWIoVec`, the retry loop of `rwdata`, and `rwvall` of io/IO.cc. */
module IoVec {

  /** A piece of memory: `struct iovec`. */
  datatype Piece = Piece(base: nat, len: nat)

  /** The addresses of one piece. */
  function Range(p: Piece): (r: seq<nat>)
    ensures |r| == p.len
  {
    seq(p.len, k requires 0 <= k => p.base + k)
  }

  /** All addresses, in order. */
  function Addresses(v: seq<Piece>): seq<nat> {
    if v == [] then [] else Range(v[0]) + Addresses(v[1..])
  }

  function Sum(v: seq<Piece>): nat {
    if v == [] then 0 else v[0].len + Sum(v[1..])
  }

  lemma {:induction false} SumIsLength(v: seq<Piece>)
    ensures Sum(v) == |Addresses(v)|
  {
    if v != [] {
      SumIsLength(v[1..]);
    }
  }

  lemma {:induction false} SumMore(v: seq<Piece>, p: Piece)
    ensures Sum(v + [p]) == Sum(v) + p.len
  {
    if v == [] {
      assert ([] + [p])[1..] == [];
    } else {
      assert (v + [p])[1..] == v[1..] + [p];
      SumMore(v[1..], p);
    }
  }

  // ----- the copy-on-write vector -----

  class COWIoVec {
    /** `iov_`: the caller's vector or a copy, from `start` on; null when nothing is left. */
    var iov: array?<Piece>
    var start: nat
    var iovcnt: nat
    var bytesLeft: nat
    var copied: bool
    const caller: array<Piece>

    ghost predicate Valid()
      reads this, iov, caller
    {
      && (iov != null ==> start + iovcnt <= iov.Length && (copied <==> iov != caller))
      && (iov == null ==> bytesLeft == 0)
      && bytesLeft == |Left()|
    }

    /** What is left to transfer. */
    ghost function Left(): seq<nat>
      reads this, iov
    {
      if iov != null && start + iovcnt <= iov.Length then Addresses(iov[start..start + iovcnt]) else []
    }

    constructor (caller: array<Piece>)
      ensures Valid() && this.caller == caller && iov == caller
      ensures Left() == Addresses(caller[..])
    {
      this.caller := caller;
      iov, start, iovcnt, copied := caller, 0, caller.Length, false;
      bytesLeft := 0;
      new;
      for i := 0 to iovcnt
        invariant iov == caller && start == 0 && iovcnt == caller.Length && !copied
        invariant bytesLeft == Sum(caller[..i])
      {
        assert caller[..i + 1] == caller[..i] + [caller[i]];
        SumMore(caller[..i], caller[i]);
        bytesLeft := bytesLeft + iov[i].len;
      }
      assert caller[..iovcnt] == caller[..] == caller[0..iovcnt];
      SumIsLength(caller[..]);
    }

    lemma LeftLength()
      requires Valid()
      ensures bytesLeft == |Left()| && (iov == null ==> bytesLeft == 0)
    {
    }

    /** Whether the pieces are in static or dynamic memory makes no difference here. */
    method Copy()
      requires Valid() && !copied && iov != null
      modifies this
      ensures Valid() && copied && iov != null && fresh(iov)
      ensures Left() == old(Left()) && bytesLeft == old(bytesLeft)
    {
      ghost var v := iov[start..start + iovcnt];
      var copy := new Piece[iovcnt];
      forall i | 0 <= i < iovcnt {
        copy[i] := iov[start + i];
      }
      assert forall i :: 0 <= i < iovcnt ==> copy[0..iovcnt][i] == v[i];
      assert copy[0..iovcnt] == v;
      iov, start, copied := copy, 0, true;
      assert Left() == Addresses(v);
    }

    /** Takes one piece away, or the start of it. */
    method SkipOne(n: nat) returns (left: nat)
      requires iov != null && start + iovcnt <= iov.Length && 0 < n <= |Left()|
      modifies this`start, this`iovcnt, iov
      ensures iov == old(iov) && iov != null && start + iovcnt <= iov.Length
      ensures left <= n && left <= |Left()| && Left()[left..] == old(Left())[n..]
      ensures left < n || iovcnt < old(iovcnt)
    {
      hide Addresses, Range;
      ghost var v := iov[start..start + iovcnt];
      SomethingLeft(v);
      assert iovcnt > 0;
      if iov[start].len <= n {
        SkipPiece(v, n);
        assert v[1..] == iov[start + 1..start + iovcnt];
        left := n - iov[start].len;
        iovcnt := iovcnt - 1;
        start := start + 1;
      } else {
        CutPiece(v, n);
        iov[start] := Piece(iov[start].base + n, iov[start].len - n);
        assert iov[start..start + iovcnt] == v[0 := Piece(v[0].base + n, v[0].len - n)];
        left := 0;
      }
    }

    /** The loop that consumes pieces of the copy. */
    method Skip(cc: nat)
      requires iov != null && start + iovcnt <= iov.Length && cc <= |Left()|
      modifies this`start, this`iovcnt, iov
      ensures iov == old(iov) && iov != null && start + iovcnt <= iov.Length
      ensures Left() == old(Left())[cc..]
    {
      hide Addresses, Range, COWIoVec.Left;
      ghost var all := Left();
      var n: nat := cc;
      assert all[0..] == all;
      while n > 0
        invariant iov == old(iov) && iov != null && start + iovcnt <= iov.Length
        invariant n <= cc && n <= |Left()| && all[cc..] == Left()[n..]
        decreases n, iovcnt
      {
        n := SkipOne(n);
      }
    }

    /** Takes the first `cc` bytes away.  The caller's vector stays as it is. */
    method Consume(cc: nat)
      requires Valid() && 0 < cc <= bytesLeft
      modifies this, if copied then {iov} else {}
      ensures Valid() && Left() == old(Left())[cc..]
      ensures caller[..] == old(caller[..])
      ensures copied && iov != null ==> (old(copied) && iov == old(iov)) || fresh(iov)
    {
      hide Addresses;
      if !copied && cc == bytesLeft {
        iov := null;
        bytesLeft := 0;
        return;
      }
      if !copied {
        Copy();
      }
      bytesLeft := bytesLeft - cc;
      Skip(cc);
      if bytesLeft == 0 {
        iov := null;
      }
    }
  }

  lemma SomethingLeft(v: seq<Piece>)
    ensures |Addresses(v)| > 0 ==> v != []
  {
  }

  lemma SkipPiece(v: seq<Piece>, n: nat)
    requires v != [] && v[0].len <= n <= |Addresses(v)|
    ensures |Addresses(v)| == v[0].len + |Addresses(v[1..])|
    ensures Addresses(v)[n..] == Addresses(v[1..])[n - v[0].len..]
  {
  }

  lemma CutPiece(v: seq<Piece>, n: nat)
    requires v != [] && n < v[0].len
    ensures n <= |Addresses(v)|
    ensures Addresses(v[0 := Piece(v[0].base + n, v[0].len - n)]) == Addresses(v)[n..]
  {
    var w := v[0 := Piece(v[0].base + n, v[0].len - n)];
    assert w[1..] == v[1..];
    assert Range(w[0]) == Range(v[0])[n..];
  }

  // ----- the transfers -----

  const IOEOF := 0
  const IOERROR := -1
  const IOTIMEOUT := -2
  const IOINTR := -3
  const IOAGAIN := -4

  datatype Poll = Ready | Broken | TimedOut | Notified {
    function Code(): int {
      match this
      case Ready => 1
      case Broken => IOERROR
      case TimedOut => IOTIMEOUT
      case Notified => IOINTR
    }
  }

  datatype Call = Moves(n: nat) | Again | Interrupted | Fails

  /** What the system says in one round of the retry loop: poll, if it is called, and the system
      call, if poll is ready.  Moving 0 bytes is the end of the file. */
  datatype Round = Round(poll: Poll, call: Call)

  function Min(a: nat, b: nat): nat { if a <= b then a else b }

  /** What `rwdata` returns for a vector of `left` bytes, and the rounds that are still to come.
      With no more rounds, it fails. */
  function Transfer(rounds: seq<Round>, left: nat, polls: bool, ignoreEagain: bool): (r: (int, seq<Round>))
    ensures r.0 <= left && |r.1| <= |rounds|
    ensures r.0 > 0 ==> |r.1| < |rounds|
    decreases |rounds|
  {
    if rounds == [] then (IOERROR, [])
    else
      var rest := rounds[1..];
      if polls && !rounds[0].poll.Ready? then (rounds[0].poll.Code(), rest)
      else match rounds[0].call
        case Moves(n) => (Min(n, left), rest)
        case Again => if ignoreEagain then Transfer(rest, left, polls, ignoreEagain) else (IOAGAIN, rest)
        case Interrupted => Transfer(rest, left, polls, ignoreEagain)
        case Fails => (IOERROR, rest)
  }

  /** size_t to int. */
  function Int32(n: nat): int {
    var r := n % 0x1_0000_0000;
    if r < 0x8000_0000 then r else r - 0x1_0000_0000
  }

  /** How many of `left` bytes `rwvall` moves, and what it returns. */
  function TransferAll(rounds: seq<Round>, left: nat, total: nat, polls: bool): (r: (nat, int))
    decreases |rounds|
  {
    if left == 0 then (0, Int32(total))
    else
      var (cc, rest) := Transfer(rounds, left, polls, true);
      if cc <= 0 then (0, cc)
      else
        var (n, ret) := TransferAll(rest, left - cc, total, polls);
        (cc + n, ret)
  }

  /** All or an error: the total is returned exactly if everything was moved (it must fit an
      int); a failure or an end of file hides how much was moved. */
  lemma {:induction false} AllOrError(rounds: seq<Round>, left: nat, total: nat, polls: bool)
    ensures var (n, ret) := TransferAll(rounds, left, total, polls);
      && n <= left
      && (n == left ==> ret == Int32(total))
      && (n < left ==> IOINTR <= ret <= IOEOF)
      && (total < 0x8000_0000 ==> Int32(total) == total)
    decreases |rounds|
  {
    if left > 0 {
      var (cc, rest) := Transfer(rounds, left, polls, true);
      TransferCodes(rounds, left, polls);
      if cc > 0 {
        AllOrError(rest, left - cc, total, polls);
      }
    }
  }

  lemma {:induction false} TransferCodes(rounds: seq<Round>, left: nat, polls: bool)
    ensures Transfer(rounds, left, polls, true).0 >= IOINTR
    decreases |rounds|
  {
    if rounds != [] {
      TransferCodes(rounds[1..], left, polls);
    }
  }

  /** Short transfers, interruptions and a descriptor that is not ready do no harm: if the system
      moves `left` bytes in all, in any portions, everything is moved. */
  lemma {:induction false} ShortTransfersComplete(rounds: seq<Round>, left: nat, total: nat, polls: bool)
    requires forall r :: r in rounds ==> r.poll.Ready? && (r.call.Moves? ==> r.call.n > 0) && !r.call.Fails?
    requires Offered(rounds) >= left
    ensures TransferAll(rounds, left, total, polls) == (left, Int32(total))
    decreases |rounds|
  {
    if left > 0 {
      TransferOffered(rounds, left, polls);
      var (cc, rest) := Transfer(rounds, left, polls, true);
      ShortTransfersComplete(rest, left - cc, total, polls);
    }
  }

  /** How many bytes the system is ready to move. */
  function Offered(rounds: seq<Round>): nat {
    if rounds == [] then 0
    else (if rounds[0].call.Moves? then rounds[0].call.n else 0) + Offered(rounds[1..])
  }

  lemma {:induction false} TransferOffered(rounds: seq<Round>, left: nat, polls: bool)
    requires forall r :: r in rounds ==> r.poll.Ready? && (r.call.Moves? ==> r.call.n > 0) && !r.call.Fails?
    requires Offered(rounds) >= left > 0
    ensures var (cc, rest) := Transfer(rounds, left, polls, true);
      && cc > 0 && Offered(rest) >= left - cc
      && forall r :: r in rest ==> r in rounds
    decreases |rounds|
  {
    assert rounds[0] in rounds;
    if !rounds[0].call.Moves? {
      TransferOffered(rounds[1..], left, polls);
    }
  }

  /** The round after which `rwdata` tries again. */
  predicate Retried(r: Round, polls: bool, ignoreEagain: bool) {
    (polls ==> r.poll.Ready?) && (r.call.Interrupted? || (r.call.Again? && ignoreEagain))
  }

  /** The result of any other round. */
  function Result(r: Round, left: nat, polls: bool): int {
    if polls && r.poll.Broken? then -1
    else if polls && r.poll.TimedOut? then -2
    else if polls && r.poll.Notified? then -3
    else if r.call.Moves? then (if r.call.n < left then r.call.n else left)
    else if r.call.Again? then -4
    else -1
  }

  /** `rwdata` returns the result of the first round that is not tried again. */
  lemma {:induction false} FirstResult(rounds: seq<Round>, left: nat, polls: bool, ignoreEagain: bool, i: nat)
    requires i < |rounds| && !Retried(rounds[i], polls, ignoreEagain)
    requires forall j :: 0 <= j < i ==> Retried(rounds[j], polls, ignoreEagain)
    ensures Transfer(rounds, left, polls, ignoreEagain) == (Result(rounds[i], left, polls), rounds[i + 1..])
    decreases i
  {
    if i > 0 {
      FirstResult(rounds[1..], left, polls, ignoreEagain, i - 1);
      assert rounds[1..][i..] == rounds[i + 1..];
    }
  }

  /** A round that does not end `rwvall`: it is tried again, or moves something. */
  predicate GoesOn(r: Round, polls: bool) {
    (polls ==> r.poll.Ready?) && (r.call.Interrupted? || r.call.Again? || (r.call.Moves? && r.call.n > 0))
  }

  /** `rwvall` ends at the first round that does not go on, before everything is moved, with that
      round's result: 0 at the end of the file, -2 for a timeout, -3 for a notification, -1 for an
      error.  What was moved before stays moved. */
  lemma {:induction false} FirstStop(rounds: seq<Round>, left: nat, total: nat, polls: bool, i: nat)
    requires i < |rounds| && !GoesOn(rounds[i], polls) && Offered(rounds[..i]) < left
    requires forall j :: 0 <= j < i ==> GoesOn(rounds[j], polls)
    ensures TransferAll(rounds, left, total, polls) == (Offered(rounds[..i]), Result(rounds[i], left, polls))
    ensures Result(rounds[i], left, polls) <= 0
    decreases i
  {
    hide Transfer, TransferAll;
    if i == 0 {
      StopsAtOnce(rounds, left, total, polls);
    } else {
      var rest := rounds[1..];
      assert rounds[..i][1..] == rest[..i - 1];
      GoesOnce(rounds, left, total, polls);
      FirstStop(rest, left - Moved(rounds[0]), total, polls, i - 1);
    }
  }

  function Moved(r: Round): nat { if r.call.Moves? then r.call.n else 0 }

  lemma StopsAtOnce(rounds: seq<Round>, left: nat, total: nat, polls: bool)
    requires rounds != [] && !GoesOn(rounds[0], polls) && left > 0
    ensures TransferAll(rounds, left, total, polls) == (0, Result(rounds[0], left, polls))
    ensures Result(rounds[0], left, polls) <= 0
  {
  }

  lemma GoesOnce(rounds: seq<Round>, left: nat, total: nat, polls: bool)
    requires rounds != [] && GoesOn(rounds[0], polls) && left > Moved(rounds[0])
    ensures var (n, ret) := TransferAll(rounds[1..], left - Moved(rounds[0]), total, polls);
      TransferAll(rounds, left, total, polls) == (Moved(rounds[0]) + n, ret)
  {
  }

  /** A file descriptor. */
  class Device {
    var rounds: seq<Round>
    /** The addresses whose bytes were transferred, in order. */
    ghost var moved: seq<nat>

    /** `rwdata` with READV or WRITEV, on the vector of `cow`. */
    method RwData(cow: COWIoVec, polls: bool, ignoreEagain: bool) returns (cc: int)
      requires cow.Valid() && cow.iov != null
      modifies this
      ensures (cc, rounds) == Transfer(old(rounds), cow.bytesLeft, polls, ignoreEagain)
      ensures moved == old(moved) + if cc > 0 then cow.Left()[..cc] else []
    {
      hide COWIoVec.Valid, COWIoVec.Left;
      cow.LeftLength();
      while rounds != []
        invariant Transfer(rounds, cow.bytesLeft, polls, ignoreEagain)
                  == Transfer(old(rounds), cow.bytesLeft, polls, ignoreEagain)
        invariant moved == old(moved) && cow.Valid() && cow.iov != null && cow.bytesLeft == |cow.Left()|
        decreases |rounds|
      {
        var round := rounds[0];
        rounds := rounds[1..];
        if polls && !round.poll.Ready? {
          return round.poll.Code();
        }
        match round.call {
          case Moves(n) =>
            cc := Min(n, cow.bytesLeft);
            moved := moved + cow.Left()[..cc];
            return;
          case Again =>
            if !ignoreEagain {
              return IOAGAIN;
            }
          case Interrupted =>
          case Fails =>
            return IOERROR;
        }
      }
      cc := IOERROR;
    }

    /** `rwvall`: moves exactly the bytes of the caller's vector, in order, however they are
        portioned; at an error, the bytes moved are a prefix.  The vector is not modified. */
    method RwvAll(iov: array<Piece>, polls: bool) returns (ret: int)
      modifies this
      ensures var (n, r) := TransferAll(old(rounds), |Addresses(iov[..])|, |Addresses(iov[..])|, polls);
        ret == r && n <= |Addresses(iov[..])| && moved == old(moved) + Addresses(iov[..])[..n]
    {
      hide Transfer, TransferAll, Addresses, COWIoVec.Valid, COWIoVec.Left, Underway;
      var cow := new COWIoVec(iov);
      cow.LeftLength();
      ghost var all := Addresses(iov[..]);
      ghost var goal := TransferAll(rounds, |all|, |all|, polls);
      var total := cow.bytesLeft;
      ghost var n: nat := 0;
      UnderwayStart(goal, rounds, polls, all, moved);
      while cow.bytesLeft > 0
        invariant cow.Valid() && fresh(cow) && cow.caller == iov && (cow.copied && cow.iov != null ==> fresh(cow.iov))
        invariant cow.bytesLeft == |cow.Left()| && (cow.iov == null ==> cow.bytesLeft == 0)
        invariant Underway(goal, rounds, polls, all, n, cow.Left(), old(moved), moved)
        decreases cow.bytesLeft
      {
        UnderwayStep(goal, rounds, polls, all, n, cow.Left(), old(moved), moved);
        var cc := RwData(cow, polls, true);
        if cc <= 0 {
          return cc;
        }
        cow.Consume(cc);
        cow.LeftLength();
        n := n + cc;
      }
      UnderwayEnd(goal, rounds, polls, all, n, cow.Left(), old(moved), moved);
      ret := Int32(total);
    }
  }

  /** `n` bytes were moved, and what is to come adds up to the goal. */
  ghost predicate Underway(goal: (nat, int), rounds: seq<Round>, polls: bool, all: seq<nat>, n: nat, left: seq<nat>,
                           before: seq<nat>, moved: seq<nat>) {
    && n <= |all| && left == all[n..] && moved == before + all[..n]
    && var r := TransferAll(rounds, |left|, |all|, polls); goal == (n + r.0, r.1)
  }

  lemma UnderwayStart(goal: (nat, int), rounds: seq<Round>, polls: bool, all: seq<nat>, moved: seq<nat>)
    requires goal == TransferAll(rounds, |all|, |all|, polls)
    ensures Underway(goal, rounds, polls, all, 0, all, moved, moved)
  {
    assert all[0..] == all && moved + all[..0] == moved;
  }

  lemma UnderwayStep(goal: (nat, int), rounds: seq<Round>, polls: bool, all: seq<nat>, n: nat, left: seq<nat>,
                     before: seq<nat>, moved: seq<nat>)
    requires Underway(goal, rounds, polls, all, n, left, before, moved) && left != []
    ensures var (cc, rest) := Transfer(rounds, |left|, polls, true);
      if cc <= 0 then goal == (n, cc) && n <= |all| && moved + [] == before + all[..n]
      else Underway(goal, rest, polls, all, n + cc, left[cc..], before, moved + left[..cc])
  {
    hide Transfer;
    var (cc, rest) := Transfer(rounds, |left|, polls, true);
    if cc > 0 {
      assert before + all[..n] + all[n..][..cc] == before + all[..n + cc];
      assert all[n..][cc..] == all[n + cc..];
    }
  }

  lemma UnderwayEnd(goal: (nat, int), rounds: seq<Round>, polls: bool, all: seq<nat>, n: nat, left: seq<nat>,
                    before: seq<nat>, moved: seq<nat>)
    requires Underway(goal, rounds, polls, all, n, left, before, moved)
    ensures |left| == 0 ==> goal == (n, Int32(|all|)) && n == |all| && moved == before + all[..n]
  {
  }
}
