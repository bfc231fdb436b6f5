/** The allocation table of memory/Memory.h: open addressing without wrap-around, counting
    the live blocks and bytes of each place that allocates. */
module MemTable {
  import opened Util

  /** Three return addresses. */
  datatype Frames = Frames(a: nat, b: nat, c: nat)

  const NO_FRAMES := Frames(0, 0, 0)
  const SIZE_LIMIT: nat := 0x1_0000_0000

  datatype Entry = Entry(frames: Frames, live: int, lastLive: int, size: nat) {
    /** A slot is in use once its first frame is set. */
    predicate Used() { frames.a != 0 }
  }

  const EMPTY := Entry(NO_FRAMES, 0, 0, 0)

  /** The header of an allocated block: its slot and its size. */
  datatype Block = Block(entry: nat, size: nat)

  // ----- probing -----

  predicate Stops(e: Entry, frames: Frames) { !e.Used() || e.frames == frames }

  /** The first slot from `k` on that is free or holds `frames`; None if probing runs past the
      end of the table. */
  function Probe(table: seq<Entry>, frames: Frames, k: nat): Option<nat>
    decreases |table| - k
  {
    if k >= |table| then None
    else if Stops(table[k], frames) then Some(k)
    else Probe(table, frames, k + 1)
  }

  /** Probing stays in the table exactly if some slot at or behind the key stops it. */
  lemma {:induction false} ProbeStops(table: seq<Entry>, frames: Frames, k: nat)
    ensures Probe(table, frames, k).Some? <==> exists j :: k <= j < |table| && Stops(table[j], frames)
    ensures Probe(table, frames, k).Some? ==>
      var j := Probe(table, frames, k).value;
      k <= j < |table| && Stops(table[j], frames) && forall i :: k <= i < j ==> !Stops(table[i], frames)
    decreases |table| - k
  {
    if k < |table| && !Stops(table[k], frames) {
      ProbeStops(table, frames, k + 1);
    }
  }

  /** It does run out of any table: two callers with the last key need two slots, and after the
      first allocation of the one, the other is not found. */
  lemma ProbeRunsOut(n: nat, key: Frames -> nat, f: Frames, g: Frames, size: nat)
    requires n > 0 && f.a != 0 && g != f && key(f) == key(g) == n - 1
    ensures var empty := seq(n, _ => EMPTY);
      && Probe(empty, f, key(f)) == Some(n - 1) == Probe(empty, g, key(g))
      && Probe(empty[n - 1 := Incremented(EMPTY, f, size)], g, key(g)) == None
  {
    var empty := seq(n, _ => EMPTY);
    var table := empty[n - 1 := Incremented(EMPTY, f, size)];
    ProbeStops(table, g, n - 1);
    ProbeStops(empty, f, n - 1);
    ProbeStops(empty, g, n - 1);
    assert Stops(empty[n - 1], f) && Stops(empty[n - 1], g);
  }

  // ----- the table and the blocks in use -----

  /** How many blocks belong to a slot. */
  function Count(blocks: seq<Block>, slot: nat): nat {
    if blocks == [] then 0 else (if blocks[0].entry == slot then 1 else 0) + Count(blocks[1..], slot)
  }

  function Bytes(blocks: seq<Block>, slot: nat): nat {
    if blocks == [] then 0 else (if blocks[0].entry == slot then blocks[0].size else 0) + Bytes(blocks[1..], slot)
  }

  function Remove<T>(s: seq<T>, i: nat): seq<T>
    requires i < |s|
  {
    s[..i] + s[i + 1..]
  }

  lemma {:induction false} RemoveCounts(blocks: seq<Block>, i: nat, slot: nat)
    requires i < |blocks|
    ensures Count(Remove(blocks, i), slot) == Count(blocks, slot) - (if blocks[i].entry == slot then 1 else 0)
    ensures Bytes(Remove(blocks, i), slot) == Bytes(blocks, slot) - (if blocks[i].entry == slot then blocks[i].size else 0)
    decreases i
  {
    if i == 0 {
      assert Remove(blocks, 0) == blocks[1..];
    } else {
      RemoveCounts(blocks[1..], i - 1, slot);
      assert Remove(blocks, i)[1..] == Remove(blocks[1..], i - 1);
    }
  }

  lemma {:induction false} NoneCount(blocks: seq<Block>, slot: nat)
    requires forall b :: b in blocks ==> b.entry != slot
    ensures Count(blocks, slot) == 0 && Bytes(blocks, slot) == 0
  {
    if blocks != [] {
      NoneCount(blocks[1..], slot);
    }
  }

  /** Slots are used by different frames, and lie behind used slots from the key of their frames
      on, so that probing finds them. */
  ghost predicate Reachable(table: seq<Entry>, key: Frames -> nat) {
    && (forall j :: 0 <= j < |table| && table[j].Used() ==>
          key(table[j].frames) <= j && UsedFrom(table, key(table[j].frames), j))
    && Distinct(table)
  }

  ghost predicate Distinct(table: seq<Entry>) {
    forall j, k :: 0 <= j < k < |table| && table[j].Used() && table[k].Used() ==> table[j].frames != table[k].frames
  }

  ghost predicate UsedFrom(table: seq<Entry>, k: nat, j: nat) {
    forall i :: k <= i < j < |table| ==> table[i].Used()
  }

  /** Each slot counts the blocks that belong to it; its bytes wrap around at 32 bits. */
  ghost predicate Counted(table: seq<Entry>, blocks: seq<Block>) {
    && (forall b :: b in blocks ==> b.entry < |table| && table[b.entry].Used())
    && forall j :: 0 <= j < |table| ==>
         if table[j].Used() then table[j].live == Count(blocks, j) && table[j].size == Bytes(blocks, j) % SIZE_LIMIT
         else table[j].size == 0
  }

  /** Probing finds the slot that holds some frames, if there is one. */
  lemma ProbeFinds(table: seq<Entry>, key: Frames -> nat, j: nat)
    requires Reachable(table, key) && j < |table| && table[j].Used()
    ensures Probe(table, table[j].frames, key(table[j].frames)) == Some(j)
  {
    var f := table[j].frames;
    ProbeStops(table, f, key(f));
    assert Stops(table[j], f);
  }

  // ----- what the table stands for -----

  /** Live blocks and bytes by frames. */
  ghost function View(table: seq<Entry>): map<Frames, (int, nat)> {
    if table == [] then map[]
    else
      var n := |table| - 1;
      if table[n].Used() then View(table[..n])[table[n].frames := (table[n].live, table[n].size)] else View(table[..n])
  }

  /** With different frames in different slots, the view holds exactly what the used slots do. */
  lemma {:induction false} ViewHolds(table: seq<Entry>)
    requires Distinct(table)
    ensures forall j :: 0 <= j < |table| && table[j].Used() ==>
      table[j].frames in View(table) && View(table)[table[j].frames] == (table[j].live, table[j].size)
    ensures forall f :: f in View(table) ==> exists j :: 0 <= j < |table| && table[j].Used() && table[j].frames == f
    decreases |table|
  {
    if table != [] {
      var n := |table| - 1;
      var front := table[..n];
      ViewHolds(front);
      forall j | 0 <= j < |table| && table[j].Used()
        ensures table[j].frames in View(table) && View(table)[table[j].frames] == (table[j].live, table[j].size)
      {
        if j < n {
          assert front[j] == table[j];
        }
      }
      forall f | f in View(table) ensures exists j :: 0 <= j < |table| && table[j].Used() && table[j].frames == f {
        if !(table[n].Used() && f == table[n].frames) {
          var j :| 0 <= j < |front| && front[j].Used() && front[j].frames == f;
          assert table[j] == front[j];
        }
      }
    }
  }

  /** Writing a slot changes the view at its frames only. */
  lemma ViewUpdate(table: seq<Entry>, j: nat, e: Entry)
    requires j < |table| && Distinct(table) && Distinct(table[j := e])
    requires e.Used() && (table[j].Used() ==> table[j].frames == e.frames)
    ensures View(table[j := e]) == View(table)[e.frames := (e.live, e.size)]
  {
    hide View;
    var table' := table[j := e];
    ViewHolds(table);
    ViewHolds(table');
    hide Distinct;
    var v, v' := View(table), View(table');
    assert table'[j] == e;
    forall f ensures f in v' <==> f in v || f == e.frames {
      SameKeys(table, j, e, f);
    }
    forall f | f in v' && f != e.frames ensures v'[f] == v[f] {
      var i :| 0 <= i < |table| && table'[i].Used() && table'[i].frames == f;
      assert table[i] == table'[i];
    }
  }

  lemma SameKeys(table: seq<Entry>, j: nat, e: Entry, f: Frames)
    requires j < |table| && Distinct(table) && Distinct(table[j := e])
    requires e.Used() && (table[j].Used() ==> table[j].frames == e.frames)
    ensures f in View(table[j := e]) <==> f in View(table) || f == e.frames
  {
    hide View;
    var table' := table[j := e];
    ViewHolds(table);
    ViewHolds(table');
    hide Distinct;
    assert table'[j] == e;
    if f in View(table) {
      var i :| 0 <= i < |table| && table[i].Used() && table[i].frames == f;
      assert table'[i].Used() && table'[i].frames == f;
    }
    if f in View(table') {
      var i :| 0 <= i < |table| && table'[i].Used() && table'[i].frames == f;
      assert i != j ==> table[i] == table'[i];
    }
  }

  // ----- the operations -----

  const TABLE_SIZE: nat := 1024

  class DbgMemInfo {
    const table: array<Entry>
    var entries: int
    const hash: Frames -> nat
    /** The blocks in use. */
    ghost var blocks: seq<Block>

    function Key(frames: Frames): nat { hash(frames) % TABLE_SIZE }

    ghost predicate Valid()
      reads this, table
    {
      table.Length == TABLE_SIZE && Reachable(table[..], Key) && Counted(table[..], blocks)
    }

    constructor (hash: Frames -> nat)
      ensures Valid() && blocks == [] && fresh(table) && View(table[..]) == map[]
    {
      this.hash := hash;
      table := new Entry[TABLE_SIZE](_ => EMPTY);
      entries := 0;
      blocks := [];
      new;
      ViewEmpty(table[..]);
    }

    /** `find`: the slot where probing stops, which must be in the table. */
    method Find(frames: Frames) returns (key: nat)
      requires Probe(table[..], frames, Key(frames)).Some?
      ensures Probe(table[..], frames, Key(frames)) == Some(key) && key < table.Length
    {
      key := Key(frames);
      ProbeStops(table[..], frames, key);
      while table[key].Used() && table[key].frames != frames
        invariant key < table.Length && Probe(table[..], frames, key) == Probe(table[..], frames, Key(frames))
        decreases table.Length - key
      {
        key := key + 1;
        ProbeStops(table[..], frames, key);
      }
    }

    /** `inc`: a block is counted for its frames. */
    method Inc(frames: Frames, size: nat) returns (entry: nat)
      requires Valid() && frames.a != 0 && size < SIZE_LIMIT && Probe(table[..], frames, Key(frames)).Some?
      modifies this, table
      ensures Valid() && blocks == old(blocks) + [Block(entry, size)]
      ensures var (live, bytes) := Totals(old(View(table[..])), frames);
        View(table[..]) == old(View(table[..]))[frames := (live + 1, (bytes + size) % SIZE_LIMIT)]
    {
      hide View, Reachable, Counted, Probe;
      entry := Find(frames);
      ghost var was := table[..];
      var e := table[entry];
      if !e.Used() {
        e := e.(frames := frames, live := 1, lastLive := 0);
      } else {
        e := e.(live := e.live + 1);
      }
      e := e.(size := (e.size + size) % SIZE_LIMIT);
      table[entry] := e;
      entries := entries + 1;
      blocks := blocks + [Block(entry, size)];
      assert e == Incremented(was[entry], frames, size) && table[..] == was[entry := e];
      Allocated(was, Key, old(blocks), frames, size, entry);
    }

    /** `dec` of a block in use: neither PANIC is reached. */
    method Dec(mem: Block, ghost i: nat) returns (entry: nat)
      requires Valid() && i < |blocks| && blocks[i] == mem
      modifies this, table
      ensures Valid() && blocks == Remove(old(blocks), i) && entry == mem.entry
      ensures var frames := old(table[mem.entry].frames);
        && frames in old(View(table[..]))
        && var (live, bytes) := old(View(table[..]))[frames];
           View(table[..]) == old(View(table[..]))[frames := (live - 1, (bytes - mem.size) % SIZE_LIMIT)]
    {
      hide View, Reachable, Counted, Probe;
      ghost var was := table[..];
      Freed(was, Key, blocks, i);
      var frames := table[mem.entry].frames;
      entry := Find(frames);
      var e := table[entry];
      if !e.Used() {
        assert false;
      } else {
        e := e.(live := e.live - 1, size := (e.size - mem.size) % SIZE_LIMIT);
        table[entry] := e;
        if e.live < 0 {
          assert false;
        }
      }
      blocks := Remove(blocks, i);
      assert table[..] == was[entry := e];
    }
  }

  /** What is known about some frames; nothing counts as zero. */
  function Totals(view: map<Frames, (int, nat)>, frames: Frames): (int, nat) {
    if frames in view then view[frames] else (0, 0)
  }

  lemma {:induction false} ViewEmpty(table: seq<Entry>)
    requires forall j :: 0 <= j < |table| ==> !table[j].Used()
    ensures View(table) == map[]
    decreases |table|
  {
    if table != [] {
      ViewEmpty(table[..|table| - 1]);
    }
  }

  /** One more block in slot `k`. */
  lemma {:induction false} CountMore(blocks: seq<Block>, b: Block, k: nat)
    ensures Count(blocks + [b], k) == Count(blocks, k) + (if b.entry == k then 1 else 0)
    ensures Bytes(blocks + [b], k) == Bytes(blocks, k) + (if b.entry == k then b.size else 0)
  {
    if blocks == [] {
      assert ([] + [b])[1..] == [];
    } else {
      assert (blocks + [b])[1..] == blocks[1..] + [b];
      CountMore(blocks[1..], b, k);
    }
  }

  /** The slot that an allocation writes. */
  function Incremented(e: Entry, frames: Frames, size: nat): Entry {
    var e' := if !e.Used() then e.(frames := frames, live := 1, lastLive := 0) else e.(live := e.live + 1);
    e'.(size := (e'.size + size) % SIZE_LIMIT)
  }

  lemma Allocated(table: seq<Entry>, key: Frames -> nat, blocks: seq<Block>, frames: Frames, size: nat, j: nat)
    requires Reachable(table, key) && Counted(table, blocks) && frames.a != 0
    requires Probe(table, frames, key(frames)) == Some(j) && j < |table|
    ensures var table' := table[j := Incremented(table[j], frames, size)];
      && Reachable(table', key) && Counted(table', blocks + [Block(j, size)])
      && var (live, bytes) := Totals(View(table), frames);
         View(table') == View(table)[frames := (live + 1, (bytes + size) % SIZE_LIMIT)]
  {
    hide View, Probe, Count, Bytes;
    ProbeStops(table, frames, key(frames));
    var e := Incremented(table[j], frames, size);
    var table' := table[j := e];
    AllocatedReachable(table, key, frames, j, e);
    AllocatedCounted(table, blocks, j, e, Block(j, size));
    ViewHolds(table);
    ViewUpdate(table, j, e);
    if frames in View(table) {
      assert table[j].Used() by {
        var i :| 0 <= i < |table| && table[i].Used() && table[i].frames == frames;
        ProbeFinds(table, key, i);
      }
    } else {
      assert !table[j].Used();
    }
  }

  lemma AllocatedReachable(table: seq<Entry>, key: Frames -> nat, frames: Frames, j: nat, e: Entry)
    requires Reachable(table, key) && frames.a != 0 && j < |table| && e.frames == frames
    requires Probe(table, frames, key(frames)) == Some(j)
    ensures Reachable(table[j := e], key)
  {
    ProbeStops(table, frames, key(frames));
    hide Probe;
    var table' := table[j := e];
    forall k | 0 <= k < |table| && table'[k].Used()
      ensures key(table'[k].frames) <= k && UsedFrom(table', key(table'[k].frames), k)
    {
      if k != j {
        assert UsedFrom(table, key(table[k].frames), k);
      }
    }
    forall k | 0 <= k < |table| && k != j && table[k].Used() ensures table[k].frames != frames {
      if table[k].frames == frames {
        ProbeFinds(table, key, k);
      }
    }
  }

  lemma AllocatedCounted(table: seq<Entry>, blocks: seq<Block>, j: nat, e: Entry, b: Block)
    requires Counted(table, blocks) && j < |table| && b.entry == j && e == Incremented(table[j], e.frames, b.size)
    requires e.Used() && (table[j].Used() ==> table[j].frames == e.frames)
    ensures Counted(table[j := e], blocks + [b])
  {
    hide Count, Bytes;
    if !table[j].Used() {
      NoneCount(blocks, j);
    }
    forall k | 0 <= k < |table|
      ensures Count(blocks + [b], k) == Count(blocks, k) + (if j == k then 1 else 0)
      ensures Bytes(blocks + [b], k) == Bytes(blocks, k) + (if j == k then b.size else 0)
    {
      CountMore(blocks, b, k);
    }
    Wrap(Bytes(blocks, j), b.size);
  }

  /** Sums may be reduced on the way. */
  lemma Wrap(a: int, b: int)
    ensures (a % SIZE_LIMIT + b) % SIZE_LIMIT == (a + b) % SIZE_LIMIT
  {
  }

  /** The slot that freeing a block writes. */
  function Decremented(e: Entry, size: nat): Entry {
    e.(live := e.live - 1, size := (e.size - size) % SIZE_LIMIT)
  }

  lemma Freed(table: seq<Entry>, key: Frames -> nat, blocks: seq<Block>, i: nat)
    requires Reachable(table, key) && Counted(table, blocks) && i < |blocks|
    ensures var j := blocks[i].entry;
      && j < |table| && table[j].Used() && table[j].live > 0
      && Probe(table, table[j].frames, key(table[j].frames)) == Some(j)
      && table[j].frames in View(table)
      && var table' := table[j := Decremented(table[j], blocks[i].size)];
         && Reachable(table', key) && Counted(table', Remove(blocks, i))
         && View(table') == View(table)[table[j].frames := (View(table)[table[j].frames].0 - 1,
                                        (View(table)[table[j].frames].1 - blocks[i].size) % SIZE_LIMIT)]
  {
    hide View, Probe, Count, Bytes;
    var b := blocks[i];
    assert b in blocks;
    var j := b.entry;
    var e := Decremented(table[j], b.size);
    var table' := table[j := e];
    ProbeFinds(table, key, j);
    SameFrames(table, key, j, e);
    FreedCounted(table, blocks, i, e);
    ViewHolds(table);
    ViewUpdate(table, j, e);
  }

  lemma SameFrames(table: seq<Entry>, key: Frames -> nat, j: nat, e: Entry)
    requires Reachable(table, key) && j < |table| && e.frames == table[j].frames
    ensures Reachable(table[j := e], key)
  {
    var table' := table[j := e];
    forall k | 0 <= k < |table| && table'[k].Used()
      ensures key(table'[k].frames) <= k && UsedFrom(table', key(table'[k].frames), k)
    {
      assert UsedFrom(table, key(table[k].frames), k);
    }
  }

  lemma FreedCounted(table: seq<Entry>, blocks: seq<Block>, i: nat, e: Entry)
    requires Counted(table, blocks) && i < |blocks| && blocks[i].entry < |table|
    requires e == Decremented(table[blocks[i].entry], blocks[i].size)
    ensures table[blocks[i].entry].live > 0
    ensures Counted(table[blocks[i].entry := e], Remove(blocks, i))
  {
    hide Count, Bytes;
    var b := blocks[i];
    assert b in blocks;
    forall k | 0 <= k < |table|
      ensures Count(Remove(blocks, i), k) == Count(blocks, k) - (if b.entry == k then 1 else 0)
      ensures Bytes(Remove(blocks, i), k) == Bytes(blocks, k) - (if b.entry == k then b.size else 0)
    {
      RemoveCounts(blocks, i, k);
    }
    Wrap(Bytes(blocks, b.entry), 0 - b.size);
    forall c | c in Remove(blocks, i) ensures c in blocks {
    }
  }
}
