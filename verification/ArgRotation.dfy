/** The block exchange at the heart of argument permutation: `gcd` and
    `permute_args` of compat/getopt_long.c.

    Indices are taken relative to the first non-option.  With `m` non-options,
    `p` options and `n == m + p`, following one cycle means visiting
    `c, c - m, c - 2m, ...` modulo `n`. */
module ArgRotation {

  /** The two blocks of `s[start..end]`, split at `mid`, in exchanged order. */
  function Exchanged<T>(s: seq<T>, start: nat, mid: nat, end: nat): (r: seq<T>)
    requires start <= mid <= end <= |s|
    ensures |r| == |s|
  {
    s[..start] + s[mid..end] + s[start..mid] + s[end..]
  }

  // ----- greatest common divisor -----

  ghost predicate Divides(d: int, a: int) {
    exists q: int :: q * d == a
  }

  ghost predicate IsGcd(g: int, a: int, b: int) {
    && g > 0 && Divides(g, a) && Divides(g, b)
    && forall d: int :: Divides(d, a) && Divides(d, b) ==> Divides(d, g)
  }

  lemma DividesCombination(d: int, a: int, b: int, x: int, y: int)
    requires Divides(d, a) && Divides(d, b)
    ensures Divides(d, x * a + y * b)
  {
    var qa: int :| qa * d == a;
    var qb: int :| qb * d == b;
    assert (x * qa + y * qb) * d == x * (qa * d) + y * (qb * d);
  }

  /** What divides the divisor and the remainder divides the dividend. */
  lemma DividesBoth(a: int, b: int)
    requires b > 0
    ensures forall d: int :: Divides(d, b) && Divides(d, a % b) ==> Divides(d, a)
  {
    hide Divides;
    forall d: int | Divides(d, b) && Divides(d, a % b) ensures Divides(d, a) {
      DividesCombination(d, b, a % b, a / b, 1);
    }
  }

  /** A combination of two numbers that divides both is their greatest common divisor. */
  lemma CombinationIsGcd(g: int, a: int, b: int, x: int, y: int)
    requires g > 0 && Divides(g, a) && Divides(g, b) && g == x * a + y * b
    ensures IsGcd(g, a, b)
  {
    hide Divides;
    forall d: int | Divides(d, a) && Divides(d, b) ensures Divides(d, g) {
      DividesCombination(d, a, b, x, y);
    }
  }

  lemma LastDivides(a: int, b: int)
    requires b > 0 && a % b == 0
    ensures Divides(b, a) && Divides(b, b)
  {
    assert (a / b) * b == a && 1 * b == b;
  }

  /** Euclid's loop.  The Bezout coefficients are what makes cycles of the
      rotation close up exactly. */
  method Gcd(a: int, b: int) returns (g: int, ghost x: int, ghost y: int)
    requires a > 0 && b > 0
    ensures IsGcd(g, a, b)
    ensures g == x * a + y * b
  {
    hide Divides, IsGcd;
    var a', b' := a, b;
    ghost var xa, ya, xb, yb := 1, 0, 0, 1;
    var c := a' % b';
    while c != 0
      invariant b' > 0 && 0 <= c == a' % b' < b'
      invariant a' == xa * a + ya * b
      invariant b' == xb * a + yb * b
      invariant forall d: int :: Divides(d, a') && Divides(d, b') ==> Divides(d, a) && Divides(d, b)
      decreases b'
    {
      ghost var q := a' / b';
      assert c == a' - q * b';
      CombinationStep(a, b, xa, ya, xb, yb, q);
      DividesBoth(a', b');
      xa, ya, xb, yb := xb, yb, xa - q * xb, ya - q * yb;
      a' := b';
      b' := c;
      c := a' % b';
    }
    g, x, y := b', xb, yb;
    LastDivides(a', b');
    CombinationIsGcd(g, a, b, x, y);
  }

  lemma CombinationStep(a: int, b: int, xa: int, ya: int, xb: int, yb: int, q: int)
    ensures (xa * a + ya * b) - q * (xb * a + yb * b) == (xa - q * xb) * a + (ya - q * yb) * b
  {
  }

  // ----- one cycle -----

  /** One move of the inner loop, relative to the first non-option. */
  function Hop(q: int, m: int, n: int): (r: int)
    requires 0 < m < n && 0 <= q < n
    ensures 0 <= r < n
  {
    if q >= m then q - m else q + (n - m)
  }

  /** Where `k` moves from `c` lead. */
  function Pos(c: int, k: nat, m: int, n: int): (r: int)
    requires 0 < m < n && 0 <= c < n
    ensures 0 <= r < n
  {
    if k == 0 then c else Hop(Pos(c, k - 1, m, n), m, n)
  }

  /** `k` moves subtract `k * m`, up to `t` laps. */
  lemma {:induction false} PosLaps(c: int, k: nat, m: int, n: int) returns (t: int)
    requires 0 < m < n && 0 <= c < n
    ensures Pos(c, k, m, n) == c - k * m + t * n
  {
    if k == 0 {
      t := 0;
    } else {
      t := PosLaps(c, k - 1, m, n);
      assert (k - 1) * m == k * m - m;
      if Pos(c, k - 1, m, n) < m {
        assert (t + 1) * n == t * n + n;
        t := t + 1;
      }
    }
  }

  /** The arithmetic of one exchange: `m` non-options among `n` arguments split
      into `g` cycles of `len` moves, and `x * m` is `g` up to whole laps. */
  datatype Ring = Ring(m: int, n: int, g: int, len: int, mg: int, x: int, y: int) {
    ghost predicate Valid() {
      && 0 < m < n && 0 < g && 0 < len
      && n == len * g && m == mg * g
      && x * m + y * n == g
    }
  }

  lemma RingFromGcd(m: int, p: int, g: int, x: int, y: int) returns (r: Ring)
    requires m > 0 && p > 0 && IsGcd(g, m, p) && g == x * m + y * p
    ensures r.Valid() && r.m == m && r.n == m + p && r.g == g && r.len == (m + p) / g
    ensures g <= p
  {
    var qm: int :| qm * g == m;
    var qp: int :| qp * g == p;
    assert m + p == (qm + qp) * g;
    ModUnique(m + p, g, qm + qp, 0);
    assert (x - y) * m + y * (m + p) == x * m + y * p;
    PositiveFactor(qm, g);
    PositiveFactor(qp, g);
    r := Ring(m, m + p, g, (m + p) / g, qm, x - y, y);
  }

  lemma PositiveFactor(q: int, g: int)
    requires g > 0 && q * g > 0
    ensures q >= 1 && g <= q * g
  {
    if q >= 1 { MulMonotone(1, q, g); } else { MulMonotone(q, 0, g); }
  }

  lemma MulMonotone(a: int, b: int, g: int)
    requires a <= b && g >= 0
    ensures a * g <= b * g
  {
  }

  lemma ModUnique(a: int, g: int, q: int, r: int)
    requires g > 0 && 0 <= r < g && a == q * g + r
    ensures a % g == r && a / g == q
  {
    var d := a / g - q;
    assert a == (a / g) * g + a % g;
    assert d * g == r - a % g;
    if d >= 1 { MulMonotone(1, d, g); }
    if d <= -1 { MulMonotone(d, -1, g); }
  }

  lemma Distribute(a: int, b: int, c: int) ensures (b + c) * a == b * a + c * a {}
  lemma Assoc(a: int, b: int, c: int) ensures a * (b * c) == (a * b) * c {}
  lemma Swap(a: int, b: int, c: int) ensures a * (b * c) == b * (a * c) {}

  lemma CancelRight(a: int, b: int, g: int)
    requires g > 0 && a * g == b * g
    ensures a == b
  {
    Subtract(g, a, b);
    if a - b >= 1 { MulMonotone(1, a - b, g); }
    if a - b <= -1 { MulMonotone(a - b, -1, g); }
  }

  lemma SameResidue(a: int, b: int, t: int, n: int)
    requires 0 <= a < n && 0 <= b < n && a == b + t * n
    ensures a == b
  {
    if t >= 1 { MulMonotone(1, t, n); }
    if t <= -1 { MulMonotone(t, -1, n); }
  }

  /** `d * x * m` is `d * g` up to whole laps. */
  lemma BezoutTimes(r: Ring, d: int)
    requires r.Valid()
    ensures (d * r.x) * r.m == d * r.g - (d * r.y) * r.n
  {
    Assoc(d, r.x, r.m);
    Assoc(d, r.y, r.n);
    Distribute(d, r.x * r.m, r.y * r.n);
  }

  /** If `d * m` is a whole number of laps, `len` divides `d`. */
  lemma LapsDivide(r: Ring, d: int, t: int) returns (w: int)
    requires r.Valid() && d * r.m == t * r.n
    ensures d == w * r.len
  {
    w := r.x * t + d * r.y;
    BezoutTimes(r, d);
    Substitute(r.x, d, r.m, t, r.n);
    Distribute(r.n, r.x * t, d * r.y);
    Assoc(w, r.len, r.g);
    CancelRight(d, w * r.len, r.g);
  }

  lemma Substitute(x: int, d: int, m: int, t: int, n: int)
    requires d * m == t * n
    ensures (d * x) * m == (x * t) * n
  {
    Assoc(x, d, m);
    Assoc(x, t, n);
  }

  /** The positions of one cycle are distinct. */
  lemma PosDistinct(r: Ring, c: int, j: nat, k: nat)
    requires r.Valid() && 0 <= c < r.n && j < k < j + r.len
    ensures Pos(c, j, r.m, r.n) != Pos(c, k, r.m, r.n)
  {
    if Pos(c, j, r.m, r.n) == Pos(c, k, r.m, r.n) {
      var s := PosLaps(c, j, r.m, r.n);
      var t := PosLaps(c, k, r.m, r.n);
      Subtract(r.m, k, j);
      Subtract(r.n, t, s);
      var w := LapsDivide(r, k - j, t - s);
      if w >= 1 { MulMonotone(1, w, r.len); } else { MulMonotone(w, 0, r.len); }
      assert false;
    }
  }

  lemma Subtract(a: int, b: int, c: int) ensures (b - c) * a == b * a - c * a {}

  lemma FullCycle(r: Ring)
    requires r.Valid()
    ensures r.len * r.m == r.mg * r.n
  {
    Swap(r.len, r.mg, r.g);
  }

  /** A cycle returns to its start after exactly `len` moves. */
  lemma PosReturns(r: Ring, c: int)
    requires r.Valid() && 0 <= c < r.n
    ensures Pos(c, r.len, r.m, r.n) == c
  {
    var t := PosLaps(c, r.len, r.m, r.n);
    FullCycle(r);
    Subtract(r.n, t, r.mg);
    SameResidue(Pos(c, r.len, r.m, r.n), c, t - r.mg, r.n);
  }

  /** A cycle keeps its distance to the start a multiple of `g`, ... */
  lemma PosResidue(r: Ring, c: int, k: nat) returns (s: int)
    requires r.Valid() && 0 <= c < r.n
    ensures Pos(c, k, r.m, r.n) == c - s * r.g
  {
    var t := PosLaps(c, k, r.m, r.n);
    Assoc(k, r.mg, r.g);
    Assoc(t, r.len, r.g);
    s := k * r.mg - t * r.len;
    Subtract(r.g, k * r.mg, t * r.len);
  }

  /** ... and reaches every position at such a distance. */
  lemma PosCovers(r: Ring, c: int, q: int, s: int) returns (k: nat)
    requires r.Valid() && 0 <= c < r.n && 0 <= q < r.n && q == c - s * r.g
    ensures 1 <= k <= r.len && Pos(c, k, r.m, r.n) == q
  {
    var w;
    k, w := OneToLen(s * r.x, r.len);
    var t := PosLaps(c, k, r.m, r.n);
    BezoutTimes(r, s);
    Subtract(r.m, s * r.x, w * r.len);
    assert (w * r.len) * r.m == (w * r.mg) * r.n by {
      Assoc(w, r.len, r.m);
      FullCycle(r);
      Assoc(w, r.mg, r.n);
    }
    AddThree(r.n, s * r.y, w * r.mg, t);
    SameResidue(Pos(c, k, r.m, r.n), q, s * r.y + w * r.mg + t, r.n);
  }

  lemma AddThree(a: int, b: int, c: int, d: int) ensures (b + c + d) * a == b * a + c * a + d * a {}

  lemma OneToLen(a: int, len: int) returns (k: nat, w: int)
    requires len > 0
    ensures 1 <= k <= len && k == a - w * len
  {
    w := (a - 1) / len;
    k := (a - 1) % len + 1;
  }

  // ----- the exchange -----

  /** Where the argument that ends up at `q` comes from. */
  function Source(q: int, m: int, n: int): (r: int)
    requires 0 < m < n && 0 <= q < n
    ensures 0 <= r < n && Hop(r, m, n) == q
  {
    if q < n - m then q + m else q - (n - m)
  }

  ghost predicate Visited(c: int, q: int, j: nat, m: int, n: int)
    requires 0 < m < n && 0 <= c < n
  {
    exists k: nat {:trigger Pos(c, k, m, n)} :: 1 <= k <= j && Pos(c, k, m, n) == q
  }

  /** The state after `j` swaps of the cycle through `c`: visited slots hold their
      final argument, slot `c` carries the argument of the last visited slot. */
  ghost predicate CycleState<T>(now: seq<T>, was: seq<T>, before: seq<T>, c: int, j: nat, len: int, m: int, n: int)
    requires 0 < m < n && 0 <= c < n && |now| == |was| == |before| == n
  {
    && (forall q :: 0 <= q < n && q != c && Visited(c, q, j, m, n) ==> now[q] == was[Source(q, m, n)])
    && (forall q :: 0 <= q < n && q != c && !Visited(c, q, j, m, n) ==> now[q] == before[q])
    && now[c] == was[if j < len then Pos(c, j, m, n) else Source(c, m, n)]
  }

  /** The state after `i` cycles: exactly the residues below `i` are final. */
  ghost predicate RingState<T>(now: seq<T>, was: seq<T>, i: int, g: int, m: int, n: int)
    requires 0 < m < n && g > 0 && |now| == |was| == n
  {
    forall q :: 0 <= q < n ==> now[q] == was[if q % g < i then Source(q, m, n) else q]
  }

  lemma CycleStart<T>(r: Ring, before: seq<T>, was: seq<T>, i: int)
    requires r.Valid() && 0 <= i < r.g && r.m + i < r.n
    requires |was| == |before| == r.n && RingState(before, was, i, r.g, r.m, r.n)
    ensures CycleState(before, was, before, r.m + i, 0, r.len, r.m, r.n)
  {
    ModUnique(r.m + i, r.g, r.mg, i);
  }

  /** Before its last move, a cycle reaches a slot that no cycle has touched. */
  lemma NextSlotFresh<T>(r: Ring, before: seq<T>, was: seq<T>, i: int, j: nat)
    requires r.Valid() && 0 <= i < r.g && r.m + i < r.n && j + 1 < r.len
    requires |before| == |was| == r.n && RingState(before, was, i, r.g, r.m, r.n)
    ensures var c, p := r.m + i, Pos(r.m + i, j + 1, r.m, r.n);
            p != c && !Visited(c, p, j, r.m, r.n) && before[p] == was[p]
  {
    var c := r.m + i;
    var p := Pos(c, j + 1, r.m, r.n);
    PosDistinct(r, c, 0, j + 1);
    if Visited(c, p, j, r.m, r.n) {
      var k: nat :| 1 <= k <= j && Pos(c, k, r.m, r.n) == p;
      PosDistinct(r, c, k, j + 1);
      assert false;
    }
    var s := PosResidue(r, c, j + 1);
    Subtract(r.g, r.mg, s);
    ModUnique(p, r.g, r.mg - s, i);
  }

  lemma VisitedStep(c: int, q: int, j: nat, m: int, n: int)
    requires 0 < m < n && 0 <= c < n
    ensures Visited(c, q, j + 1, m, n) <==> Visited(c, q, j, m, n) || q == Pos(c, j + 1, m, n)
  {
    if q == Pos(c, j + 1, m, n) {
      assert Visited(c, q, j + 1, m, n);
    }
  }

  lemma CycleStep<T>(now: seq<T>, next: seq<T>, was: seq<T>, before: seq<T>, c: int, j: nat, len: int, m: int, n: int)
    requires 0 < m < n && 0 <= c < n && j < len
    requires |now| == |next| == |was| == |before| == n
    requires CycleState(now, was, before, c, j, len, m, n)
    requires var p := Pos(c, j + 1, m, n);
             && Swapped(now, next, p, c)
             && if j + 1 < len then p != c && !Visited(c, p, j, m, n) && before[p] == was[p] else p == c
    ensures CycleState(next, was, before, c, j + 1, len, m, n)
  {
    var p := Pos(c, j + 1, m, n);
    assert Source(p, m, n) == Pos(c, j, m, n);
    forall q | 0 <= q < n && q != c
      ensures next[q] == if Visited(c, q, j + 1, m, n) then was[Source(q, m, n)] else before[q]
    {
      VisitedStep(c, q, j, m, n);
    }
  }

  /** A full cycle through `m + i` completes exactly the residue class `i`. */
  lemma CycleDone<T>(r: Ring, now: seq<T>, was: seq<T>, before: seq<T>, i: int)
    requires r.Valid() && 0 <= i < r.g && r.m + i < r.n
    requires |now| == |was| == |before| == r.n
    requires RingState(before, was, i, r.g, r.m, r.n)
    requires CycleState(now, was, before, r.m + i, r.len, r.len, r.m, r.n)
    ensures RingState(now, was, i + 1, r.g, r.m, r.n)
  {
    assert 0 < r.m < r.n;
    hide Visited, Ring.Valid, Source;
    forall q | 0 <= q < r.n
      ensures now[q] == was[if q % r.g < i + 1 then Source(q, r.m, r.n) else q]
    {
      VisitedIsResidue(r, i, q);
      if q == r.m + i {
        VisitedLast(r, q);
      }
    }
  }

  lemma VisitedLast(r: Ring, c: int)
    requires r.Valid() && 0 <= c < r.n
    ensures Visited(c, c, r.len, r.m, r.n)
  {
    PosReturns(r, c);
    assert Pos(c, r.len, r.m, r.n) == c;
  }

  /** A full cycle through `m + i` visits exactly the residue class `i`. */
  lemma VisitedIsResidue(r: Ring, i: int, q: int)
    requires r.Valid() && 0 <= i < r.g && r.m + i < r.n && 0 <= q < r.n
    ensures Visited(r.m + i, q, r.len, r.m, r.n) <==> q % r.g == i
  {
    var c := r.m + i;
    if q % r.g == i {
      assert q == (q / r.g) * r.g + i;
      Subtract(r.g, r.mg, q / r.g);
      var k := PosCovers(r, c, q, r.mg - q / r.g);
      assert Visited(c, q, r.len, r.m, r.n);
    }
    if Visited(c, q, r.len, r.m, r.n) {
      var k: nat :| 1 <= k <= r.len && Pos(c, k, r.m, r.n) == q;
      var s := PosResidue(r, c, k);
      Subtract(r.g, r.mg, s);
      ModUnique(q, r.g, r.mg - s, i);
    }
  }

  lemma RingStart<T>(r: Ring, was: seq<T>)
    requires r.Valid() && |was| == r.n
    ensures RingState(was, was, 0, r.g, r.m, r.n)
  {
  }

  /** The block of the first `m` has gone behind the rest. */
  ghost predicate Turned<T>(now: seq<T>, was: seq<T>, m: int)
    requires 0 <= m <= |was|
  {
    now == was[m..] + was[..m]
  }

  lemma RingDone<T>(r: Ring, now: seq<T>, was: seq<T>)
    requires r.Valid() && |now| == |was| == r.n
    requires RingState(now, was, r.g, r.g, r.m, r.n)
    ensures Turned(now, was, r.m)
  {
    forall q | 0 <= q < r.n ensures now[q] == (was[r.m..] + was[..r.m])[q] {
      assert q % r.g < r.g;
    }
  }

  lemma SwapInSlice<T>(full: seq<T>, start: nat, end: nat, p: nat, c: nat)
    requires start <= p < end <= |full| && start <= c < end
    ensures var next := full[p := full[c]][c := full[p]];
            && next[..start] == full[..start] && next[end..] == full[end..]
            && var now := full[start..end];
               next[start..end] == now[p - start := now[c - start]][c - start := now[p - start]]
  {
  }

  /** Swaps two elements inside a slice. */
  method SwapElements<T>(argv: array<T>, start: nat, end: nat, pos: nat, cstart: nat)
    requires start <= pos < end <= argv.Length && start <= cstart < end
    modifies argv
    ensures argv[..start] == old(argv[..start]) && argv[end..] == old(argv[end..])
    ensures var now := old(argv[start..end]);
      argv[start..end] == now[pos - start := now[cstart - start]][cstart - start := now[pos - start]]
  {
    ghost var full := argv[..];
    var swap := argv[pos];
    argv[pos] := argv[cstart];
    argv[cstart] := swap;
    assert argv[..] == full[pos := full[cstart]][cstart := full[pos]];
    SwapInSlice(full, start, end, pos, cstart);
  }

  /** One move: the next slot of the cycle, and the swap with its first one. */
  method Move<T>(start: nat, mid: nat, end: nat, argv: array<T>, from: nat, cstart: nat) returns (pos: nat)
    requires start < mid < end <= argv.Length && start <= from < end && start <= cstart < end
    modifies argv
    ensures start <= pos < end && pos - start == Hop(from - start, mid - start, end - start)
    ensures argv[..start] == old(argv[..start]) && argv[end..] == old(argv[end..])
    ensures Swapped(old(argv[start..end]), argv[start..end], pos - start, cstart - start)
  {
    pos := from;
    if pos >= mid {
      pos := pos - (mid - start);
    } else {
      pos := pos + (end - mid);
    }
    SwapElements(argv, start, end, pos, cstart);
  }

  ghost predicate Swapped<T>(now: seq<T>, next: seq<T>, p: int, c: int)
    requires 0 <= p < |now| && 0 <= c < |now|
  {
    next == now[p := now[c]][c := now[p]]
  }

  lemma PosStep(c: int, j: nat, m: int, n: int)
    requires 0 < m < n && 0 <= c < n
    ensures Pos(c, j + 1, m, n) == Hop(Pos(c, j, m, n), m, n) && Pos(c, 0, m, n) == c
  {
  }

  /** Nothing outside the range has changed. */
  ghost predicate SameOutside<T>(a: seq<T>, b: seq<T>, start: nat, end: nat)
    requires start <= end <= |a| == |b|
  {
    a[..start] == b[..start] && a[end..] == b[end..]
  }

  /** The range after `i` cycles, and everything else as it was. */
  ghost predicate RangeState<T>(now: seq<T>, full: seq<T>, start: nat, end: nat, i: int, r: Ring)
    requires start <= end <= |now| == |full| && r.Valid() && r.n == end - start
  {
    SameOutside(now, full, start, end) && RingState(now[start..end], full[start..end], i, r.g, r.m, r.n)
  }

  lemma RangeStart<T>(full: seq<T>, start: nat, end: nat, r: Ring)
    requires start <= end <= |full| && r.Valid() && r.n == end - start
    ensures RangeState(full, full, start, end, 0, r)
  {
    RingStart(r, full[start..end]);
  }

  lemma RangeDone<T>(now: seq<T>, full: seq<T>, start: nat, mid: nat, end: nat, r: Ring)
    requires start <= mid <= end <= |now| == |full| && r.Valid() && r.m == mid - start && r.n == end - start
    requires RangeState(now, full, start, end, r.g, r)
    ensures now == Exchanged(full, start, mid, end)
  {
    hide RingState, SameOutside, Exchanged, Turned;
    RingDone(r, now[start..end], full[start..end]);
    Reassemble(now, full, start, mid, end);
  }

  /** One cycle of swaps: the inner loop of `permute_args`. */
  method RunCycle<T>(start: nat, mid: nat, end: nat, argv: array<T>, i: nat, cyclelen: nat,
                     ghost r: Ring, ghost full: seq<T>)
    requires start < mid < end <= argv.Length == |full|
    requires r.Valid() && r.m == mid - start && r.n == end - start && cyclelen == r.len
    requires i < r.g && mid + i < end
    requires RangeState(argv[..], full, start, end, i, r)
    modifies argv
    ensures RangeState(argv[..], full, start, end, i + 1, r)
  {
    hide Ring.Valid, RingState, CycleState, Visited, Pos, Hop, Swapped;
    ghost var was, before := full[start..end], argv[start..end];
    WholeSlice(argv, start, end);
    ghost var c := r.m + i;
    CycleStart(r, before, was, i);
    var cstart := mid + i;
    var pos := cstart;
    var j := 0;
    PosStep(c, 0, r.m, r.n);
    while j < cyclelen
      invariant 0 <= j <= cyclelen
      invariant start <= pos < end && pos - start == Pos(c, j, r.m, r.n)
      invariant argv[..start] == old(argv[..start]) && argv[end..] == old(argv[end..])
      invariant CycleState(argv[start..end], was, before, c, j, r.len, r.m, r.n)
    {
      ghost var now := argv[start..end];
      PosStep(c, j, r.m, r.n);
      pos := Move(start, mid, end, argv, pos, cstart);
      if j + 1 < cyclelen {
        NextSlotFresh(r, before, was, i, j);
      } else {
        PosReturns(r, c);
      }
      CycleStep(now, argv[start..end], was, before, c, j, cyclelen, r.m, r.n);
      j := j + 1;
    }
    CycleDone(r, argv[start..end], was, before, i);
    WholeSlice(argv, start, end);
  }

  lemma WholeSlice<T>(argv: array<T>, start: nat, end: nat)
    requires start <= end <= argv.Length
    ensures argv[..][start..end] == argv[start..end]
  {
  }

  lemma Reassemble<T>(now: seq<T>, was: seq<T>, start: nat, mid: nat, end: nat)
    requires start <= mid <= end <= |now| == |was|
    requires SameOutside(now, was, start, end)
    requires Turned(now[start..end], was[start..end], mid - start)
    ensures now == Exchanged(was, start, mid, end)
  {
    assert now == now[..start] + now[start..end] + now[end..];
    assert was[start..end][mid - start..] == was[mid..end];
    assert was[start..end][..mid - start] == was[start..mid];
  }

  /** How many cycles there are, and how many moves each takes. */
  method Cycles(nnonopts: int, nopts: int) returns (ncycle: int, cyclelen: int, ghost r: Ring)
    requires nnonopts > 0 && nopts > 0
    ensures r.Valid() && r.m == nnonopts && r.n == nnonopts + nopts
    ensures r.g == ncycle && r.len == cyclelen > 0 && 0 < ncycle <= nopts
  {
    hide IsGcd;
    ghost var x, y;
    ncycle, x, y := Gcd(nnonopts, nopts);
    r := RingFromGcd(nnonopts, nopts, ncycle, x, y);
    cyclelen := (nnonopts + nopts) / ncycle;
  }

  /** `permute_args`: exchanges `argv[start..mid]` with `argv[mid..end]` by
      `gcd` cycles of swaps, each slot being written in exactly one cycle. */
  method PermuteArgs<T>(start: nat, mid: nat, end: nat, argv: array<T>)
    requires start < mid < end <= argv.Length
    modifies argv
    ensures argv[..] == Exchanged(old(argv[..]), start, mid, end)
  {
    hide *;
    var ncycle, cyclelen;
    ghost var r;
    ncycle, cyclelen, r := Cycles(mid - start, end - mid);
    ghost var full := argv[..];
    RangeStart(full, start, end, r);
    var i := 0;
    while i < ncycle
      invariant 0 <= i <= ncycle
      invariant RangeState(argv[..], full, start, end, i, r)
    {
      RunCycle(start, mid, end, argv, i, cyclelen, r, full);
      i := i + 1;
    }
    RangeDone(argv[..], full, start, mid, end, r);
  }
}
