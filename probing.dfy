/** Linear probing over a table of slot hashes, as DS_Map and DS_Set use it.
    A slot hash of 0 marks an empty slot; an occupied slot stores its key's hash
    with bit 31 set, so it is never 0. Indices are plain integers: the source's
    `hash & (Capacity - 1)` and `(index + 1) & (Capacity - 1)` are `mod Capacity`
    for the power-of-two capacities a table has (`FirstProbeIsHome`,
    `NextProbeIsNext`). */
module Probing {
  import opened Align
  import opened Growth

  /** An unsigned 32-bit integer, as the slot hashes are. */
  type uint32 = x: int | 0 <= x < 0x1_0000_0000

  /** The slot a probe for `h` starts at. */
  function Home(h: uint32, cap: nat): (r: nat)
    requires cap > 0
    ensures r < cap
  {
    h % cap
  }

  /** The slot after `i`, wrapping around at the end of the table. */
  function Next(i: nat, cap: nat): (r: nat)
    requires i < cap
    ensures r < cap
  {
    if i + 1 == cap then 0 else i + 1
  }

  /** `a & b` on unsigned integers, bit by bit from the lowest bit up. */
  function BitAnd(a: nat, b: nat): (r: nat)
    ensures r <= a && r <= b
  {
    if a == 0 || b == 0 then 0
    else 2 * BitAnd(a / 2, b / 2) + (if a % 2 == 1 && b % 2 == 1 then 1 else 0)
  }

  /** `(uint32_t)Capacity - 1`: the probe mask, all ones when Capacity is 0. */
  function Mask(capacity: int): uint32 {
    (capacity - 1) % 0x1_0000_0000
  }

  /** `hash & mask`: the first slot a probe looks at, as the source computes it. */
  function FirstProbe(h: uint32, capacity: int): (r: uint32)
    ensures r <= h && r <= Mask(capacity)
  {
    BitAnd(h, Mask(capacity))
  }

  /** `(index + 1) & mask`: the slot a probe looks at after `i`, as the source computes it. */
  function NextProbe(i: uint32, capacity: int): (r: uint32)
    requires i < 0xFFFF_FFFF
    ensures r <= i + 1 && r <= Mask(capacity)
  {
    BitAnd(i + 1, Mask(capacity))
  }

  /** Where `h == d * q + x` with `0 <= x < d`, `x` is `h mod d`. */
  lemma ModOfSplit(h: int, d: int, q: int, x: int)
    requires 0 <= x < d && h == d * q + x
    ensures h % d == x
  {
    var q', x' := h / d, h % d;
    assert d * (q - q') == x' - x;
    if q - q' >= 1 { MulAtLeast(q - q', d); }
    else if q - q' <= -1 { MulAtMost(q - q', d); }
  }

  /** For a power of two `p`, masking with `p - 1` keeps the remainder modulo `p`. */
  lemma {:induction false} MaskIsMod(h: nat, p: int)
    requires IsPow2(p)
    ensures BitAnd(h, p - 1) == h % p
    decreases if p < 0 then 0 else p
  {
    if p != 1 && h != 0 {
      var q := p / 2;
      Pow2Positive(q);
      assert (p - 1) / 2 == q - 1 && (p - 1) % 2 == 1;
      MaskIsMod(h / 2, q);
      assert BitAnd(h, p - 1) == 2 * ((h / 2) % q) + h % 2;
      HalfSplit(h, q);
      ModOfSplit(h, p, (h / 2) / q, 2 * ((h / 2) % q) + h % 2);
    }
  }

  /** Splitting `h / 2` by `q` splits `h` by `2 * q`, with the low bit kept. */
  lemma HalfSplit(h: nat, q: int)
    requires q >= 1
    ensures h == (2 * q) * ((h / 2) / q) + (2 * ((h / 2) % q) + h % 2)
    ensures 0 <= 2 * ((h / 2) % q) + h % 2 < 2 * q
  {
    var s, t := (h / 2) / q, (h / 2) % q;
    assert h / 2 == q * s + t;
    assert (2 * q) * s == 2 * (q * s);
  }

  /** Every non-zero capacity of the growth sequence is a power of two. */
  lemma {:induction false} GrowthCapacityIsPow2(c: int)
    requires IsDoubledFrom8(c)
    ensures IsPow2(c)
    decreases if c < 0 then 0 else c
  {
    if c == 8 {
      assert IsPow2(2) && IsPow2(4);
    } else {
      GrowthCapacityIsPow2(c / 2);
    }
  }

  /** The product of two powers of two is one. */
  lemma {:induction false} Pow2Product(a: int, b: int)
    requires IsPow2(a) && IsPow2(b)
    ensures IsPow2(a * b)
    decreases if b < 0 then 0 else b
  {
    if b != 1 {
      var k := b / 2;
      Pow2Product(a, k);
      Pow2Double(a * k);
      assert b == 2 * k;
      assert a * (2 * k) == 2 * (a * k);
    }
  }

  lemma Pow2Double(x: int)
    requires IsPow2(x)
    ensures IsPow2(2 * x)
  {
    Pow2Positive(x);
    assert (2 * x) / 2 == x;
  }

  /** 2^32 is a power of two: the mask of an empty table, `(uint32_t)0 - 1`, is 2^32 - 1. */
  lemma Pow2Of32()
    ensures IsPow2(0x1_0000_0000)
  {
    assert IsPow2(2) && IsPow2(4);
    Pow2Product(4, 4);
    Pow2Product(16, 16);
    Pow2Product(0x100, 0x100);
    Pow2Product(0x1_0000, 0x1_0000);
  }

  /** In a table with slots, the source's first probe is the home slot. */
  lemma FirstProbeIsHome(h: uint32, capacity: int)
    requires IsGrowthCapacity(capacity) && capacity > 0
    ensures FirstProbe(h, capacity) == Home(h, capacity)
  {
    GrowthCapacityIsPow2(capacity);
    if capacity <= 0x1_0000_0000 {
      assert Mask(capacity) == capacity - 1;
      MaskIsMod(h, capacity);
    } else {
      // A mask of 32 ones keeps the whole hash, which is below the capacity.
      Pow2Of32();
      Pow2Divides(0x1_0000_0000, capacity);
      ModOfSplit(capacity - 1, 0x1_0000_0000, capacity / 0x1_0000_0000 - 1, 0xFFFF_FFFF);
      MaskIsMod(h, 0x1_0000_0000);
      ModOfSplit(h, 0x1_0000_0000, 0, h);
      ModOfSplit(h, capacity, 0, h);
    }
  }

  /** In a table with slots, the source's step `(index + 1) & mask` is the
      wrap-around successor. */
  lemma NextProbeIsNext(i: uint32, capacity: int)
    requires IsGrowthCapacity(capacity) && i < capacity <= 0x8000_0000
    ensures NextProbe(i, capacity) == Next(i, capacity)
  {
    GrowthCapacityIsPow2(capacity);
    assert Mask(capacity) == capacity - 1;
    MaskIsMod(i + 1, capacity);
    if i + 1 < capacity {
      ModOfSplit(i + 1, capacity, 0, i + 1);
    } else {
      ModOfSplit(i + 1, capacity, 1, 0);
    }
  }

  /** How many probe steps lead from slot `a` to slot `b`. */
  function Dist(a: nat, b: nat, cap: nat): (r: nat)
    requires a < cap && b < cap
    ensures r < cap
    ensures r == 0 <==> a == b
  {
    if a <= b then b - a else b + cap - a
  }

  /** One probe step moves one slot further from the start, until the table is exhausted. */
  lemma DistNext(a: nat, i: nat, cap: nat)
    requires a < cap && i < cap && Dist(a, i, cap) + 1 < cap
    ensures Dist(a, Next(i, cap), cap) == Dist(a, i, cap) + 1
  {}

  /** A probe from `a` visits every slot once before it comes back. */
  lemma DistInjective(a: nat, x: nat, y: nat, cap: nat)
    requires a < cap && x < cap && y < cap && Dist(a, x, cap) == Dist(a, y, cap)
    ensures x == y
  {}

  /** If `q` lies on the path from `a` to `b`, then whatever lies on the path from
      `q` to `b` lies on the path from `a` to `b` too. */
  lemma PathTransitive(a: nat, q: nat, b: nat, x: nat, cap: nat)
    requires a < cap && q < cap && b < cap && x < cap
    requires Dist(a, q, cap) < Dist(a, b, cap) && Dist(q, x, cap) < Dist(q, b, cap)
    ensures Dist(a, x, cap) < Dist(a, b, cap)
  {}

  /** Distances from a slot `j` that is `t` steps after `i0`. */
  lemma DistShift(i0: nat, j: nat, x: nat, t: nat, cap: nat)
    requires i0 < cap && j < cap && x < cap && Dist(i0, j, cap) == t
    ensures Dist(j, x, cap) == if Dist(i0, x, cap) >= t then Dist(i0, x, cap) - t else Dist(i0, x, cap) + cap - t
  {}

  /** Every slot strictly before `b` on the probe path from `a` is occupied. */
  ghost predicate PathFull(hs: seq<uint32>, a: nat, b: nat)
    requires a < |hs| && b < |hs|
  {
    forall q :: 0 <= q < |hs| && Dist(a, q, |hs|) < Dist(a, b, |hs|) ==> hs[q] != 0
  }

  /** The table invariant of linear probing: every occupied slot is reached from
      its home slot without crossing an empty slot. */
  ghost predicate Reachable(hs: seq<uint32>) {
    forall i {:trigger PathFull(hs, Home(hs[i], |hs|), i)} ::
      0 <= i < |hs| && hs[i] != 0 ==> PathFull(hs, Home(hs[i], |hs|), i)
  }

  /** The number of occupied slots. */
  function CountOccupied(hs: seq<uint32>): (n: nat)
    ensures n <= |hs|
  {
    if |hs| == 0 then 0
    else CountOccupied(hs[..|hs| - 1]) + (if hs[|hs| - 1] != 0 then 1 else 0)
  }

  /** Counting one more slot of a prefix. */
  lemma CountStep(hs: seq<uint32>, i: nat)
    requires i < |hs|
    ensures CountOccupied(hs[..i + 1]) == CountOccupied(hs[..i]) + (if hs[i] != 0 then 1 else 0)
  {
    assert hs[..i + 1][..i] == hs[..i];
  }

  /** Writing one slot changes the count by what that slot gains or loses. */
  lemma {:induction false} CountUpdate(hs: seq<uint32>, p: nat, v: uint32)
    requires p < |hs|
    ensures CountOccupied(hs[p := v])
         == CountOccupied(hs) - (if hs[p] != 0 then 1 else 0) + (if v != 0 then 1 else 0)
    decreases |hs|
  {
    var n := |hs| - 1;
    if p == n {
      assert hs[p := v][..n] == hs[..n];
    } else {
      CountUpdate(hs[..n], p, v);
      assert hs[p := v][..n] == hs[..n][p := v];
    }
  }

  /** A table whose every slot is occupied counts all of them. */
  lemma {:induction false} CountAllOccupied(hs: seq<uint32>)
    requires forall q :: 0 <= q < |hs| ==> hs[q] != 0
    ensures CountOccupied(hs) == |hs|
    decreases |hs|
  {
    if |hs| > 0 {
      CountAllOccupied(hs[..|hs| - 1]);
    }
  }

  /** A freshly cleared table counts nothing. */
  lemma {:induction false} CountEmpty(hs: seq<uint32>)
    requires forall q :: 0 <= q < |hs| ==> hs[q] == 0
    ensures CountOccupied(hs) == 0
    decreases |hs|
  {
    if |hs| > 0 {
      CountEmpty(hs[..|hs| - 1]);
    }
  }

  /** A prefix never counts more than the whole table. */
  lemma {:induction false} CountPrefix(hs: seq<uint32>, n: nat)
    requires n <= |hs|
    ensures CountOccupied(hs[..n]) <= CountOccupied(hs)
    decreases |hs|
  {
    if n < |hs| {
      var m := |hs| - 1;
      assert hs[..m][..n] == hs[..n];
      CountPrefix(hs[..m], n);
    } else {
      assert hs[..n] == hs;
    }
  }

  /** While fewer slots are occupied than exist, a probe whose path so far is
      occupied, slot `b` included, has not yet been round the table. */
  lemma ProbeBound(hs: seq<uint32>, a: nat, b: nat)
    requires a < |hs| && b < |hs| && PathFull(hs, a, b) && hs[b] != 0
    requires CountOccupied(hs) < |hs|
    ensures Dist(a, b, |hs|) + 1 < |hs|
  {
    if Dist(a, b, |hs|) + 1 == |hs| {
      forall q | 0 <= q < |hs|
        ensures hs[q] != 0
      {
        if Dist(a, q, |hs|) >= Dist(a, b, |hs|) {
          DistInjective(a, q, b, |hs|);
        }
      }
      CountAllOccupied(hs);
    }
  }

  /** An occupied slot lies before every empty slot on the probe path from its home:
      a probe that reaches an empty slot has passed every entry of its home. */
  lemma EntryBeforeEmpty(hs: seq<uint32>, j: nat, e: nat)
    requires Reachable(hs) && j < |hs| && e < |hs| && hs[j] != 0 && hs[e] == 0
    ensures Dist(Home(hs[j], |hs|), j, |hs|) < Dist(Home(hs[j], |hs|), e, |hs|)
  {
    var a := Home(hs[j], |hs|);
    assert PathFull(hs, a, j);
    if Dist(a, e, |hs|) == Dist(a, j, |hs|) {
      DistInjective(a, e, j, |hs|);
    }
  }

  /** Filling the empty slot a probe stopped at keeps the table reachable. */
  lemma InsertKeepsReachable(hs: seq<uint32>, p: nat, h: uint32)
    requires Reachable(hs) && p < |hs| && hs[p] == 0 && h != 0
    requires PathFull(hs, Home(h, |hs|), p)
    ensures Reachable(hs[p := h])
  {
    var hs' := hs[p := h];
    forall i | 0 <= i < |hs'| && hs'[i] != 0
      ensures PathFull(hs', Home(hs'[i], |hs'|), i)
    {
      var a := Home(hs'[i], |hs'|);
      if i != p {
        assert PathFull(hs, a, i);
      }
    }
  }

  /** The first empty slot after `i0`, which exists while the table is not full. */
  lemma FirstEmptyAfter(hs: seq<uint32>, i0: nat) returns (e: nat)
    requires i0 < |hs| && hs[i0] != 0 && CountOccupied(hs) < |hs|
    ensures e < |hs| && e != i0 && hs[e] == 0
    ensures forall q :: 0 <= q < |hs| && 0 < Dist(i0, q, |hs|) < Dist(i0, e, |hs|) ==> hs[q] != 0
  {
    ProbeBound(hs, i0, i0);
    e := Next(i0, |hs|);
    DistNext(i0, i0, |hs|);
    while hs[e] != 0
      invariant e < |hs| && 1 <= Dist(i0, e, |hs|)
      invariant forall q :: 0 <= q < |hs| && 0 < Dist(i0, q, |hs|) < Dist(i0, e, |hs|) ==> hs[q] != 0
      decreases |hs| - Dist(i0, e, |hs|)
    {
      ProbeBound(hs, i0, e);
      DistNext(i0, e, |hs|);
      e := Next(e, |hs|);
    }
  }

  /** Backward-shift deletion of slot `i0` in progress. `e` is the first empty slot
      after `i0` in the table before the deletion; the `t - 1` slots after `i0` are
      done and the slots at distance `t` up to `e` are pending. A pending entry may
      still have a hole on its path, but only among the slots already done; every
      other entry has a full path. */
  ghost predicate ShiftInv(hs: seq<uint32>, i0: nat, e: nat, t: nat)
    requires i0 < |hs| && e < |hs|
  {
    var de := Dist(i0, e, |hs|);
    1 <= t <= de && hs[e] == 0
    && (forall q :: 0 <= q < |hs| && t <= Dist(i0, q, |hs|) < de ==> hs[q] != 0)
    && (forall i {:trigger PathFull(hs, Home(hs[i], |hs|), i)} ::
          0 <= i < |hs| && hs[i] != 0 && !(t <= Dist(i0, i, |hs|) < de) ==> PathFull(hs, Home(hs[i], |hs|), i))
    && (forall i {:trigger HolesBefore(hs, Home(hs[i], |hs|), i, i0, t)} ::
          0 <= i < |hs| && hs[i] != 0 && t <= Dist(i0, i, |hs|) < de ==> HolesBefore(hs, Home(hs[i], |hs|), i, i0, t))
  }

  /** Every empty slot on the path from `a` to `b` is fewer than `t` steps after `i0`. */
  ghost predicate HolesBefore(hs: seq<uint32>, a: nat, b: nat, i0: nat, t: nat)
    requires a < |hs| && b < |hs| && i0 < |hs|
  {
    forall q :: 0 <= q < |hs| && Dist(a, q, |hs|) < Dist(a, b, |hs|) && hs[q] == 0 ==> Dist(i0, q, |hs|) < t
  }

  /** Clearing the slot of the removed entry starts the shift. */
  lemma ShiftStart(hs: seq<uint32>, i0: nat, e: nat)
    requires Reachable(hs) && i0 < |hs| && e < |hs| && hs[i0] != 0 && e != i0 && hs[e] == 0
    requires forall q :: 0 <= q < |hs| && 0 < Dist(i0, q, |hs|) < Dist(i0, e, |hs|) ==> hs[q] != 0
    ensures ShiftInv(hs[i0 := 0], i0, e, 1)
  {
    var cap := |hs|;
    var hs1 := hs[i0 := 0];
    var de := Dist(i0, e, cap);
    forall i | 0 <= i < cap && hs1[i] != 0 && !(1 <= Dist(i0, i, cap) < de)
      ensures PathFull(hs1, Home(hs1[i], cap), i)
    {
      var a := Home(hs[i], cap);
      assert PathFull(hs, a, i);
      forall q | 0 <= q < cap && Dist(a, q, cap) < Dist(a, i, cap)
        ensures hs1[q] != 0
      {
        if q == i0 {
          assert Dist(i0, e, cap) < Dist(i0, i, cap) by {
            if Dist(i0, i, cap) == de { DistInjective(i0, i, e, cap); }
          }
          PathTransitive(a, i0, i, e, cap);
        }
      }
    }
    forall i | 0 <= i < cap && hs1[i] != 0 && 1 <= Dist(i0, i, cap) < de
      ensures HolesBefore(hs1, Home(hs1[i], cap), i, i0, 1)
    {
      assert PathFull(hs, Home(hs[i], cap), i);
    }
  }

  /** One step of the shift: the entry at `j`, `t` steps after `i0`, is taken out and
      put back into the empty slot `p` a probe for its hash stops at. */
  lemma ShiftStep(hs: seq<uint32>, i0: nat, e: nat, t: nat, j: nat, p: nat)
    requires i0 < |hs| && e < |hs| && j < |hs| && p < |hs|
    requires ShiftInv(hs, i0, e, t) && Dist(i0, j, |hs|) == t && hs[j] != 0
    requires hs[j := 0][p] == 0 && PathFull(hs[j := 0], Home(hs[j], |hs|), p)
    ensures ShiftInv(hs[j := 0][p := hs[j]], i0, e, t + 1)
  {
    var cap := |hs|;
    var hs3 := hs[j := 0][p := hs[j]];
    var de := Dist(i0, e, cap);
    ProbeStopsEarly(hs, i0, e, t, j, p);
    forall q | 0 <= q < cap && t + 1 <= Dist(i0, q, cap) < de
      ensures hs3[q] != 0
    {}
    forall i | 0 <= i < cap && hs3[i] != 0 && !(t + 1 <= Dist(i0, i, cap) < de)
      ensures PathFull(hs3, Home(hs3[i], cap), i)
    {
      ShiftKeepsFullPath(hs, i0, e, t, j, p, i);
    }
    forall i | 0 <= i < cap && hs3[i] != 0 && t + 1 <= Dist(i0, i, cap) < de
      ensures HolesBefore(hs3, Home(hs3[i], cap), i, i0, t + 1)
    {
      ShiftKeepsHoles(hs, i0, e, t, j, p, i);
    }
  }

  /** The re-insertion probe stops at `j` at the latest, and any earlier stop is a
      slot already done; the slot `j` itself is pending. */
  lemma ProbeStopsEarly(hs: seq<uint32>, i0: nat, e: nat, t: nat, j: nat, p: nat)
    requires i0 < |hs| && e < |hs| && j < |hs| && p < |hs|
    requires ShiftInv(hs, i0, e, t) && Dist(i0, j, |hs|) == t && hs[j] != 0
    requires hs[j := 0][p] == 0 && PathFull(hs[j := 0], Home(hs[j], |hs|), p)
    ensures t < Dist(i0, e, |hs|)
    ensures p == j || Dist(i0, p, |hs|) < t
  {
    var cap := |hs|;
    var hj := Home(hs[j], cap);
    var de := Dist(i0, e, cap);
    assert t != de by {
      if t == de { DistInjective(i0, j, e, cap); }
    }
    if p != j {
      assert Dist(hj, p, cap) < Dist(hj, j, cap) by {
        if Dist(hj, j, cap) <= Dist(hj, p, cap) {
          if Dist(hj, j, cap) == Dist(hj, p, cap) { DistInjective(hj, j, p, cap); }
        }
      }
      assert HolesBefore(hs, hj, j, i0, t);
    }
  }

  lemma ShiftKeepsFullPath(hs: seq<uint32>, i0: nat, e: nat, t: nat, j: nat, p: nat, i: nat)
    requires i0 < |hs| && e < |hs| && j < |hs| && p < |hs| && i < |hs|
    requires ShiftInv(hs, i0, e, t) && Dist(i0, j, |hs|) == t && hs[j] != 0
    requires hs[j := 0][p] == 0 && PathFull(hs[j := 0], Home(hs[j], |hs|), p)
    requires t < Dist(i0, e, |hs|) && (p == j || Dist(i0, p, |hs|) < t)
    requires hs[j := 0][p := hs[j]][i] != 0 && !(t + 1 <= Dist(i0, i, |hs|) < Dist(i0, e, |hs|))
    ensures PathFull(hs[j := 0][p := hs[j]], Home(hs[j := 0][p := hs[j]][i], |hs|), i)
  {
    var cap := |hs|;
    var hs3 := hs[j := 0][p := hs[j]];
    if i != p {
      var a := Home(hs[i], cap);
      assert !(t <= Dist(i0, i, cap) < Dist(i0, e, cap)) by {
        if Dist(i0, i, cap) == t { DistInjective(i0, i, j, cap); }
      }
      assert PathFull(hs, a, i);
      forall q | 0 <= q < cap && Dist(a, q, cap) < Dist(a, i, cap)
        ensures hs3[q] != 0
      {
        if q == j && q != p {
          NotAcrossHole(hs, i0, e, t, j, i);
        }
      }
    }
  }

  lemma ShiftKeepsHoles(hs: seq<uint32>, i0: nat, e: nat, t: nat, j: nat, p: nat, i: nat)
    requires i0 < |hs| && e < |hs| && j < |hs| && p < |hs| && i < |hs|
    requires ShiftInv(hs, i0, e, t) && Dist(i0, j, |hs|) == t && hs[j] != 0
    requires hs[j := 0][p] == 0 && PathFull(hs[j := 0], Home(hs[j], |hs|), p)
    requires t < Dist(i0, e, |hs|) && (p == j || Dist(i0, p, |hs|) < t)
    requires hs[j := 0][p := hs[j]][i] != 0 && t + 1 <= Dist(i0, i, |hs|) < Dist(i0, e, |hs|)
    ensures HolesBefore(hs[j := 0][p := hs[j]], Home(hs[j := 0][p := hs[j]][i], |hs|), i, i0, t + 1)
  {
    var cap := |hs|;
    assert i != p;
    assert HolesBefore(hs, Home(hs[i], cap), i, i0, t);
  }

  /** An entry that is not pending has no path across the slot `j` being shifted:
      that path would also cross the empty slot `e`. */
  lemma NotAcrossHole(hs: seq<uint32>, i0: nat, e: nat, t: nat, j: nat, i: nat)
    requires i0 < |hs| && e < |hs| && j < |hs| && i < |hs|
    requires ShiftInv(hs, i0, e, t) && Dist(i0, j, |hs|) == t && hs[i] != 0
    requires !(t <= Dist(i0, i, |hs|) < Dist(i0, e, |hs|))
    ensures !(Dist(Home(hs[i], |hs|), j, |hs|) < Dist(Home(hs[i], |hs|), i, |hs|))
  {
    var cap := |hs|;
    var a := Home(hs[i], cap);
    var de := Dist(i0, e, cap);
    assert PathFull(hs, a, i);
    if Dist(a, j, cap) < Dist(a, i, cap) {
      assert Dist(i0, i, cap) != de by {
        if Dist(i0, i, cap) == de { DistInjective(i0, i, e, cap); }
      }
      DistShift(i0, j, e, t, cap);
      DistShift(i0, j, i, t, cap);
      PathTransitive(a, j, i, e, cap);
    }
  }

  /** The shift ends at the first empty slot; the table is reachable again. */
  lemma ShiftEnd(hs: seq<uint32>, i0: nat, e: nat, t: nat, j: nat)
    requires i0 < |hs| && e < |hs| && j < |hs|
    requires ShiftInv(hs, i0, e, t) && Dist(i0, j, |hs|) == t && hs[j] == 0
    ensures Reachable(hs)
  {}
}
