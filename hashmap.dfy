/** DS_Map<KEY, VALUE>: a hash map stored as one array of slots, with open
    addressing, linear probing, growth at 70% load and backward-shift deletion.
    The slot array (DS_MapSlot: Hash, Key, Value) is held as three sequences
    indexed alike, one per field. The key type's hash function
    (DS_KeyType<KEY>::hash) is a parameter of the map; key equality (DS_IsEqual)
    is `==`, which the contract of `KeyType.IsEqual` justifies for the key shapes the
    source supports.

    The work of each operation is done on the slot columns as values (the
    table operations below); the class `Map` holds the columns in its fields
    and each of its methods runs one table operation and stores the result. */
module HashMap {
  import opened Wrappers
  import opened Growth
  import opened Probing
  import opened SlotTable

  /** The slots hold exactly the entries of `contents`, once each, under their
      tagged hashes; `index` says which slot holds each key. */
  ghost predicate Entries<K, V>(hs: seq<uint32>, ks: seq<K>, vs: seq<V>, hashOf: K -> uint32,
                                contents: map<K, V>, index: map<K, nat>) {
    |hs| == |ks| == |vs|
    && Indexed(hs, ks, index) && Tagged(hs, ks, hashOf)
    && contents.Keys == index.Keys
    && forall i :: 0 <= i < |hs| && hs[i] != 0 ==> contents[ks[i]] == vs[i]
  }

  /** The invariant of a DS_Map between operations: `capacity` is 0 or a power
      of two from 8 up, at most 70% of the slots are occupied, `hasCount`
      counts them, every entry is reachable from its home slot, and the slots
      hold exactly the entries of `contents`. */
  ghost predicate TableInv<K(!new), V>(hs: seq<uint32>, ks: seq<K>, vs: seq<V>, hashOf: K -> uint32,
                                 contents: map<K, V>, hasCount: int, capacity: int) {
    |hs| == |ks| == |vs| == capacity && IsGrowthCapacity(capacity)
    && 100 * hasCount <= 70 * capacity
    && hasCount == CountOccupied(hs) && hasCount == |contents|
    && Reachable(hs)
    && exists index :: Entries(hs, ks, vs, hashOf, contents, index)
  }

  /** Storing a new entry in an empty slot adds exactly that entry. */
  lemma StoreEntry<K, V>(hs: seq<uint32>, ks: seq<K>, vs: seq<V>, hashOf: K -> uint32, contents: map<K, V>,
                         index: map<K, nat>, p: nat, k: K, v: V)
    requires Entries(hs, ks, vs, hashOf, contents, index) && p < |hs| && hs[p] == 0 && k !in contents
    ensures Entries(hs[p := Tag(hashOf(k))], ks[p := k], vs[p := v], hashOf, contents[k := v], index[k := p])
    ensures CountOccupied(hs[p := Tag(hashOf(k))]) == CountOccupied(hs) + 1
  {
    PutKey(hs, ks, hashOf, index, k, p);
    CountUpdate(hs, p, Tag(hashOf(k)));
  }

  /** Emptying an occupied slot removes exactly its entry. */
  lemma ClearEntry<K, V>(hs: seq<uint32>, ks: seq<K>, vs: seq<V>, hashOf: K -> uint32, contents: map<K, V>,
                         index: map<K, nat>, i: nat)
    requires Entries(hs, ks, vs, hashOf, contents, index) && i < |hs| && hs[i] != 0
    ensures Entries(hs[i := 0], ks, vs, hashOf, contents - {ks[i]}, index - {ks[i]})
    ensures CountOccupied(hs[i := 0]) == CountOccupied(hs) - 1
  {
    ClearKey(hs, ks, hashOf, index, i);
    CountUpdate(hs, i, 0);
  }

  /** Taking the entry of slot `j` out and storing it again in the empty slot
      `p` keeps the entries and the count. */
  lemma MoveEntry<K, V>(hs: seq<uint32>, ks: seq<K>, vs: seq<V>, hashOf: K -> uint32, contents: map<K, V>,
                        index: map<K, nat>, j: nat, p: nat)
    requires Entries(hs, ks, vs, hashOf, contents, index) && j < |hs| && p < |hs|
    requires hs[j] != 0 && hs[j := 0][p] == 0
    ensures Entries(hs[j := 0][p := hs[j]], ks[p := ks[j]], vs[p := vs[j]], hashOf, contents, (index - {ks[j]})[ks[j] := p])
    ensures CountOccupied(hs[j := 0][p := hs[j]]) == CountOccupied(hs)
  {
    var key := ks[j];
    ClearEntry(hs, ks, vs, hashOf, contents, index, j);
    StoreEntry(hs[j := 0], ks, vs, hashOf, contents - {key}, index - {key}, p, key, vs[j]);
    assert (contents - {key})[key := vs[j]] == contents;
  }

  /** A probe that reaches an empty slot before any slot holding `key` shows
      that the map has no entry for `key`. */
  lemma ProbeMiss<K(!new), V>(hs: seq<uint32>, ks: seq<K>, vs: seq<V>, hashOf: K -> uint32,
                        contents: map<K, V>, hasCount: int, capacity: int, key: K, p: nat)
    requires TableInv(hs, ks, vs, hashOf, contents, hasCount, capacity)
    requires p < capacity && hs[p] == 0
    requires forall q :: 0 <= q < capacity
               && Dist(Home(Tag(hashOf(key)), capacity), q, capacity) < Dist(Home(Tag(hashOf(key)), capacity), p, capacity)
               ==> !(hs[q] == Tag(hashOf(key)) && ks[q] == key)
    ensures key !in contents
  {
    var index :| Entries(hs, ks, vs, hashOf, contents, index);
    MissMeansAbsent(hs, ks, hashOf, index, key, p);
  }

  /** An occupied slot holding `key` holds the map's entry for `key`. */
  lemma ProbeHit<K(!new), V>(hs: seq<uint32>, ks: seq<K>, vs: seq<V>, hashOf: K -> uint32,
                       contents: map<K, V>, hasCount: int, capacity: int, key: K, p: nat)
    requires TableInv(hs, ks, vs, hashOf, contents, hasCount, capacity)
    requires p < capacity && hs[p] != 0 && ks[p] == key
    ensures key in contents && contents[key] == vs[p]
  {
    var index :| Entries(hs, ks, vs, hashOf, contents, index);
  }

  /** Claiming the empty slot a probe for an absent key stopped at adds
      exactly that key's entry, with the slot's value, and keeps the invariant
      while the table stays within 70% load. */
  lemma InsertEntry<K(!new), V>(hs: seq<uint32>, ks: seq<K>, vs: seq<V>, hashOf: K -> uint32,
                          contents: map<K, V>, hasCount: int, capacity: int, key: K, v: V, p: nat)
    requires TableInv(hs, ks, vs, hashOf, contents, hasCount, capacity)
    requires 100 * (hasCount + 1) <= 70 * capacity && key !in contents
    requires p < capacity && hs[p] == 0 && PathFull(hs, Home(Tag(hashOf(key)), capacity), p)
    ensures TableInv(hs[p := Tag(hashOf(key))], ks[p := key], vs[p := v], hashOf,
                     contents[key := v], hasCount + 1, capacity)
  {
    var index :| Entries(hs, ks, vs, hashOf, contents, index);
    StoreEntry(hs, ks, vs, hashOf, contents, index, p, key, v);
    InsertKeepsReachable(hs, p, Tag(hashOf(key)));
  }

  /** `*value = v` through the slot of an entry: that entry now maps to `v`. */
  lemma UpdateValue<K(!new), V>(hs: seq<uint32>, ks: seq<K>, vs: seq<V>, hashOf: K -> uint32,
                          contents: map<K, V>, hasCount: int, capacity: int, p: nat, v: V)
    requires TableInv(hs, ks, vs, hashOf, contents, hasCount, capacity)
    requires p < capacity && hs[p] != 0
    ensures TableInv(hs, ks, vs[p := v], hashOf, contents[ks[p] := v], hasCount, capacity)
  {
    var index :| Entries(hs, ks, vs, hashOf, contents, index);
    assert contents[ks[p] := v].Keys == contents.Keys;
    assert Entries(hs, ks, vs[p := v], hashOf, contents[ks[p] := v], index);
  }

  /** The nested DS__MapAdd of the growth loop: an entry whose key the new
      table does not hold yet goes, under its stored hash, into the first empty
      slot of its probe; `*new_value = elem->Value` then gives it its value. */
  method InsertAbsent<K(==), V>(hs: seq<uint32>, ks: seq<K>, vs: seq<V>, hashOf: K -> uint32,
                                ghost contents: map<K, V>, ghost index: map<K, nat>, hasCount: int,
                                key: K, h: uint32, v: V)
    returns (hs': seq<uint32>, ks': seq<K>, vs': seq<V>, ghost index': map<K, nat>)
    requires Entries(hs, ks, vs, hashOf, contents, index) && Reachable(hs)
    requires hasCount == CountOccupied(hs) && 100 * (hasCount + 1) <= 70 * |hs|
    requires h == Tag(hashOf(key)) && key !in contents
    ensures |hs'| == |ks'| == |vs'| == |hs|
    ensures Entries(hs', ks', vs', hashOf, contents[key := v], index') && Reachable(hs')
    ensures CountOccupied(hs') == hasCount + 1
  {
    var p, found := ProbeSlots(hs, ks, key, h);
    assert !found;
    StoreEntry(hs, ks, vs, hashOf, contents, index, p, key, v);
    InsertKeepsReachable(hs, p, h);
    hs', ks', vs' := hs[p := h], ks[p := key], vs[p := v];
    index' := index[key := p];
  }

  /** The entries held in the first `n` slots. */
  ghost function Collect<K, V>(hs: seq<uint32>, ks: seq<K>, vs: seq<V>, n: nat): map<K, V>
    requires n <= |hs| == |ks| == |vs|
  {
    if n == 0 then map[]
    else
      var m := Collect(hs, ks, vs, n - 1);
      if hs[n - 1] != 0 then m[ks[n - 1] := vs[n - 1]] else m
  }

  /** The first `n` slots hold entries of the map, each in the slot its index
      names. */
  lemma {:induction false} CollectSub<K, V>(hs: seq<uint32>, ks: seq<K>, vs: seq<V>, hashOf: K -> uint32,
                                            contents: map<K, V>, index: map<K, nat>, n: nat)
    requires Entries(hs, ks, vs, hashOf, contents, index) && n <= |hs|
    ensures forall k :: k in Collect(hs, ks, vs, n) ==>
              k in contents && index[k] < n && Collect(hs, ks, vs, n)[k] == contents[k]
  {
    if n > 0 {
      CollectSub(hs, ks, vs, hashOf, contents, index, n - 1);
    }
  }

  /** Every occupied slot among the first `n` contributes its key. */
  lemma {:induction false} CollectHas<K, V>(hs: seq<uint32>, ks: seq<K>, vs: seq<V>, n: nat, j: nat)
    requires n <= |hs| == |ks| == |vs| && j < n && hs[j] != 0
    ensures ks[j] in Collect(hs, ks, vs, n)
  {
    if j < n - 1 {
      CollectHas(hs, ks, vs, n - 1, j);
    }
  }

  /** All the slots together hold exactly the map's entries. */
  lemma CollectAll<K, V>(hs: seq<uint32>, ks: seq<K>, vs: seq<V>, hashOf: K -> uint32,
                         contents: map<K, V>, index: map<K, nat>)
    requires Entries(hs, ks, vs, hashOf, contents, index)
    ensures Collect(hs, ks, vs, |hs|) == contents
  {
    var c := Collect(hs, ks, vs, |hs|);
    CollectSub(hs, ks, vs, hashOf, contents, index, |hs|);
    forall k | k in contents
      ensures k in c
    {
      CollectHas(hs, ks, vs, |hs|, index[k]);
    }
  }

  /** One step of the growth loop of DS__MapAdd: slot `i` of the old table,
      when occupied, is added again to the new table under its stored hash,
      with its value. */
  method RehashSlot<K(==), V>(hs: seq<uint32>, ks: seq<K>, vs: seq<V>, hashOf: K -> uint32,
                              ghost contents: map<K, V>, ghost index: map<K, nat>, i: nat,
                              hs0: seq<uint32>, ks0: seq<K>, vs0: seq<V>, ghost ix: map<K, nat>, n: int)
    returns (hs1: seq<uint32>, ks1: seq<K>, vs1: seq<V>, ghost ix1: map<K, nat>, n1: int)
    requires Entries(hs, ks, vs, hashOf, contents, index) && i < |hs|
    requires 100 * CountOccupied(hs) <= 70 * |hs0|
    requires n == CountOccupied(hs0) == CountOccupied(hs[..i]) && n == |Collect(hs, ks, vs, i)|
    requires Entries(hs0, ks0, vs0, hashOf, Collect(hs, ks, vs, i), ix) && Reachable(hs0)
    ensures |hs1| == |ks1| == |vs1| == |hs0|
    ensures n1 == CountOccupied(hs1) == CountOccupied(hs[..i + 1]) && n1 == |Collect(hs, ks, vs, i + 1)|
    ensures Entries(hs1, ks1, vs1, hashOf, Collect(hs, ks, vs, i + 1), ix1) && Reachable(hs1)
  {
    CountStep(hs, i);
    CountPrefix(hs, i + 1);
    if hs[i] != 0 {
      CollectSub(hs, ks, vs, hashOf, contents, index, i);
      hs1, ks1, vs1, ix1 := InsertAbsent(hs0, ks0, vs0, hashOf, Collect(hs, ks, vs, i), ix, n, ks[i], hs[i], vs[i]);
      n1 := n + 1;
    } else {
      hs1, ks1, vs1, ix1, n1 := hs0, ks0, vs0, ix, n;
    }
  }

  /** The loop of the growth branch of DS__MapAdd: every occupied slot of the
      old table is added again, under its stored hash, to the empty table
      `hs0`, which ends up holding the same entries. */
  method Reinsert<K(==), V>(hs: seq<uint32>, ks: seq<K>, vs: seq<V>, hashOf: K -> uint32,
                            ghost contents: map<K, V>, ghost index: map<K, nat>,
                            hs0: seq<uint32>, ks0: seq<K>, vs0: seq<V>)
    returns (hs': seq<uint32>, ks': seq<K>, vs': seq<V>, ghost ix: map<K, nat>)
    requires Entries(hs, ks, vs, hashOf, contents, index) && 100 * CountOccupied(hs) <= 70 * |hs0|
    requires |hs0| == |ks0| == |vs0| && forall q :: 0 <= q < |hs0| ==> hs0[q] == 0
    ensures |hs'| == |ks'| == |vs'| == |hs0| && CountOccupied(hs') == CountOccupied(hs)
    ensures Entries(hs', ks', vs', hashOf, contents, ix) && Reachable(hs')
  {
    CountEmpty(hs0);
    hs', ks', vs', ix := hs0, ks0, vs0, map[];
    var n := 0;
    var i := 0;
    while i < |hs|
      invariant 0 <= i <= |hs| && |hs'| == |ks'| == |vs'| == |hs0|
      invariant n == CountOccupied(hs') == CountOccupied(hs[..i]) && n == |Collect(hs, ks, vs, i)|
      invariant Entries(hs', ks', vs', hashOf, Collect(hs, ks, vs, i), ix) && Reachable(hs')
    {
      hs', ks', vs', ix, n := RehashSlot(hs, ks, vs, hashOf, contents, index, i, hs', ks', vs', ix, n);
      i := i + 1;
    }
    assert hs[..i] == hs;
    CollectAll(hs, ks, vs, hashOf, contents, index);
  }

  /** The growth branch of DS__MapAdd: the entries move to an empty table of
      the next capacity (8, or double). */
  method Rehash<K(==, 0, !new), V(0)>(hs: seq<uint32>, ks: seq<K>, vs: seq<V>, hashOf: K -> uint32,
                                ghost contents: map<K, V>, hasCount: int, capacity: int)
    returns (hs': seq<uint32>, ks': seq<K>, vs': seq<V>, capacity': int)
    requires TableInv(hs, ks, vs, hashOf, contents, hasCount, capacity)
    ensures capacity' == NextCapacity(capacity)
    ensures TableInv(hs', ks', vs', hashOf, contents, hasCount, capacity')
  {
    ghost var index :| Entries(hs, ks, vs, hashOf, contents, index);
    var k0: K := *;
    var v0: V := *;
    capacity' := NextCapacity(capacity);
    ghost var ix;
    hs', ks', vs', ix := Reinsert(hs, ks, vs, hashOf, contents, index,
                                  seq(capacity', _ => 0), seq(capacity', _ => k0), seq(capacity', _ => v0));
  }

  /** The probe loop of DS__MapAdd, in a table with room for one more entry:
      from the home slot of `h`, step on until a slot is empty or holds `key`
      under `h`; an empty slot gets the key and its hash and is counted. The
      values are not touched: a new entry's value is whatever its slot held. */
  method PlaceKey<K(==, !new), V>(hs: seq<uint32>, ks: seq<K>, vs: seq<V>, hashOf: K -> uint32,
                                  ghost contents: map<K, V>, hasCount: int, capacity: int, key: K, h: uint32)
    returns (hs': seq<uint32>, ks': seq<K>, hasCount': int, added: bool, p: nat)
    requires TableInv(hs, ks, vs, hashOf, contents, hasCount, capacity)
    requires 100 * (hasCount + 1) <= 70 * capacity && h == Tag(hashOf(key))
    ensures |hs'| == |ks'| == capacity && p < capacity
    ensures added == (key !in contents)
    ensures hasCount' == if added then hasCount + 1 else hasCount
    ensures hs'[p] == h && ks'[p] == key
    ensures TableInv(hs', ks', vs, hashOf, if added then contents[key := vs[p]] else contents, hasCount', capacity)
  {
    var found;
    p, found := ProbeSlots(hs, ks, key, h);
    added := !found;
    if added {
      ProbeMiss(hs, ks, vs, hashOf, contents, hasCount, capacity, key, p);
      InsertEntry(hs, ks, vs, hashOf, contents, hasCount, capacity, key, vs[p], p);
      assert vs[p := vs[p]] == vs;
      hs', ks', hasCount' := hs[p := h], ks[p := key], hasCount + 1;
    } else {
      ProbeHit(hs, ks, vs, hashOf, contents, hasCount, capacity, key, p);
      hs', ks', hasCount' := hs, ks, hasCount;
    }
  }

  /** The value an `int32_t` holds after two's-complement wrap-around. */
  function Wrap32(x: int): (r: int)
    ensures -0x8000_0000 <= r < 0x8000_0000
    ensures (x - r) % 0x1_0000_0000 == 0
    ensures -0x8000_0000 <= x < 0x8000_0000 ==> r == x
  {
    var m := x % 0x1_0000_0000;
    if m >= 0x8000_0000 then m - 0x1_0000_0000 else m
  }

  /** The load check of DS__MapAdd as compiled: both products are `int32_t`
      (HasCount and Capacity are `int32_t`), so each one wraps. */
  predicate GrowsAsWritten(hasCount: int, capacity: int) {
    Wrap32(100 * (hasCount + 1)) > Wrap32(70 * capacity)
  }

  /** The load check as intended: grow when one more entry would pass 70% load. */
  predicate Grows(hasCount: int, capacity: int) {
    100 * (hasCount + 1) > 70 * capacity
  }

  /** While both products fit in an `int32_t`, the compiled check is the intended one. */
  lemma GrowsAsWrittenInRange(hasCount: int, capacity: int)
    requires 0 <= hasCount && 0 <= capacity
    requires 100 * (hasCount + 1) < 0x8000_0000 && 70 * capacity < 0x8000_0000
    ensures GrowsAsWritten(hasCount, capacity) <==> Grows(hasCount, capacity)
  {
  }

  /** 2^25 is a capacity of the growth sequence: 8 doubled 22 times. */
  lemma LargeCapacityReachable()
    ensures IsGrowthCapacity(0x200_0000)
  {
    assert DoubledTimes(11) == 0x4000;
    assert DoubledTimes(22) == 0x200_0000;
  }

  /** Adding to a map of 2^24 slots that holds 11744051 entries grows it, as
      intended, and re-adds the old entries through the nested DS__MapAdd into
      2^25 empty slots. The first of those adds sees HasCount 0, but `70 *
      Capacity` has overflowed `int32_t` (undefined behaviour, a wrap to a
      negative number on the usual targets), so it grows again. At 2^26 and
      2^27 slots the product wraps to a small positive number, and the re-adding
      grows once more at 4026531 and at 8053063 entries. At 2^28 slots it stops:
      the map ends with 8 times the intended 2^25 slots (16 times the 2^24 it
      started from). */
  lemma GrowsAsWrittenOverflows()
    ensures Grows(11744051, 0x100_0000) && GrowsAsWritten(11744051, 0x100_0000)
    ensures GrowsAsWritten(0, 0x200_0000) && !Grows(0, 0x200_0000)
    ensures GrowsAsWritten(4026531, 0x400_0000) && !Grows(4026531, 0x400_0000)
    ensures GrowsAsWritten(8053063, 0x800_0000) && !Grows(8053063, 0x800_0000)
    ensures !GrowsAsWritten(11744051, 0x1000_0000)
  {
    assert Wrap32(70 * 0x200_0000) == 2348810240 - 0x1_0000_0000;
    assert Wrap32(70 * 0x400_0000) == 4697620480 - 0x1_0000_0000;
    assert Wrap32(70 * 0x800_0000) == 9395240960 - 2 * 0x1_0000_0000;
    assert Wrap32(70 * 0x1000_0000) == 18790481920 - 4 * 0x1_0000_0000;
  }

  /** DS__MapAdd: grow first when one more entry would pass 70% load (whether
      or not `key` is new), then probe for `key` and claim a slot for it if it
      is new. `p` is the key's slot, through which the caller reads or writes
      the value. */
  method AddEntry<K(==, 0, !new), V(0)>(hs: seq<uint32>, ks: seq<K>, vs: seq<V>, hashOf: K -> uint32,
                                  ghost contents: map<K, V>, hasCount: int, capacity: int, key: K, h: uint32)
    returns (hs': seq<uint32>, ks': seq<K>, vs': seq<V>, hasCount': int, capacity': int, added: bool, p: nat)
    requires TableInv(hs, ks, vs, hashOf, contents, hasCount, capacity) && h == Tag(hashOf(key))
    ensures capacity' == if Grows(hasCount, capacity) then NextCapacity(capacity) else capacity
    ensures |hs'| == |ks'| == |vs'| == capacity' && p < capacity'
    ensures added == (key !in contents)
    ensures hasCount' == if added then hasCount + 1 else hasCount
    ensures hs'[p] == h && ks'[p] == key
    ensures TableInv(hs', ks', vs', hashOf, if added then contents[key := vs'[p]] else contents, hasCount', capacity')
  {
    hs', ks', vs', capacity' := hs, ks, vs, capacity;
    GrowthCapacityMultipleOf8(capacity);
    if 100 * (hasCount + 1) > 70 * capacity {
      hs', ks', vs', capacity' := Rehash(hs, ks, vs, hashOf, contents, hasCount, capacity);
    }
    hs', ks', hasCount', added, p := PlaceKey(hs', ks', vs', hashOf, contents, hasCount, capacity', key, h);
  }

  /** One step of Remove's backward shift: the entry of slot `j` is taken out
      (`Hash = 0`, `HasCount--`) and added again by the nested DS__MapAdd, which
      does not grow the table because a slot was just freed; `*readded =
      temp.Value` restores its value. The entry lands at `j` or closer to its
      home slot, and the count is back where it was. */
  method ShiftSlot<K(==), V>(hs: seq<uint32>, ks: seq<K>, vs: seq<V>, hashOf: K -> uint32,
                             ghost contents: map<K, V>, ghost index: map<K, nat>, hasCount: int,
                             j: nat, ghost i0: nat, ghost e: nat, ghost t: nat)
    returns (hs': seq<uint32>, ks': seq<K>, vs': seq<V>, ghost index': map<K, nat>)
    requires |hs| > 0 && i0 < |hs| && e < |hs| && j < |hs|
    requires Dist(i0, j, |hs|) == t && ShiftInv(hs, i0, e, t) && hs[j] != 0
    requires hasCount == CountOccupied(hs) && 100 * (hasCount + 1) <= 70 * |hs|
    requires Entries(hs, ks, vs, hashOf, contents, index)
    ensures |hs'| == |ks'| == |vs'| == |hs|
    ensures CountOccupied(hs') == hasCount && ShiftInv(hs', i0, e, t + 1)
    ensures Entries(hs', ks', vs', hashOf, contents, index')
  {
    var h, key, value := hs[j], ks[j], vs[j];
    CountUpdate(hs, j, 0);
    var p, found := ProbeSlots(hs[j := 0], ks, key, h);
    assert !found;
    MoveEntry(hs, ks, vs, hashOf, contents, index, j, p);
    ShiftStep(hs, i0, e, t, j, p);
    hs', ks', vs' := hs[j := 0][p := h], ks[p := key], vs[p := value];
    index' := (index - {key})[key := p];
  }

  /** The backward shift of DS_Map::Remove, once the removed entry's slot
      `i0` is empty: take each following entry out and add it again, until an
      empty slot. The entries stay the same and the table is reachable again. */
  method ShiftBack<K(==), V>(hs: seq<uint32>, ks: seq<K>, vs: seq<V>, hashOf: K -> uint32,
                             ghost contents: map<K, V>, ghost index: map<K, nat>, hasCount: int,
                             i0: nat, ghost e: nat)
    returns (hs': seq<uint32>, ks': seq<K>, vs': seq<V>, ghost index': map<K, nat>)
    requires i0 < |hs| && e < |hs| && ShiftInv(hs, i0, e, 1)
    requires hasCount == CountOccupied(hs) && 100 * (hasCount + 1) <= 70 * |hs|
    requires Entries(hs, ks, vs, hashOf, contents, index)
    ensures |hs'| == |ks'| == |vs'| == |hs|
    ensures CountOccupied(hs') == hasCount && Reachable(hs')
    ensures Entries(hs', ks', vs', hashOf, contents, index')
  {
    hs', ks', vs', index' := hs, ks, vs, index;
    var cap := |hs|;
    DistNext(i0, i0, cap);
    var j: nat := Next(i0, cap);
    ghost var t := 1;
    while hs'[j] != 0
      invariant |hs'| == |ks'| == |vs'| == cap
      invariant j < cap && Dist(i0, j, cap) == t
      invariant ShiftInv(hs', i0, e, t)
      invariant hasCount == CountOccupied(hs')
      invariant Entries(hs', ks', vs', hashOf, contents, index')
      decreases Dist(i0, e, cap) - t
    {
      hs', ks', vs', index' := ShiftSlot(hs', ks', vs', hashOf, contents, index', hasCount, j, i0, e, t);
      DistNext(i0, j, cap);
      j := Next(j, cap);
      t := t + 1;
    }
    ShiftEnd(hs', i0, e, t, j);
  }

  /** The deletion of DS_Map::Remove once the entry's slot `i0` is found:
      empty it and shift the entries after it back. */
  method DeleteAt<K(==), V>(hs: seq<uint32>, ks: seq<K>, vs: seq<V>, hashOf: K -> uint32,
                            ghost contents: map<K, V>, ghost index: map<K, nat>, hasCount: int, i0: nat)
    returns (hs': seq<uint32>, ks': seq<K>, vs': seq<V>, ghost index': map<K, nat>)
    requires Entries(hs, ks, vs, hashOf, contents, index) && Reachable(hs)
    requires hasCount == CountOccupied(hs) && 100 * hasCount <= 70 * |hs|
    requires i0 < |hs| && hs[i0] != 0
    ensures |hs'| == |ks'| == |vs'| == |hs|
    ensures CountOccupied(hs') == hasCount - 1 && Reachable(hs')
    ensures Entries(hs', ks', vs', hashOf, contents - {ks[i0]}, index')
  {
    ghost var e := FirstEmptyAfter(hs, i0);
    ShiftStart(hs, i0, e);
    ClearEntry(hs, ks, vs, hashOf, contents, index, i0);
    hs', ks', vs', index' := ShiftBack(hs[i0 := 0], ks, vs, hashOf, contents - {ks[i0]}, index - {ks[i0]}, hasCount - 1, i0, e);
  }

  /** DS_Map::Remove: probe for `key`; if its slot is found, empty it and
      shift the entries after it back. The capacity never changes. */
  method RemoveEntry<K(==, !new), V>(hs: seq<uint32>, ks: seq<K>, vs: seq<V>, hashOf: K -> uint32,
                               ghost contents: map<K, V>, hasCount: int, capacity: int, key: K)
    returns (hs': seq<uint32>, ks': seq<K>, vs': seq<V>, hasCount': int, removed: bool)
    requires TableInv(hs, ks, vs, hashOf, contents, hasCount, capacity)
    ensures removed == (key in contents)
    ensures hasCount' == if removed then hasCount - 1 else hasCount
    ensures TableInv(hs', ks', vs', hashOf, contents - {key}, hasCount', capacity)
  {
    if capacity == 0 {
      assert contents - {key} == contents;
      return hs, ks, vs, hasCount, false;
    }
    var h := Tag(hashOf(key));
    var i0, found := ProbeSlots(hs, ks, key, h);
    if !found {
      ProbeMiss(hs, ks, vs, hashOf, contents, hasCount, capacity, key, i0);
      assert contents - {key} == contents;
      return hs, ks, vs, hasCount, false;
    }
    ProbeHit(hs, ks, vs, hashOf, contents, hasCount, capacity, key, i0);
    ghost var index :| Entries(hs, ks, vs, hashOf, contents, index);
    ghost var index';
    hs', ks', vs', index' := DeleteAt(hs, ks, vs, hashOf, contents, index, hasCount, i0);
    hasCount' := hasCount - 1;
    removed := true;
  }

  /** A DS_Map: the slot columns, `HasCount` and `Capacity`, with the entries
      they stand for as a ghost map. */
  class Map<K(==, 0, !new), V(0)> {
    /** DS_KeyType<KEY>::hash. */
    const hashOf: K -> uint32
    /** Data[0 .. Capacity).Hash, .Key and .Value. */
    var hashes: seq<uint32>
    var keys: seq<K>
    var values: seq<V>
    var hasCount: int
    var capacity: int
    /** The entries the map holds. */
    ghost var contents: map<K, V>

    ghost predicate Valid()
      reads this
    {
      TableInv(hashes, keys, values, hashOf, contents, hasCount, capacity)
    }

    /** Init: an empty map without slots. */
    constructor (hashOf: K -> uint32)
      ensures Valid() && contents == map[] && capacity == 0 && hasCount == 0
      ensures this.hashOf == hashOf
    {
      this.hashOf := hashOf;
      hashes, keys, values := [], [], [];
      hasCount := 0;
      capacity := 0;
      contents := map[];
      new;
      assert Entries(hashes, keys, values, hashOf, contents, map[]);
    }

    /** DS__MapAdd on this map. */
    method AddHashed(key: K, h: uint32) returns (added: bool, p: nat)
      requires Valid() && h == Tag(hashOf(key))
      modifies this
      ensures Valid()
      ensures capacity == if Grows(old(hasCount), old(capacity)) then NextCapacity(old(capacity)) else old(capacity)
      ensures added == (key !in old(contents))
      ensures hasCount == if added then old(hasCount) + 1 else old(hasCount)
      ensures p < capacity && hashes[p] == h && keys[p] == key
      ensures contents == if added then old(contents)[key := values[p]] else old(contents)
    {
      var hs, ks, vs, n, c;
      hs, ks, vs, n, c, added, p := AddEntry(hashes, keys, values, hashOf, contents, hasCount, capacity, key, h);
      hashes, keys, values, hasCount, capacity := hs, ks, vs, n, c;
      contents := if added then contents[key := vs[p]] else contents;
    }

    /** Add: make sure `key` has an entry and return its slot, through which the
        caller reads or writes the value; true when the key is new. Every entry
        the map had stays as it was. */
    method Add(key: K) returns (added: bool, p: nat)
      requires Valid()
      modifies this
      ensures Valid()
      ensures added == (key !in old(contents))
      ensures hasCount == if added then old(hasCount) + 1 else old(hasCount)
      ensures p < capacity && hashes[p] != 0 && keys[p] == key
      ensures key in contents && contents[key] == values[p]
      ensures contents.Keys == old(contents).Keys + {key}
      ensures forall k :: k in old(contents) ==> contents[k] == old(contents)[k]
    {
      added, p := AddHashed(key, Tag(hashOf(key)));
    }

    /** `*value = v` through the slot Add returned. */
    method SetValueAt(p: nat, v: V)
      requires Valid() && p < capacity && hashes[p] != 0
      modifies this
      ensures Valid() && capacity == old(capacity) && hasCount == old(hasCount)
      ensures hashes == old(hashes) && keys == old(keys) && values == old(values)[p := v]
      ensures contents == old(contents)[keys[p] := v]
    {
      UpdateValue(hashes, keys, values, hashOf, contents, hasCount, capacity, p, v);
      values := values[p := v];
      contents := contents[keys[p] := v];
    }

    /** Set: add the key if it is missing and give it `value`. */
    method Set(key: K, value: V)
      requires Valid()
      modifies this
      ensures Valid() && contents == old(contents)[key := value]
    {
      var added, p := AddHashed(key, Tag(hashOf(key)));
      SetValueAt(p, value);
    }

    /** FindPtr: the slot holding `key`, or none. */
    method FindPtr(key: K) returns (r: Option<nat>)
      requires Valid()
      ensures r.Some? == (key in contents)
      ensures r.Some? ==> r.value < capacity && hashes[r.value] != 0 && keys[r.value] == key
                          && contents[key] == values[r.value]
    {
      if capacity == 0 {
        return None;
      }
      var p, found := ProbeSlots(hashes, keys, key, Tag(hashOf(key)));
      if found {
        ProbeHit(hashes, keys, values, hashOf, contents, hasCount, capacity, key, p);
        return Some(p);
      }
      ProbeMiss(hashes, keys, values, hashOf, contents, hasCount, capacity, key, p);
      return None;
    }

    /** Find: the value of `key` if it has one; otherwise the caller's `prior`
        value is left as it was. */
    method Find(key: K, prior: V) returns (found: bool, v: V)
      requires Valid()
      ensures found == (key in contents)
      ensures found ==> v == contents[key]
      ensures !found ==> v == prior
    {
      var r := FindPtr(key);
      found := r.Some?;
      v := if found then values[r.value] else prior;
    }

    /** Has: whether `key` has an entry. */
    method Has(key: K) returns (b: bool)
      requires Valid()
      ensures b == (key in contents)
    {
      var r := FindPtr(key);
      b := r.Some?;
    }

    /** Remove: delete the entry of `key`; true when it had one. */
    method Remove(key: K) returns (removed: bool)
      requires Valid()
      modifies this
      ensures Valid() && capacity == old(capacity)
      ensures removed == (key in old(contents))
      ensures hasCount == if removed then old(hasCount) - 1 else old(hasCount)
      ensures contents == old(contents) - {key}
    {
      var hs, ks, vs, n;
      hs, ks, vs, n, removed := RemoveEntry(hashes, keys, values, hashOf, contents, hasCount, capacity, key);
      hashes, keys, values, hasCount := hs, ks, vs, n;
      contents := contents - {key};
    }
  }
}
