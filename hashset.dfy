/** DS_Set<KEY>: the key-only twin of DS_Map. Its slots (DS_SetSlot: Hash,
    Key) are held as two sequences indexed alike; adding, growing and removing
    follow DS_Map step for step, without values. The key type's hash function
    is a parameter of the set and key equality is `==`.

    As for the map, each operation works on the slot columns as values and the
    class `Set` runs one table operation per method and stores the result. */
module HashSet {
  import opened Growth
  import opened Probing
  import opened SlotTable

  /** The slots hold exactly the keys of `contents`, once each, under their
      tagged hashes; `index` says which slot holds each key. */
  ghost predicate Members<K>(hs: seq<uint32>, ks: seq<K>, hashOf: K -> uint32, contents: set<K>, index: map<K, nat>) {
    |hs| == |ks| && Indexed(hs, ks, index) && Tagged(hs, ks, hashOf) && contents == index.Keys
  }

  /** The invariant of a DS_Set between operations; the same as DS_Map's. */
  ghost predicate SetInv<K(!new)>(hs: seq<uint32>, ks: seq<K>, hashOf: K -> uint32,
                                  contents: set<K>, hasCount: int, capacity: int) {
    |hs| == |ks| == capacity && IsGrowthCapacity(capacity)
    && 100 * hasCount <= 70 * capacity
    && hasCount == CountOccupied(hs)
    && Reachable(hs)
    && exists index :: Members(hs, ks, hashOf, contents, index)
  }

  /** Storing a new key in an empty slot adds exactly that key. */
  lemma StoreMember<K>(hs: seq<uint32>, ks: seq<K>, hashOf: K -> uint32, contents: set<K>,
                       index: map<K, nat>, p: nat, k: K)
    requires Members(hs, ks, hashOf, contents, index) && p < |hs| && hs[p] == 0 && k !in contents
    ensures Members(hs[p := Tag(hashOf(k))], ks[p := k], hashOf, contents + {k}, index[k := p])
    ensures CountOccupied(hs[p := Tag(hashOf(k))]) == CountOccupied(hs) + 1
  {
    PutKey(hs, ks, hashOf, index, k, p);
    CountUpdate(hs, p, Tag(hashOf(k)));
  }

  /** Emptying an occupied slot removes exactly its key. */
  lemma ClearMember<K>(hs: seq<uint32>, ks: seq<K>, hashOf: K -> uint32, contents: set<K>,
                       index: map<K, nat>, i: nat)
    requires Members(hs, ks, hashOf, contents, index) && i < |hs| && hs[i] != 0
    ensures Members(hs[i := 0], ks, hashOf, contents - {ks[i]}, index - {ks[i]})
    ensures CountOccupied(hs[i := 0]) == CountOccupied(hs) - 1
  {
    ClearKey(hs, ks, hashOf, index, i);
    CountUpdate(hs, i, 0);
  }

  /** Taking the key of slot `j` out and storing it again in the empty slot
      `p` keeps the members and the count. */
  lemma MoveMember<K>(hs: seq<uint32>, ks: seq<K>, hashOf: K -> uint32, contents: set<K>,
                      index: map<K, nat>, j: nat, p: nat)
    requires Members(hs, ks, hashOf, contents, index) && j < |hs| && p < |hs|
    requires hs[j] != 0 && hs[j := 0][p] == 0
    ensures Members(hs[j := 0][p := hs[j]], ks[p := ks[j]], hashOf, contents, (index - {ks[j]})[ks[j] := p])
    ensures CountOccupied(hs[j := 0][p := hs[j]]) == CountOccupied(hs)
  {
    var key := ks[j];
    ClearMember(hs, ks, hashOf, contents, index, j);
    StoreMember(hs[j := 0], ks, hashOf, contents - {key}, index - {key}, p, key);
    assert contents - {key} + {key} == contents;
  }

  /** A probe that reaches an empty slot before any slot holding `key` shows
      that `key` is not a member. */
  lemma ProbeMiss<K(!new)>(hs: seq<uint32>, ks: seq<K>, hashOf: K -> uint32,
                           contents: set<K>, hasCount: int, capacity: int, key: K, p: nat)
    requires SetInv(hs, ks, hashOf, contents, hasCount, capacity)
    requires p < capacity && hs[p] == 0
    requires forall q :: 0 <= q < capacity
               && Dist(Home(Tag(hashOf(key)), capacity), q, capacity) < Dist(Home(Tag(hashOf(key)), capacity), p, capacity)
               ==> !(hs[q] == Tag(hashOf(key)) && ks[q] == key)
    ensures key !in contents
  {
    var index :| Members(hs, ks, hashOf, contents, index);
    MissMeansAbsent(hs, ks, hashOf, index, key, p);
  }

  /** An occupied slot holding `key` shows that `key` is a member. */
  lemma ProbeHit<K(!new)>(hs: seq<uint32>, ks: seq<K>, hashOf: K -> uint32,
                          contents: set<K>, hasCount: int, capacity: int, key: K, p: nat)
    requires SetInv(hs, ks, hashOf, contents, hasCount, capacity)
    requires p < capacity && hs[p] != 0 && ks[p] == key
    ensures key in contents
  {
    var index :| Members(hs, ks, hashOf, contents, index);
  }

  /** Claiming the empty slot a probe for an absent key stopped at adds
      exactly that key and keeps the invariant while the table stays within
      70% load. */
  lemma InsertMember<K(!new)>(hs: seq<uint32>, ks: seq<K>, hashOf: K -> uint32,
                              contents: set<K>, hasCount: int, capacity: int, key: K, p: nat)
    requires SetInv(hs, ks, hashOf, contents, hasCount, capacity)
    requires 100 * (hasCount + 1) <= 70 * capacity && key !in contents
    requires p < capacity && hs[p] == 0 && PathFull(hs, Home(Tag(hashOf(key)), capacity), p)
    ensures SetInv(hs[p := Tag(hashOf(key))], ks[p := key], hashOf, contents + {key}, hasCount + 1, capacity)
  {
    var index :| Members(hs, ks, hashOf, contents, index);
    StoreMember(hs, ks, hashOf, contents, index, p, key);
    InsertKeepsReachable(hs, p, Tag(hashOf(key)));
  }

  /** The nested DS__SetAdd of the growth loop, for a key the new table does
      not hold yet, under its stored hash. */
  method InsertAbsent<K(==)>(hs: seq<uint32>, ks: seq<K>, hashOf: K -> uint32,
                             ghost contents: set<K>, ghost index: map<K, nat>, hasCount: int, key: K, h: uint32)
    returns (hs': seq<uint32>, ks': seq<K>, ghost index': map<K, nat>)
    requires Members(hs, ks, hashOf, contents, index) && Reachable(hs)
    requires hasCount == CountOccupied(hs) && 100 * (hasCount + 1) <= 70 * |hs|
    requires h == Tag(hashOf(key)) && key !in contents
    ensures |hs'| == |ks'| == |hs|
    ensures Members(hs', ks', hashOf, contents + {key}, index') && Reachable(hs')
    ensures CountOccupied(hs') == hasCount + 1
  {
    var p, found := ProbeSlots(hs, ks, key, h);
    assert !found;
    StoreMember(hs, ks, hashOf, contents, index, p, key);
    InsertKeepsReachable(hs, p, h);
    hs', ks' := hs[p := h], ks[p := key];
    index' := index[key := p];
  }

  /** The keys held in the first `n` slots. */
  ghost function Collect<K>(hs: seq<uint32>, ks: seq<K>, n: nat): set<K>
    requires n <= |hs| == |ks|
  {
    if n == 0 then {}
    else if hs[n - 1] != 0 then Collect(hs, ks, n - 1) + {ks[n - 1]}
    else Collect(hs, ks, n - 1)
  }

  /** The first `n` slots hold members, each in the slot its index names. */
  lemma {:induction false} CollectSub<K>(hs: seq<uint32>, ks: seq<K>, hashOf: K -> uint32,
                                         contents: set<K>, index: map<K, nat>, n: nat)
    requires Members(hs, ks, hashOf, contents, index) && n <= |hs|
    ensures forall k :: k in Collect(hs, ks, n) ==> k in contents && index[k] < n
  {
    if n > 0 {
      CollectSub(hs, ks, hashOf, contents, index, n - 1);
    }
  }

  /** Every occupied slot among the first `n` contributes its key. */
  lemma {:induction false} CollectHas<K>(hs: seq<uint32>, ks: seq<K>, n: nat, j: nat)
    requires n <= |hs| == |ks| && j < n && hs[j] != 0
    ensures ks[j] in Collect(hs, ks, n)
  {
    if j < n - 1 {
      CollectHas(hs, ks, n - 1, j);
    }
  }

  /** All the slots together hold exactly the members. */
  lemma CollectAll<K>(hs: seq<uint32>, ks: seq<K>, hashOf: K -> uint32, contents: set<K>, index: map<K, nat>)
    requires Members(hs, ks, hashOf, contents, index)
    ensures Collect(hs, ks, |hs|) == contents
  {
    CollectSub(hs, ks, hashOf, contents, index, |hs|);
    forall k | k in contents
      ensures k in Collect(hs, ks, |hs|)
    {
      CollectHas(hs, ks, |hs|, index[k]);
    }
  }

  /** One step of the growth loop of DS__SetAdd: slot `i` of the old table,
      when occupied, is added again to the new table under its stored hash. */
  method RehashSlot<K(==)>(hs: seq<uint32>, ks: seq<K>, hashOf: K -> uint32,
                           ghost contents: set<K>, ghost index: map<K, nat>, i: nat,
                           hs0: seq<uint32>, ks0: seq<K>, ghost ix: map<K, nat>, n: int)
    returns (hs1: seq<uint32>, ks1: seq<K>, ghost ix1: map<K, nat>, n1: int)
    requires Members(hs, ks, hashOf, contents, index) && i < |hs|
    requires 100 * CountOccupied(hs) <= 70 * |hs0|
    requires n == CountOccupied(hs0) == CountOccupied(hs[..i])
    requires Members(hs0, ks0, hashOf, Collect(hs, ks, i), ix) && Reachable(hs0)
    ensures |hs1| == |ks1| == |hs0|
    ensures n1 == CountOccupied(hs1) == CountOccupied(hs[..i + 1])
    ensures Members(hs1, ks1, hashOf, Collect(hs, ks, i + 1), ix1) && Reachable(hs1)
  {
    CountStep(hs, i);
    CountPrefix(hs, i + 1);
    if hs[i] != 0 {
      CollectSub(hs, ks, hashOf, contents, index, i);
      hs1, ks1, ix1 := InsertAbsent(hs0, ks0, hashOf, Collect(hs, ks, i), ix, n, ks[i], hs[i]);
      n1 := n + 1;
    } else {
      hs1, ks1, ix1, n1 := hs0, ks0, ix, n;
    }
  }

  /** The first `n` slots hold as many keys as they have occupied slots. */
  lemma {:induction false} CollectCount<K>(hs: seq<uint32>, ks: seq<K>, hashOf: K -> uint32,
                                           contents: set<K>, index: map<K, nat>, n: nat)
    requires Members(hs, ks, hashOf, contents, index) && n <= |hs|
    ensures |Collect(hs, ks, n)| == CountOccupied(hs[..n])
  {
    if n > 0 {
      CollectCount(hs, ks, hashOf, contents, index, n - 1);
      CountStep(hs, n - 1);
      if hs[n - 1] != 0 {
        CollectSub(hs, ks, hashOf, contents, index, n - 1);
      }
    }
  }

  /** HasCount is the number of members. */
  lemma CountIsSize<K(!new)>(hs: seq<uint32>, ks: seq<K>, hashOf: K -> uint32,
                             contents: set<K>, hasCount: int, capacity: int)
    requires SetInv(hs, ks, hashOf, contents, hasCount, capacity)
    ensures hasCount == |contents|
  {
    var index :| Members(hs, ks, hashOf, contents, index);
    CollectAll(hs, ks, hashOf, contents, index);
    CollectCount(hs, ks, hashOf, contents, index, |hs|);
    assert hs[..|hs|] == hs;
  }

  /** The loop of the growth branch of DS__SetAdd: every occupied slot of the
      old table is added again, under its stored hash, to the empty table
      `hs0`, which ends up holding the same members. */
  method Reinsert<K(==)>(hs: seq<uint32>, ks: seq<K>, hashOf: K -> uint32,
                         ghost contents: set<K>, ghost index: map<K, nat>, hs0: seq<uint32>, ks0: seq<K>)
    returns (hs': seq<uint32>, ks': seq<K>, ghost ix: map<K, nat>)
    requires Members(hs, ks, hashOf, contents, index) && 100 * CountOccupied(hs) <= 70 * |hs0|
    requires |hs0| == |ks0| && forall q :: 0 <= q < |hs0| ==> hs0[q] == 0
    ensures |hs'| == |ks'| == |hs0| && CountOccupied(hs') == CountOccupied(hs)
    ensures Members(hs', ks', hashOf, contents, ix) && Reachable(hs')
  {
    CountEmpty(hs0);
    hs', ks', ix := hs0, ks0, map[];
    var n := 0;
    var i := 0;
    while i < |hs|
      invariant 0 <= i <= |hs| && |hs'| == |ks'| == |hs0|
      invariant n == CountOccupied(hs') == CountOccupied(hs[..i])
      invariant Members(hs', ks', hashOf, Collect(hs, ks, i), ix) && Reachable(hs')
    {
      hs', ks', ix, n := RehashSlot(hs, ks, hashOf, contents, index, i, hs', ks', ix, n);
      i := i + 1;
    }
    assert hs[..i] == hs;
    CollectAll(hs, ks, hashOf, contents, index);
  }

  /** The growth branch of DS__SetAdd: the members move to an empty table of
      the next capacity (8, or double). */
  method Rehash<K(==, 0, !new)>(hs: seq<uint32>, ks: seq<K>, hashOf: K -> uint32,
                                ghost contents: set<K>, hasCount: int, capacity: int)
    returns (hs': seq<uint32>, ks': seq<K>, capacity': int)
    requires SetInv(hs, ks, hashOf, contents, hasCount, capacity)
    ensures capacity' == NextCapacity(capacity)
    ensures SetInv(hs', ks', hashOf, contents, hasCount, capacity')
  {
    ghost var index :| Members(hs, ks, hashOf, contents, index);
    var k0: K := *;
    capacity' := NextCapacity(capacity);
    ghost var ix;
    hs', ks', ix := Reinsert(hs, ks, hashOf, contents, index, seq(capacity', _ => 0), seq(capacity', _ => k0));
  }

  /** The probe loop of DS__SetAdd, in a table with room for one more key. */
  method PlaceKey<K(==, !new)>(hs: seq<uint32>, ks: seq<K>, hashOf: K -> uint32,
                               ghost contents: set<K>, hasCount: int, capacity: int, key: K, h: uint32)
    returns (hs': seq<uint32>, ks': seq<K>, hasCount': int, added: bool)
    requires SetInv(hs, ks, hashOf, contents, hasCount, capacity)
    requires 100 * (hasCount + 1) <= 70 * capacity && h == Tag(hashOf(key))
    ensures added == (key !in contents)
    ensures hasCount' == if added then hasCount + 1 else hasCount
    ensures SetInv(hs', ks', hashOf, contents + {key}, hasCount', capacity)
  {
    var p, found := ProbeSlots(hs, ks, key, h);
    added := !found;
    if added {
      ProbeMiss(hs, ks, hashOf, contents, hasCount, capacity, key, p);
      InsertMember(hs, ks, hashOf, contents, hasCount, capacity, key, p);
      hs', ks', hasCount' := hs[p := h], ks[p := key], hasCount + 1;
    } else {
      ProbeHit(hs, ks, hashOf, contents, hasCount, capacity, key, p);
      assert contents + {key} == contents;
      hs', ks', hasCount' := hs, ks, hasCount;
    }
  }

  /** DS__SetAdd: grow first when one more key would pass 70% load (whether
      or not `key` is new), then probe for `key` and claim a slot for it if it
      is new. */
  method AddMember<K(==, 0, !new)>(hs: seq<uint32>, ks: seq<K>, hashOf: K -> uint32,
                                   ghost contents: set<K>, hasCount: int, capacity: int, key: K, h: uint32)
    returns (hs': seq<uint32>, ks': seq<K>, hasCount': int, capacity': int, added: bool)
    requires SetInv(hs, ks, hashOf, contents, hasCount, capacity) && h == Tag(hashOf(key))
    ensures capacity' == if 100 * (hasCount + 1) > 70 * capacity then NextCapacity(capacity) else capacity
    ensures added == (key !in contents)
    ensures hasCount' == if added then hasCount + 1 else hasCount
    ensures SetInv(hs', ks', hashOf, contents + {key}, hasCount', capacity')
  {
    hs', ks', capacity' := hs, ks, capacity;
    GrowthCapacityMultipleOf8(capacity);
    if 100 * (hasCount + 1) > 70 * capacity {
      hs', ks', capacity' := Rehash(hs, ks, hashOf, contents, hasCount, capacity);
    }
    hs', ks', hasCount', added := PlaceKey(hs', ks', hashOf, contents, hasCount, capacity', key, h);
  }

  /** One step of Remove's backward shift: the key of slot `j` is taken out
      and added again by the nested DS__SetAdd, landing at `j` or closer to its
      home slot. */
  method ShiftSlot<K(==)>(hs: seq<uint32>, ks: seq<K>, hashOf: K -> uint32,
                          ghost contents: set<K>, ghost index: map<K, nat>, hasCount: int,
                          j: nat, ghost i0: nat, ghost e: nat, ghost t: nat)
    returns (hs': seq<uint32>, ks': seq<K>, ghost index': map<K, nat>)
    requires |hs| > 0 && i0 < |hs| && e < |hs| && j < |hs|
    requires Dist(i0, j, |hs|) == t && ShiftInv(hs, i0, e, t) && hs[j] != 0
    requires hasCount == CountOccupied(hs) && 100 * (hasCount + 1) <= 70 * |hs|
    requires Members(hs, ks, hashOf, contents, index)
    ensures |hs'| == |ks'| == |hs|
    ensures CountOccupied(hs') == hasCount && ShiftInv(hs', i0, e, t + 1)
    ensures Members(hs', ks', hashOf, contents, index')
  {
    var h, key := hs[j], ks[j];
    CountUpdate(hs, j, 0);
    var p, found := ProbeSlots(hs[j := 0], ks, key, h);
    assert !found;
    MoveMember(hs, ks, hashOf, contents, index, j, p);
    ShiftStep(hs, i0, e, t, j, p);
    hs', ks' := hs[j := 0][p := h], ks[p := key];
    index' := (index - {key})[key := p];
  }

  /** The backward shift of DS_Set::Remove, once the removed key's slot `i0`
      is empty. */
  method ShiftBack<K(==)>(hs: seq<uint32>, ks: seq<K>, hashOf: K -> uint32,
                          ghost contents: set<K>, ghost index: map<K, nat>, hasCount: int,
                          i0: nat, ghost e: nat)
    returns (hs': seq<uint32>, ks': seq<K>, ghost index': map<K, nat>)
    requires i0 < |hs| && e < |hs| && ShiftInv(hs, i0, e, 1)
    requires hasCount == CountOccupied(hs) && 100 * (hasCount + 1) <= 70 * |hs|
    requires Members(hs, ks, hashOf, contents, index)
    ensures |hs'| == |ks'| == |hs|
    ensures CountOccupied(hs') == hasCount && Reachable(hs')
    ensures Members(hs', ks', hashOf, contents, index')
  {
    hs', ks', index' := hs, ks, index;
    var cap := |hs|;
    DistNext(i0, i0, cap);
    var j: nat := Next(i0, cap);
    ghost var t := 1;
    while hs'[j] != 0
      invariant |hs'| == |ks'| == cap
      invariant j < cap && Dist(i0, j, cap) == t
      invariant ShiftInv(hs', i0, e, t)
      invariant hasCount == CountOccupied(hs')
      invariant Members(hs', ks', hashOf, contents, index')
      decreases Dist(i0, e, cap) - t
    {
      hs', ks', index' := ShiftSlot(hs', ks', hashOf, contents, index', hasCount, j, i0, e, t);
      DistNext(i0, j, cap);
      j := Next(j, cap);
      t := t + 1;
    }
    ShiftEnd(hs', i0, e, t, j);
  }

  /** The deletion of DS_Set::Remove once the key's slot `i0` is found:
      empty it and shift the keys after it back. */
  method DeleteAt<K(==)>(hs: seq<uint32>, ks: seq<K>, hashOf: K -> uint32,
                         ghost contents: set<K>, ghost index: map<K, nat>, hasCount: int, i0: nat)
    returns (hs': seq<uint32>, ks': seq<K>, ghost index': map<K, nat>)
    requires Members(hs, ks, hashOf, contents, index) && Reachable(hs)
    requires hasCount == CountOccupied(hs) && 100 * hasCount <= 70 * |hs|
    requires i0 < |hs| && hs[i0] != 0
    ensures |hs'| == |ks'| == |hs|
    ensures CountOccupied(hs') == hasCount - 1 && Reachable(hs')
    ensures Members(hs', ks', hashOf, contents - {ks[i0]}, index')
  {
    ghost var e := FirstEmptyAfter(hs, i0);
    ShiftStart(hs, i0, e);
    ClearMember(hs, ks, hashOf, contents, index, i0);
    hs', ks', index' := ShiftBack(hs[i0 := 0], ks, hashOf, contents - {ks[i0]}, index - {ks[i0]}, hasCount - 1, i0, e);
  }

  /** DS_Set::Remove: probe for `key`; if its slot is found, empty it and
      shift the keys after it back. The capacity never changes. */
  method RemoveMember<K(==, !new)>(hs: seq<uint32>, ks: seq<K>, hashOf: K -> uint32,
                                   ghost contents: set<K>, hasCount: int, capacity: int, key: K)
    returns (hs': seq<uint32>, ks': seq<K>, hasCount': int, removed: bool)
    requires SetInv(hs, ks, hashOf, contents, hasCount, capacity)
    ensures removed == (key in contents)
    ensures hasCount' == if removed then hasCount - 1 else hasCount
    ensures SetInv(hs', ks', hashOf, contents - {key}, hasCount', capacity)
  {
    if capacity == 0 {
      assert contents - {key} == contents;
      return hs, ks, hasCount, false;
    }
    var h := Tag(hashOf(key));
    var i0, found := ProbeSlots(hs, ks, key, h);
    if !found {
      ProbeMiss(hs, ks, hashOf, contents, hasCount, capacity, key, i0);
      assert contents - {key} == contents;
      return hs, ks, hasCount, false;
    }
    ProbeHit(hs, ks, hashOf, contents, hasCount, capacity, key, i0);
    ghost var index :| Members(hs, ks, hashOf, contents, index);
    ghost var index';
    hs', ks', index' := DeleteAt(hs, ks, hashOf, contents, index, hasCount, i0);
    hasCount' := hasCount - 1;
    removed := true;
  }

  /** In a set that has never grown (Capacity 0, Data NULL) the first probe of
      Has is the tagged hash itself, which is at least 2^31: Has reads a slot
      of an array that has none. */
  lemma FirstProbeOfEmptySet(h: uint32)
    ensures FirstProbe(Tag(h), 0) == Tag(h) && FirstProbe(Tag(h), 0) >= 0x8000_0000
  {
    Pow2Of32();
    MaskIsMod(Tag(h), 0x1_0000_0000);
    ModOfSplit(Tag(h), 0x1_0000_0000, 0, Tag(h));
  }

  /** A DS_Set: the slot columns, `HasCount` and `Capacity`, with the keys
      they stand for as a ghost set. */
  class Set<K(==, 0, !new)> {
    /** DS_KeyType<KEY>::hash. */
    const hashOf: K -> uint32
    /** Data[0 .. Capacity).Hash and .Key. */
    var hashes: seq<uint32>
    var keys: seq<K>
    var hasCount: int
    var capacity: int
    /** The keys the set holds. */
    ghost var contents: set<K>

    ghost predicate Valid()
      reads this
    {
      SetInv(hashes, keys, hashOf, contents, hasCount, capacity)
    }

    /** Init: an empty set without slots. */
    constructor (hashOf: K -> uint32)
      ensures Valid() && contents == {} && capacity == 0 && hasCount == 0
      ensures this.hashOf == hashOf
    {
      this.hashOf := hashOf;
      hashes, keys := [], [];
      hasCount := 0;
      capacity := 0;
      contents := {};
      new;
      assert Members(hashes, keys, hashOf, contents, map[]);
    }

    /** Add: true when `key` was not a member; it is one afterwards. */
    method Add(key: K) returns (added: bool)
      requires Valid()
      modifies this
      ensures Valid()
      ensures added == (key !in old(contents))
      ensures hasCount == if added then old(hasCount) + 1 else old(hasCount)
      ensures contents == old(contents) + {key}
      ensures capacity == if 100 * (old(hasCount) + 1) > 70 * old(capacity) then NextCapacity(old(capacity)) else old(capacity)
    {
      var hs, ks, n, c;
      hs, ks, n, c, added := AddMember(hashes, keys, hashOf, contents, hasCount, capacity, key, Tag(hashOf(key)));
      hashes, keys, hasCount, capacity := hs, ks, n, c;
      contents := contents + {key};
    }

    /** Has, as written: it starts probing without checking for a set that has
        no slots yet, so it needs one that has grown at least once. */
    method Has(key: K) returns (b: bool)
      requires Valid() && capacity > 0
      ensures b == (key in contents)
    {
      var p, found := ProbeSlots(hashes, keys, key, Tag(hashOf(key)));
      if found {
        ProbeHit(hashes, keys, hashOf, contents, hasCount, capacity, key, p);
        return true;
      }
      ProbeMiss(hashes, keys, hashOf, contents, hasCount, capacity, key, p);
      return false;
    }

    /** Has with the `Capacity == 0` guard that DS_Map::FindPtr has: defined
        on every set. */
    method HasChecked(key: K) returns (b: bool)
      requires Valid()
      ensures b == (key in contents)
    {
      if capacity == 0 {
        return false;
      }
      b := Has(key);
    }

    /** Remove: true when `key` was a member; it is not one afterwards. */
    method Remove(key: K) returns (removed: bool)
      requires Valid()
      modifies this
      ensures Valid() && capacity == old(capacity)
      ensures removed == (key in old(contents))
      ensures hasCount == if removed then old(hasCount) - 1 else old(hasCount)
      ensures contents == old(contents) - {key}
    {
      var hs, ks, n;
      ghost var c := contents - {key};
      hs, ks, n, removed := RemoveMember(hashes, keys, hashOf, contents, hasCount, capacity, key);
      hashes, keys, hasCount, contents := hs, ks, n, c;
    }
  }
}
