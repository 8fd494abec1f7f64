/** What DS_Map and DS_Set keep in their slot arrays beyond the probing
    invariant: every occupied slot holds its own key's tagged hash, and no key is
    stored twice. A table is seen here through two parallel sequences, the slot
    hashes `hs` (0 = empty) and the slot keys `ks`; the key of an empty slot is
    stale and means nothing. */
module SlotTable {
  import opened Probing

  /** `DS_Hash(key) | (1 << 31)`: the hash a slot stores sets bit 31 and keeps
      the other 31 bits of the key's hash, so it is never the empty marker 0. */
  function Tag(h: uint32): (r: uint32)
    ensures r != 0
    ensures r >= 0x8000_0000 && r % 0x8000_0000 == h % 0x8000_0000
  {
    if h < 0x8000_0000 then h + 0x8000_0000 else h
  }

  /** Every occupied slot stores the tagged hash of its key. */
  ghost predicate Tagged<K>(hs: seq<uint32>, ks: seq<K>, hashOf: K -> uint32)
    requires |hs| == |ks|
  {
    forall i :: 0 <= i < |hs| && hs[i] != 0 ==> hs[i] == Tag(hashOf(ks[i]))
  }

  /** `index` maps each stored key to the one slot that holds it. As a
      consequence no key occupies two slots, and the keys of `index` are the keys
      of the occupied slots. */
  ghost predicate Indexed<K>(hs: seq<uint32>, ks: seq<K>, index: map<K, nat>)
    requires |hs| == |ks|
  {
    (forall k :: k in index ==> index[k] < |hs| && hs[index[k]] != 0 && ks[index[k]] == k)
    && (forall i :: 0 <= i < |hs| && hs[i] != 0 ==> ks[i] in index && index[ks[i]] == i)
  }

  /** A probe for `k` that meets the empty slot `p` before any slot holding `k`
      proves that `k` is not in the table. */
  lemma MissMeansAbsent<K>(hs: seq<uint32>, ks: seq<K>, hashOf: K -> uint32, index: map<K, nat>, k: K, p: nat)
    requires |hs| == |ks| && Indexed(hs, ks, index) && Tagged(hs, ks, hashOf) && Reachable(hs)
    requires p < |hs| && hs[p] == 0
    requires forall q :: 0 <= q < |hs| && Dist(Home(Tag(hashOf(k)), |hs|), q, |hs|) < Dist(Home(Tag(hashOf(k)), |hs|), p, |hs|)
               ==> !(hs[q] == Tag(hashOf(k)) && ks[q] == k)
    ensures k !in index
  {
    var a := Home(Tag(hashOf(k)), |hs|);
    if k in index {
      var i := index[k];
      assert PathFull(hs, Home(hs[i], |hs|), i);
      if Dist(a, i, |hs|) == Dist(a, p, |hs|) { DistInjective(a, i, p, |hs|); }
    }
  }

  /** Writing a new key into an empty slot indexes it there. */
  lemma PutKey<K>(hs: seq<uint32>, ks: seq<K>, hashOf: K -> uint32, index: map<K, nat>, k: K, p: nat)
    requires |hs| == |ks| && p < |hs| && hs[p] == 0
    requires Indexed(hs, ks, index) && Tagged(hs, ks, hashOf) && k !in index
    ensures Indexed(hs[p := Tag(hashOf(k))], ks[p := k], index[k := p])
    ensures Tagged(hs[p := Tag(hashOf(k))], ks[p := k], hashOf)
  {}

  /** Emptying an occupied slot drops its key from the index. */
  lemma ClearKey<K>(hs: seq<uint32>, ks: seq<K>, hashOf: K -> uint32, index: map<K, nat>, i: nat)
    requires |hs| == |ks| && i < |hs| && hs[i] != 0
    requires Indexed(hs, ks, index) && Tagged(hs, ks, hashOf)
    ensures Indexed(hs[i := 0], ks, index - {ks[i]}) && Tagged(hs[i := 0], ks, hashOf)
  {}

  /** The probe loop of DS__MapAdd, DS_MapFindPtr, DS_MapRemove and their DS_Set
      counterparts: from the home slot of `h`, step to the next slot until a slot
      is empty or holds `key` under `h`. Every slot passed on the way is occupied
      by another key, so the probe ends while the table has an empty slot. */
  method ProbeSlots<K(==)>(hs: seq<uint32>, ks: seq<K>, key: K, h: uint32) returns (p: nat, found: bool)
    requires |hs| == |ks| > 0 && CountOccupied(hs) < |hs|
    ensures p < |hs| && found == (hs[p] != 0)
    ensures found ==> hs[p] == h && ks[p] == key
    ensures PathFull(hs, Home(h, |hs|), p)
    ensures forall q :: 0 <= q < |hs| && Dist(Home(h, |hs|), q, |hs|) < Dist(Home(h, |hs|), p, |hs|)
              ==> !(hs[q] == h && ks[q] == key)
  {
    var home := Home(h, |hs|);
    p := home;
    ghost var d := 0;
    while hs[p] != 0 && !(hs[p] == h && ks[p] == key)
      invariant p < |hs| && d == Dist(home, p, |hs|)
      invariant forall q :: 0 <= q < |hs| && Dist(home, q, |hs|) < d
                  ==> hs[q] != 0 && !(hs[q] == h && ks[q] == key)
      decreases |hs| - d
    {
      ProbeBound(hs, home, p);
      DistNext(home, p, |hs|);
      p := Next(p, |hs|);
      d := d + 1;
    }
    found := hs[p] != 0;
  }

  /** Tagging twice is tagging once: the re-insertions of DS_Map's growth and
      backward shift pass an already tagged hash, and it stays the same. */
  lemma TagIdempotent(h: uint32)
    ensures Tag(Tag(h)) == Tag(h)
  {}
}
