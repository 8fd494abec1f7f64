/** DS_KeyType: how map and set keys are hashed and compared.
    The source dispatches on the C++ type at compile time; here a key is a value
    of one of the shapes it handles. */
module KeyType {
  import opened Hashing

  datatype Key =
    | Word32(w32: bv32)           // a 4-byte fundamental value, by its bits
    | Word64(w64: bv64)           // an 8-byte fundamental value, by its bits
    | Bytes(data: seq<bv8>)       // DS_String / DS_StringView
    | Fields(fields: seq<Key>)    // an aggregate with 1 to 8 fields

  /** The keys the source accepts: every aggregate has between 1 and 8 fields. */
  predicate WellShaped(k: Key) {
    match k
    case Fields(fs) => 1 <= |fs| <= 8 && forall i :: 0 <= i < |fs| ==> WellShaped(fs[i])
    case _ => true
  }

  /** 2607369547: XORed into fundamental values so that the mixer never sees 0
      for a 0 key, and the MurmurHash3 seed for strings. */
  const HashSeed: bv32 := 0x9b69_4d4b

  /** `uint32_t` return of a 64-bit mix: the low 32 bits. */
  function Low32(y: bv64): bv32 {
    (y & 0xFFFF_FFFF) as bv32
  }

  /** DS_KeyType<T>::hash. An aggregate with a single field hashes like that field. */
  function Hash(k: Key): (r: bv32)
    requires WellShaped(k)
    ensures k.Fields? && |k.fields| == 1 ==> r == Hash(k.fields[0])
    decreases k, 1, 0
  {
    match k
    case Word32(x) => Fmix32(x ^ HashSeed)
    case Word64(x) => Low32(Fmix64(x ^ (HashSeed as bv64)))
    case Bytes(s) => Murmur3(s, HashSeed)
    case Fields(fs) =>
      if |fs| == 1 then
        assert CombineFields(k, 0) == 0;
        CombineZero(Hash(fs[0]));
        CombineFields(k, 1)
      else CombineFields(k, |fs|)
  }

  /** One step of the aggregate hash: the hash so far doubled, plus the next
      field's hash, in `uint32_t`. */
  function Combine(h: bv32, next: bv32): bv32 {
    2 * h + next
  }

  /** `2*(...(2*(2*h1 + h2) + h3)...) + hn` over the first `n` fields, in `uint32_t`. */
  function CombineFields(k: Key, n: nat): bv32
    requires k.Fields? && n <= |k.fields| && WellShaped(k)
    decreases k, 0, n
  {
    if n == 0 then 0
    else Combine(CombineFields(k, n - 1), Hash(k.fields[n - 1]))
  }

  /** DS_KeyType<T>::is_equal: values by bits, strings by size and bytes,
      aggregates field by field. Keys of different shapes never compare equal.
      The comparison is exactly value equality, so a table may compare keys with `==`. */
  function IsEqual(a: Key, b: Key): (r: bool)
    ensures r <==> a == b
    decreases a
  {
    match a
    case Word32(x) => b.Word32? && x == b.w32
    case Word64(x) => b.Word64? && x == b.w64
    case Bytes(s) => b.Bytes? && |s| == |b.data| && s == b.data
    case Fields(fs) =>
      b.Fields? && |fs| == |b.fields|
      && forall i :: 0 <= i < |fs| ==> IsEqual(fs[i], b.fields[i])
  }

  /** Combining into an empty hash gives the field's own hash. */
  lemma CombineZero(h: bv32)
    ensures Combine(0, h) == h
  {}

  /** Swapping two hashes in a combine step changes the result unless they
      are equal: `2x + y - (2y + x)` is `x - y` modulo 2^32. */
  lemma CombineSwap(x: bv32, y: bv32)
    ensures Combine(x, y) == Combine(y, x) <==> x == y
  {}

  /** Aggregate hashing depends on field order: a two-field key and its swap
      hash alike exactly when the two fields hash alike. */
  lemma OrderDependent(a: Key, b: Key)
    requires WellShaped(a) && WellShaped(b)
    ensures Hash(Fields([a, b])) == Hash(Fields([b, a])) <==> Hash(a) == Hash(b)
  {
    var ab, ba := Fields([a, b]), Fields([b, a]);
    assert WellShaped(ab) && WellShaped(ba);
    assert ab.fields[0] == a && ab.fields[1] == b;
    assert ba.fields[0] == b && ba.fields[1] == a;
    CombineZero(Hash(a));
    CombineZero(Hash(b));
    assert CombineFields(ab, 1) == Hash(a) && CombineFields(ba, 1) == Hash(b);
    assert Hash(ab) == Combine(Hash(a), Hash(b));
    assert Hash(ba) == Combine(Hash(b), Hash(a));
    CombineSwap(Hash(a), Hash(b));
  }

  /** The 0 key does not hash to 0: the seed is mixed instead. */
  lemma ZeroKeyHash()
    ensures Hash(Word32(0)) == Fmix32(0x9b69_4d4b) == 0x56c5_6a69
  {}
}
