/** MurmurHash3_x86_32 and the fmix finalizers used to hash map and set keys. */
module Hashing {

  /** `uint32_t` left rotation by a constant amount. */
  function Rotl32(x: bv32, r: bv32): bv32
    requires 0 < r < 32
  {
    (x << r) | (x >> (32 - r))
  }

  /** fmix32: forces every bit of a 32-bit value to avalanche. Zero is a
      fixed point, which is why key hashing XORs a constant in first. */
  function Fmix32(h0: bv32): (r: bv32)
    ensures h0 == 0 ==> r == 0
  {
    var h1 := h0 ^ (h0 >> 16);
    var h2 := h1 * 0x85eb_ca6b;
    var h3 := h2 ^ (h2 >> 13);
    var h4 := h3 * 0xc2b2_ae35;
    h4 ^ (h4 >> 16)
  }

  /** fmix64: the 64-bit finalizer, with zero as a fixed point too. */
  function Fmix64(k0: bv64): (r: bv64)
    ensures k0 == 0 ==> r == 0
  {
    var k1 := k0 ^ (k0 >> 33);
    var k2 := k1 * 0xff51_afd7_ed55_8ccd;
    var k3 := k2 ^ (k2 >> 33);
    var k4 := k3 * 0xc4ce_b9fe_1a85_ec53;
    k4 ^ (k4 >> 33)
  }

  /** The i-th 4-byte block of `data`, read little-endian as on x86. */
  function Block(data: seq<bv8>, i: nat): bv32
    requires 4 * i + 4 <= |data|
  {
    (data[4 * i] as bv32)
    | ((data[4 * i + 1] as bv32) << 8)
    | ((data[4 * i + 2] as bv32) << 16)
    | ((data[4 * i + 3] as bv32) << 24)
  }

  function MixK1(k1: bv32): bv32 {
    Rotl32(k1 * 0xcc9e_2d51, 15) * 0x1b87_3593
  }

  function MixBlock(h1: bv32, k1: bv32): bv32 {
    Rotl32(h1 ^ MixK1(k1), 13) * 5 + 0xe654_6b64
  }

  /** The hash state after mixing in the first `n` blocks of `data`. */
  function Body(h1: bv32, data: seq<bv8>, n: nat): bv32
    requires 4 * n <= |data|
  {
    if n == 0 then h1 else MixBlock(Body(h1, data, n - 1), Block(data, n - 1))
  }

  /** The trailing bytes that do not fill a block gathered into one word, as the
      `switch (len & 3)` does by falling through its cases from 3 down to 1. */
  function TailKey(tail: seq<bv8>): bv32
    requires 1 <= |tail| < 4
  {
    var k3: bv32 := if |tail| == 3 then 0 ^ ((tail[2] as bv32) << 16) else 0;
    var k2: bv32 := if |tail| >= 2 then k3 ^ ((tail[1] as bv32) << 8) else k3;
    k2 ^ (tail[0] as bv32)
  }

  /** The tail step: nothing when the length is a multiple of 4, otherwise the mixed tail word. */
  function Tail(h1: bv32, tail: seq<bv8>): bv32
    requires |tail| < 4
  {
    if |tail| == 0 then h1 else h1 ^ MixK1(TailKey(tail))
  }

  /** `(uint32_t)len`: the low 32 bits of the length, built up from its lowest
      bit; the bits above bit 31 shift out. */
  function Len32(n: nat): bv32 {
    if n == 0 then 0 else (Len32(n / 2) << 1) | (if n % 2 == 1 then 1 else 0)
  }

  /** The state just before finalization: blocks, tail, then the length. */
  function Unfinalized(data: seq<bv8>, seed: bv32): bv32 {
    var n := |data| / 4;
    Tail(Body(seed, data, n), data[4 * n..]) ^ Len32(|data|)
  }

  /** MurmurHash3_x86_32 of `data` with `seed`. An input shorter than a block
      is mixed only as a tail; the empty input leaves the seed to the finalizer. */
  function Murmur3(data: seq<bv8>, seed: bv32): (r: bv32)
    ensures |data| < 4 ==> r == Fmix32(Tail(seed, data) ^ Len32(|data|))
    ensures |data| == 0 ==> r == Fmix32(seed)
  {
    assert data[0..] == data;
    Fmix32(Unfinalized(data, seed))
  }

  /** DS_MurmurHash3: one pass over the blocks, then the tail, then finalization. */
  method MurmurHash3(data: seq<bv8>, seed: bv32) returns (h: bv32)
    ensures h == Murmur3(data, seed)
  {
    var nblocks := |data| / 4;
    var h1 := seed;
    var i := 0;
    while i < nblocks
      invariant 0 <= i <= nblocks
      invariant h1 == Body(seed, data, i)
    {
      h1 := MixBlock(h1, Block(data, i));
      i := i + 1;
    }
    h1 := Tail(h1, data[4 * nblocks..]);
    h1 := h1 ^ Len32(|data|);
    assert h1 == Unfinalized(data, seed);
    h := Fmix32(h1);
  }

  /** Published MurmurHash3_x86_32 values for the empty input. */
  lemma Murmur3EmptyKnownAnswers()
    ensures Murmur3([], 0) == 0
    ensures Murmur3([], 1) == 0x514e_28b7
    ensures Murmur3([], 0xffff_ffff) == 0x81f1_6f39
  {}

  /** Published value for one whole block: the little-endian read, the block
      constants and rotations, and the length. */
  lemma Murmur3OneBlockKnownAnswer()
    ensures Murmur3([0x21, 0x43, 0x65, 0x87], 0) == 0xf55b_516b
  {
    var d: seq<bv8> := [0x21, 0x43, 0x65, 0x87];
    assert Block(d, 0) == 0x8765_4321;
    assert Body(0, d, 1) == MixBlock(0, 0x8765_4321) == 0xbb09_5db4;
    assert d[4..] == [];
    assert Unfinalized(d, 0) == 0xbb09_5db0;
  }

  /** Published values for inputs shorter than a block: the three cases of
      the tail switch, falling through from 3 to 1. */
  lemma Murmur3TailKnownAnswers()
    ensures Murmur3([0x21, 0x43, 0x65], 0) == 0x7e4a_8634
    ensures Murmur3([0x21, 0x43], 0) == 0xa0f7_b07a
    ensures Murmur3([0x21], 0) == 0x7266_1cf4
  {
    assert TailKey([0x21, 0x43, 0x65]) == 0x65_4321;
    assert TailKey([0x21, 0x43]) == 0x4321;
    assert TailKey([0x21]) == 0x21;
  }
}
