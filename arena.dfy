/** DS_Arena: a bump allocator over a singly linked list of blocks. Addresses
    are integers (0 is NULL). The list is the sequence `blocks` in list order,
    the first element being FirstBlock; `cur` is the position of the block the
    mark points into. The backing allocator is an object that hands out fresh
    addresses above every address it handed out before and records the calls
    made to it. */
module Arenas {
  import opened Align

  /** sizeof(DS_ArenaBlockHeader) on a 64-bit target: a uint32, a bool and a
      pointer. */
  const HEADER := 16
  const U32 := 0x1_0000_0000

  /** A block header: its address, SizeIncludingHeader (a uint32) and
      AllocatedFromBackingAllocator. */
  datatype Block = Block(base: int, size: int, fromBacking: bool)

  /** DS_ArenaMark: the current block (0 before the arena has one) and the
      first free address. */
  datatype Mark = Mark(block: int, ptr: int)

  /** The addresses of `bs`, in order. */
  function Bases(bs: seq<Block>): (r: seq<int>)
    ensures |r| == |bs| && forall i :: 0 <= i < |bs| ==> r[i] == bs[i].base
  {
    if bs == [] then [] else Bases(bs[..|bs| - 1]) + [bs[|bs| - 1].base]
  }

  /** The addresses of the blocks of `bs` that came from the backing
      allocator, in order. */
  function BackedBases(bs: seq<Block>): (r: seq<int>)
    ensures |r| <= |bs|
    ensures forall i :: 0 <= i < |bs| && bs[i].fromBacking ==> bs[i].base in r
    ensures forall x :: x in r ==> exists i :: 0 <= i < |bs| && bs[i].fromBacking && bs[i].base == x
  {
    if bs == [] then []
    else BackedBases(bs[..|bs| - 1]) + (if bs[|bs| - 1].fromBacking then [bs[|bs| - 1].base] else [])
  }

  /** The backing allocator (MemAlloc / MemFree of a DS_Allocator). */
  class Backing {
    /** Every address handed out so far lies below `top`. */
    var top: int
    /** The addresses returned by MemAlloc, in call order. */
    var allocs: seq<int>
    /** The addresses passed to MemFree, in call order. */
    var freed: seq<int>

    constructor (top0: int)
      ensures top == top0 && allocs == [] && freed == []
    {
      top, allocs, freed := top0, [], [];
    }

    /** A fresh region of `size` bytes aligned to `alignment`, above every
        earlier one. */
    method MemAlloc(size: int, alignment: int) returns (addr: int)
      requires 0 <= size && IsPow2(alignment)
      modifies this
      ensures 0 < addr && old(top) <= addr && addr + size < top && addr % alignment == 0
      ensures allocs == old(allocs) + [addr] && freed == old(freed)
    {
      addr := AlignUpPow2(if top < 1 then 1 else top, alignment);
      top := addr + size + 1;
      allocs := allocs + [addr];
    }

    /** Gives a region back. */
    method MemFree(addr: int)
      modifies this
      ensures freed == old(freed) + [addr] && allocs == old(allocs) && top == old(top)
    {
      freed := freed + [addr];
    }
  }

  /** The blocks are non-NULL, aligned to the block alignment, below the
      backing allocator's `top`, pairwise distinct, with a uint32 size, and
      every block after the first came from the backing allocator. */
  ghost predicate BlocksOk(bs: seq<Block>, alignment: int, top: int)
  {
    alignment > 0
    && (forall i :: 0 <= i < |bs| ==>
       0 < bs[i].base < top && bs[i].base % alignment == 0 && 0 <= bs[i].size < U32
       && (i > 0 ==> bs[i].fromBacking))
    && (forall i, j :: 0 <= i < j < |bs| ==> bs[i].base != bs[j].base)
  }

  /** `b` inserted right after position `c` (at the front when `c` is -1). */
  function InsertAfter(bs: seq<Block>, c: int, b: Block): (r: seq<Block>)
    requires -1 <= c < |bs|
    ensures |r| == |bs| + 1 && r[c + 1] == b
    ensures forall i :: 0 <= i <= c ==> r[i] == bs[i]
    ensures forall i :: c < i < |bs| ==> r[i + 1] == bs[i]
  {
    bs[..c + 1] + [b] + bs[c + 1..]
  }

  /** A fresh block from the backing allocator, inserted after the current
      block of a non-empty list or as the whole of an empty one, keeps the
      blocks well formed. */
  lemma InsertFresh(bs: seq<Block>, alignment: int, top: int, top': int, c: int, b: Block)
    requires BlocksOk(bs, alignment, top) && 0 < b.base && top <= b.base < top'
    requires b.base % alignment == 0 && 0 <= b.size < U32 && b.fromBacking
    requires (bs == [] && c == -1) || 0 <= c < |bs|
    ensures BlocksOk(InsertAfter(bs, c, b), alignment, top')
  {
    var r := InsertAfter(bs, c, b);
    forall i, j | 0 <= i < j < |r|
      ensures r[i].base != r[j].base
    {
      if i != c + 1 && j != c + 1 {
        var i0 := if i <= c then i else i - 1;
        var j0 := if j <= c then j else j - 1;
        assert r[i] == bs[i0] && r[j] == bs[j0];
      } else if i == c + 1 {
        assert r[j] == bs[j - 1];
      } else {
        assert r[i] == bs[i];
      }
    }
    forall i | 0 <= i < |r|
      ensures 0 < r[i].base < top' && r[i].base % alignment == 0 && 0 <= r[i].size < U32
      ensures i > 0 ==> r[i].fromBacking
    {
      if i <= c {
        assert r[i] == bs[i];
      } else if i > c + 1 {
        assert r[i] == bs[i - 1];
      }
    }
  }

  class Arena {
    const backing: Backing
    var blocks: seq<Block>
    var cur: int
    var mark: Mark
    var blockSize: int
    var blockAlignment: int

    /** The mark is NULL exactly when there are no blocks; otherwise it
        points into block `cur`, past its header. */
    ghost predicate Valid()
      reads this, backing
    {
      IsPow2(blockAlignment) && 0 <= blockSize < U32
      && (mark.block == 0 <==> blocks == [])
      && (blocks != [] ==> 0 <= cur < |blocks| && blocks[cur].base == mark.block && mark.block + HEADER <= mark.ptr)
      && BlocksOk(blocks, blockAlignment, backing.top)
    }

    /** A mark SetMark accepts: NULL, or a position past the header of one
        of the arena's blocks. */
    ghost predicate ValidMark(m: Mark)
      reads this
    {
      m.block == 0 || exists i :: 0 <= i < |blocks| && blocks[i].base == m.block && m.block + HEADER <= m.ptr
    }

    /** Init: with an initial block (address `initialBlock`, aligned to the
        block alignment) the arena starts on it, after its header; without
        one the mark is NULL. */
    constructor (backing: Backing, initialBlock: int, blockSize: int, blockAlignment: int)
      requires IsPow2(blockAlignment) && 0 <= blockSize < U32 && 0 <= initialBlock
      requires initialBlock != 0 ==> initialBlock % blockAlignment == 0 && initialBlock < backing.top
      ensures Valid() && this.backing == backing
      ensures this.blockSize == blockSize && this.blockAlignment == blockAlignment
      ensures initialBlock == 0 ==> blocks == [] && mark == Mark(0, 0)
      ensures initialBlock != 0 ==> blocks == [Block(initialBlock, blockSize, false)] && cur == 0
      ensures initialBlock != 0 ==> mark == Mark(initialBlock, initialBlock + HEADER)
    {
      this.backing := backing;
      this.blockSize := blockSize;
      this.blockAlignment := blockAlignment;
      cur := 0;
      if initialBlock != 0 {
        blocks := [Block(initialBlock, blockSize, false)];
        mark := Mark(initialBlock, initialBlock + HEADER);
      } else {
        blocks := [];
        mark := Mark(0, 0);
      }
    }

    /** The room left in the current block after aligning the mark, or 0
        without a block. */
    function Remaining(alignment: int): int
      reads this
      requires IsPow2(alignment) && (blocks != [] ==> 0 <= cur < |blocks|)
    {
      if mark.block != 0 && blocks != [] then blocks[cur].size - (AlignUpPow2(mark.ptr, alignment) - mark.block) else 0
    }

    /** The next block exists and has room for `size` bytes after an aligned
        header. */
    function NextFits(size: int, alignment: int): bool
      reads this
      requires IsPow2(alignment)
    {
      mark.block != 0 && 0 <= cur && cur + 1 < |blocks| && size <= blocks[cur + 1].size - AlignUpPow2(HEADER, alignment)
    }

    /** A push of `size` bytes aligned to `alignment` is served at `at`
        without the backing allocator: in the current block at the aligned
        mark, or after the aligned header of the next block. */
    predicate ServedInPlace(size: int, alignment: int, at: int)
      reads this
      requires IsPow2(alignment) && (blocks != [] ==> 0 <= cur < |blocks|)
    {
      if size <= Remaining(alignment) then at == AlignUpPow2(mark.ptr, alignment)
      else NextFits(size, alignment) && at == blocks[cur + 1].base + AlignUpPow2(HEADER, alignment)
    }

    /** PushUninitialized: `size` bytes aligned to `alignment`. They are cut
        from the current block when they fit; otherwise the next block is
        reused when it is big enough, and otherwise exactly one new block of
        max(BlockSize, aligned header + size) bytes is taken from the backing
        allocator and linked in right after the current one. No block is
        ever unlinked and the mark ends just past the result. */
    method PushUninitialized(size: int, alignment: int) returns (result: int)
      requires Valid() && 0 <= size && IsPow2(alignment) && alignment <= blockAlignment
      modifies this, backing
      ensures Valid() && backing.freed == old(backing.freed)
      ensures blockSize == old(blockSize) && blockAlignment == old(blockAlignment)
      ensures result % alignment == 0 && mark.ptr == result + size
      ensures blocks != [] ==> blocks[cur].base + HEADER <= result
      ensures size <= old(Remaining(alignment)) ==>
                blocks == old(blocks) && cur == old(cur) && mark.block == old(mark.block)
                && result == AlignUpPow2(old(mark.ptr), alignment)
                && (blocks != [] ==> result + size <= blocks[cur].base + blocks[cur].size)
                && backing.allocs == old(backing.allocs)
      ensures size > old(Remaining(alignment)) && old(NextFits(size, alignment)) ==>
                blocks == old(blocks) && cur == old(cur) + 1 && backing.allocs == old(backing.allocs)
                && result == blocks[cur].base + AlignUpPow2(HEADER, alignment)
                && result + size <= blocks[cur].base + blocks[cur].size
      ensures size > old(Remaining(alignment)) && !old(NextFits(size, alignment)) ==>
                |backing.allocs| == |old(backing.allocs)| + 1
                && cur == (if old(blocks) == [] then 0 else old(cur) + 1)
                && blocks == InsertAfter(old(blocks), cur - 1,
                     Block(backing.allocs[|backing.allocs| - 1],
                           Max(blockSize, AlignUpPow2(HEADER, alignment) + size) % U32, true))
                && result == blocks[cur].base + AlignUpPow2(HEADER, alignment)
    {
      result := AlignUpPow2(mark.ptr, alignment);
      if size > Remaining(alignment) {
        if NextFits(size, alignment) {
          result := UseNext(size, alignment);
        } else {
          result := LinkNewBlock(size, alignment);
        }
      } else {
        mark := Mark(mark.block, result + size);
      }
    }

    /** The reuse path of PushUninitialized: the next block becomes current
        and the result follows its aligned header. */
    method UseNext(size: int, alignment: int) returns (result: int)
      requires Valid() && 0 <= size && IsPow2(alignment) && alignment <= blockAlignment
      requires NextFits(size, alignment)
      modifies this
      ensures Valid() && blocks == old(blocks) && cur == old(cur) + 1
      ensures blockSize == old(blockSize) && blockAlignment == old(blockAlignment)
      ensures result == blocks[cur].base + AlignUpPow2(HEADER, alignment) && result % alignment == 0
      ensures result + size <= blocks[cur].base + blocks[cur].size
      ensures mark == Mark(blocks[cur].base, result + size)
    {
      cur := cur + 1;
      StartAligned(blocks[cur].base, alignment, blockAlignment);
      result := blocks[cur].base + AlignUpPow2(HEADER, alignment);
      mark := Mark(blocks[cur].base, result + size);
    }

    /** The new-block path of PushUninitialized: one block of
        max(BlockSize, aligned header + size) bytes from the backing
        allocator, its size stored as a uint32, linked in after the current
        block (or as the first block) and made current. */
    method LinkNewBlock(size: int, alignment: int) returns (result: int)
      requires Valid() && 0 <= size && IsPow2(alignment) && alignment <= blockAlignment
      modifies this, backing
      ensures Valid() && backing.freed == old(backing.freed)
      ensures blockSize == old(blockSize) && blockAlignment == old(blockAlignment)
      ensures |backing.allocs| == |old(backing.allocs)| + 1
      ensures cur == (if old(blocks) == [] then 0 else old(cur) + 1)
      ensures blocks == InsertAfter(old(blocks), cur - 1,
                Block(backing.allocs[|backing.allocs| - 1],
                      Max(blockSize, AlignUpPow2(HEADER, alignment) + size) % U32, true))
      ensures result == blocks[cur].base + AlignUpPow2(HEADER, alignment) && result % alignment == 0
      ensures mark == Mark(blocks[cur].base, result + size)
    {
      var newBlockSize := Max(blockSize, AlignUpPow2(HEADER, alignment) + size);
      ghost var top0 := backing.top;
      var addr := backing.MemAlloc(newBlockSize, blockAlignment);
      var c := if blocks != [] then cur else -1;
      var b := Block(addr, newBlockSize % U32, true);
      InsertFresh(blocks, blockAlignment, top0, backing.top, c, b);
      StartAligned(addr, alignment, blockAlignment);
      result := addr + AlignUpPow2(HEADER, alignment);
      blocks, cur, mark := InsertAfter(blocks, c, b), c + 1, Mark(addr, result + size);
    }

    /** GetMark: the current position. */
    function GetMark(): (m: Mark)
      reads this
      ensures m == mark
    {
      mark
    }

    /** SetMark: a NULL mark rewinds to the start of the first block (or to
        NULL + header without one); any other mark becomes the mark, and the
        block it names becomes current. No block is freed or unlinked. */
    method SetMark(m: Mark)
      requires Valid() && ValidMark(m)
      modifies this
      ensures Valid() && blocks == old(blocks)
      ensures blockSize == old(blockSize) && blockAlignment == old(blockAlignment)
      ensures m.block == 0 && blocks == [] ==> mark == Mark(0, HEADER)
      ensures m.block == 0 && blocks != [] ==> mark == Mark(blocks[0].base, blocks[0].base + HEADER) && cur == 0
      ensures m.block != 0 ==> mark == m && blocks[cur].base == m.block
    {
      if m.block == 0 {
        if blocks == [] {
          mark := Mark(0, HEADER);
        } else {
          cur := 0;
          mark := Mark(blocks[0].base, blocks[0].base + HEADER);
        }
      } else {
        var i :| 0 <= i < |blocks| && blocks[i].base == m.block && m.block + HEADER <= m.ptr;
        cur := i;
        mark := m;
      }
    }

    /** Reset: frees every block after the first and unlinks them; frees the
        first block too (when it came from the backing allocator) and drops
        it when it is larger than BlockSize; the mark goes to the start of
        what is left. */
    method Reset()
      requires Valid()
      modifies this, backing
      ensures Valid() && backing.allocs == old(backing.allocs)
      ensures blockSize == old(blockSize) && blockAlignment == old(blockAlignment)
      ensures old(blocks) == [] ==> blocks == [] && mark == Mark(0, HEADER) && backing.freed == old(backing.freed)
      ensures old(blocks) != [] && old(blocks[0].size) <= blockSize ==>
                blocks == [old(blocks[0])] && cur == 0
                && mark == Mark(blocks[0].base, blocks[0].base + HEADER)
                && backing.freed == old(backing.freed) + Bases(old(blocks[1..]))
      ensures old(blocks) != [] && old(blocks[0].size) > blockSize ==>
                blocks == [] && mark == Mark(0, HEADER)
                && backing.freed == old(backing.freed) + Bases(old(blocks[1..]))
                     + (if old(blocks[0].fromBacking) then [old(blocks[0].base)] else [])
    {
      if blocks != [] {
        FreeAll(backing, blocks[1..]);
        var first := blocks[0];
        if first.size > blockSize {
          if first.fromBacking {
            backing.MemFree(first.base);
          }
          blocks := [];
        } else {
          blocks := [first];
        }
      }
      cur := 0;
      if blocks == [] {
        mark := Mark(0, HEADER);
      } else {
        mark := Mark(blocks[0].base, blocks[0].base + HEADER);
      }
    }

    /** Deinit: gives back every block that came from the backing allocator,
        in list order; the caller's initial block is not freed. */
    method Deinit()
      requires Valid()
      modifies backing
      ensures backing.freed == old(backing.freed) + BackedBases(blocks)
      ensures backing.allocs == old(backing.allocs)
    {
      var i := 0;
      while i < |blocks|
        invariant 0 <= i <= |blocks|
        invariant backing.freed == old(backing.freed) + BackedBases(blocks[..i])
        invariant backing.allocs == old(backing.allocs)
      {
        assert blocks[..i + 1][..i] == blocks[..i];
        if blocks[i].fromBacking {
          backing.MemFree(blocks[i].base);
        }
        i := i + 1;
      }
      assert blocks[..|blocks|] == blocks;
    }
  }

  /** The first byte after an aligned header of a block aligned to the
      block alignment is aligned to any smaller alignment. */
  lemma StartAligned(base: int, alignment: int, blockAlignment: int)
    requires IsPow2(alignment) && IsPow2(blockAlignment) && alignment <= blockAlignment
    requires base % blockAlignment == 0
    ensures (base + AlignUpPow2(HEADER, alignment)) % alignment == 0
  {
    Pow2Positive(alignment);
    AlignedToSmaller(base, alignment, blockAlignment);
    SumAligned(base, AlignUpPow2(HEADER, alignment), alignment);
  }

  function Max(a: int, b: int): int {
    if a > b then a else b
  }

  /** The freeing loop of Reset: every block of `bs`, in order. */
  method FreeAll(backing: Backing, bs: seq<Block>)
    modifies backing
    ensures backing.freed == old(backing.freed) + Bases(bs)
    ensures backing.allocs == old(backing.allocs) && backing.top == old(backing.top)
  {
    var i := 0;
    while i < |bs|
      invariant 0 <= i <= |bs|
      invariant backing.freed == old(backing.freed) + Bases(bs[..i])
      invariant backing.allocs == old(backing.allocs) && backing.top == old(backing.top)
    {
      assert bs[..i + 1][..i] == bs[..i];
      backing.MemFree(bs[i].base);
      i := i + 1;
    }
    assert bs[..|bs|] == bs;
  }

  /** The bytes of the address space that the model follows. */
  class Memory {
    var bytes: map<int, bv8>

    constructor (bytes: map<int, bv8>)
      ensures this.bytes == bytes
    {
      this.bytes := bytes;
    }
  }

  /** memcpy(dst, src, n): the `n` bytes at `src`, read before any is
      written, land at `dst`; every other byte stays. */
  method MemCopy(mem: Memory, dst: int, src: int, n: int)
    requires 0 <= n && forall a :: src <= a < src + n ==> a in mem.bytes
    modifies mem
    ensures forall a :: dst <= a < dst + n ==> a in mem.bytes && mem.bytes[a] == old(mem.bytes)[a - dst + src]
    ensures forall a :: a in old(mem.bytes) && !(dst <= a < dst + n) ==> a in mem.bytes && mem.bytes[a] == old(mem.bytes)[a]
    ensures forall a :: a in mem.bytes ==> a in old(mem.bytes) || dst <= a < dst + n
  {
    var source := mem.bytes;
    var i := 0;
    while i < n
      invariant 0 <= i <= n
      invariant forall a :: dst <= a < dst + i ==> a in mem.bytes && mem.bytes[a] == source[a - dst + src]
      invariant forall a :: a in source && !(dst <= a < dst + i) ==> a in mem.bytes && mem.bytes[a] == source[a]
      invariant forall a :: a in mem.bytes ==> a in source || dst <= a < dst + i
    {
      mem.bytes := mem.bytes[dst + i := source[src + i]];
      i := i + 1;
    }
  }

  /** DS_ArenaAllocatorFunction: the arena as a DS_Allocator. Every call
      pushes `size` fresh bytes, and when there is old data its `oldSize`
      bytes are copied to the new place; nothing is ever freed. */
  method ArenaAllocatorFunction(arena: Arena, mem: Memory, oldData: int, oldSize: int, size: int, alignment: int)
    returns (data: int)
    requires arena.Valid() && 0 <= size && 0 <= oldSize && IsPow2(alignment) && alignment <= arena.blockAlignment
    requires oldData != 0 ==> forall a :: oldData <= a < oldData + oldSize ==> a in mem.bytes
    modifies arena, arena.backing, mem
    ensures arena.Valid() && arena.backing.freed == old(arena.backing.freed)
    ensures data % alignment == 0 && arena.mark.ptr == data + size
    ensures oldData != 0 ==> forall a :: data <= a < data + oldSize ==> a in mem.bytes && mem.bytes[a] == old(mem.bytes)[a - data + oldData]
    ensures oldData != 0 ==> forall a :: a in old(mem.bytes) && !(data <= a < data + oldSize) ==> a in mem.bytes && mem.bytes[a] == old(mem.bytes)[a]
    ensures oldData != 0 ==> forall a :: a in mem.bytes ==> a in old(mem.bytes) || data <= a < data + oldSize
    ensures oldData == 0 ==> mem.bytes == old(mem.bytes)
  {
    data := arena.PushUninitialized(size, alignment);
    if oldData != 0 {
      MemCopy(mem, data, oldData, oldSize);
    }
  }

  /** MemFree through the arena: a push of zero bytes that copies nothing,
      so no memory is given back and no byte changes. */
  method ArenaFree(arena: Arena, mem: Memory, data: int)
    requires arena.Valid()
    modifies arena, arena.backing, mem
    ensures arena.Valid() && arena.backing.freed == old(arena.backing.freed)
    ensures mem.bytes == old(mem.bytes)
  {
    var ignored := ArenaAllocatorFunction(arena, mem, data, 0, 0, 1);
    assert mem.bytes.Keys == old(mem.bytes).Keys;
    assert forall a :: a in mem.bytes ==> mem.bytes[a] == old(mem.bytes)[a];
  }

  /** SetMark(GetMark()) around a push rewinds it: the mark and the current
      block of a non-empty arena come back, and the blocks it had keep their
      places; an arena that had no block is rewound to the start of its
      first block, or to NULL + header when the push made none. The block
      the push linked, if any, stays linked right after the current one. */
  method PushThenRewind(arena: Arena, size: int, alignment: int) returns (result: int)
    requires arena.Valid() && 0 <= size && IsPow2(alignment) && alignment <= arena.blockAlignment
    modifies arena, arena.backing
    ensures arena.Valid() && arena.backing.freed == old(arena.backing.freed)
    ensures arena.blockSize == old(arena.blockSize) && arena.blockAlignment == old(arena.blockAlignment)
    ensures old(arena.blocks) != [] ==> arena.mark == old(arena.mark) && arena.cur == old(arena.cur)
    ensures old(arena.blocks) != [] ==> arena.blocks[..old(arena.cur) + 1] == old(arena.blocks[..arena.cur + 1])
    ensures old(arena.blocks) == [] && arena.blocks == [] ==> arena.mark == Mark(0, HEADER)
    ensures old(arena.blocks) == [] && arena.blocks != [] ==> arena.mark == Mark(arena.blocks[0].base, arena.blocks[0].base + HEADER)
    ensures |arena.backing.allocs| == |old(arena.backing.allocs)| ==> arena.blocks == old(arena.blocks)
    ensures |arena.backing.allocs| != |old(arena.backing.allocs)| ==>
              |arena.backing.allocs| == |old(arena.backing.allocs)| + 1
              && arena.blocks == InsertAfter(old(arena.blocks), if old(arena.blocks) == [] then -1 else old(arena.cur),
                   Block(arena.backing.allocs[|arena.backing.allocs| - 1],
                         Max(arena.blockSize, AlignUpPow2(HEADER, alignment) + size) % U32, true))
    ensures old(size > arena.Remaining(alignment) && !arena.NextFits(size, alignment)) ==>
              |arena.backing.allocs| != |old(arena.backing.allocs)|
    ensures old(size <= arena.Remaining(alignment)) ==>
              |arena.backing.allocs| == |old(arena.backing.allocs)| && result == AlignUpPow2(old(arena.mark.ptr), alignment)
    ensures old(size > arena.Remaining(alignment)) ==>
              var next := if old(arena.blocks) == [] then 0 else old(arena.cur) + 1;
              next < |arena.blocks| && result == arena.blocks[next].base + AlignUpPow2(HEADER, alignment)
  {
    var m := arena.GetMark();
    ghost var c, before := arena.cur, arena.blocks;
    result := arena.PushUninitialized(size, alignment);
    if before != [] {
      assert arena.blocks[..c + 1] == before[..c + 1];
      assert arena.blocks[c].base == m.block;
    }
    arena.SetMark(m);
    if before != [] {
      assert arena.blocks[c].base == arena.blocks[arena.cur].base;
    }
  }

  /** After the rewind of a non-empty arena the state is the old one with at
      most a new block linked after the current block, so the request is
      served where it was the first time: in place when it fitted, otherwise
      from the next block, reused or just linked. */
  lemma RewoundServes(arena: Arena, size: int, alignment: int, result: int, fits: bool)
    requires arena.Valid() && 0 <= size && IsPow2(alignment) && arena.blocks != []
    requires fits ==> size <= arena.Remaining(alignment) && result == AlignUpPow2(arena.mark.ptr, alignment)
    requires !fits ==> size > arena.Remaining(alignment) && arena.cur + 1 < |arena.blocks|
    requires !fits ==> result == arena.blocks[arena.cur + 1].base + AlignUpPow2(HEADER, alignment)
    requires !fits ==> size <= arena.blocks[arena.cur + 1].size - AlignUpPow2(HEADER, alignment)
    ensures arena.ServedInPlace(size, alignment, result)
  {}

  /** The reuse that rewinding buys: take the mark, push, set the mark back
      and push the same request again. The second push takes nothing from the
      backing allocator, and it returns the address the first push returned,
      except for an empty push on an arena without blocks, whose first result
      is the aligned NULL mark. */
  method PushRewindPush(arena: Arena, size: int, alignment: int)
    returns (first: int, second: int, ghost between: seq<int>)
    requires arena.Valid() && 0 <= size && IsPow2(alignment) && alignment <= arena.blockAlignment
    requires AlignUpPow2(HEADER, alignment) + size < U32
    modifies arena, arena.backing
    ensures arena.Valid() && arena.backing.freed == old(arena.backing.freed)
    ensures |between| <= |old(arena.backing.allocs)| + 1 && arena.backing.allocs == between
    ensures |arena.backing.allocs| <= |old(arena.backing.allocs)| + 1
    ensures old(arena.blocks) != [] || size > 0 ==> second == first
    ensures second % alignment == 0 && arena.mark.ptr == second + size
  {
    ghost var bs, c, allocs0 := arena.blocks, arena.cur, arena.backing.allocs;
    ghost var fits := size <= arena.Remaining(alignment);
    ghost var nextFits := arena.NextFits(size, alignment);
    first := PushThenRewind(arena, size, alignment);
    between := arena.backing.allocs;
    NewBlockFits(arena.blockSize, size, alignment);
    ghost var at := first;
    if bs != [] {
      if !fits && |between| == |allocs0| {
        assert arena.blocks == bs && nextFits;
      }
      RewoundServes(arena, size, alignment, first, fits);
    } else if size > 0 {
      AlignedToSmaller(arena.blocks[0].base, alignment, arena.blockAlignment);
      AlignUpShift(arena.blocks[0].base, HEADER, alignment);
    } else {
      at := AlignUpPow2(HEADER, alignment);
    }
    second := PushAgain(arena, size, alignment, at);
  }

  /** A push that the current block or the next one can take at `at`: it
      returns `at` and takes nothing from the backing allocator. */
  method PushAgain(arena: Arena, size: int, alignment: int, ghost at: int) returns (result: int)
    requires arena.Valid() && 0 <= size && IsPow2(alignment) && alignment <= arena.blockAlignment
    requires arena.ServedInPlace(size, alignment, at)
    modifies arena, arena.backing
    ensures arena.Valid() && arena.backing.freed == old(arena.backing.freed)
    ensures arena.backing.allocs == old(arena.backing.allocs)
    ensures result == at && result % alignment == 0 && arena.mark.ptr == result + size
  {
    result := arena.PushUninitialized(size, alignment);
  }

  /** A block made for a request whose aligned header and size stay below
      4 GiB keeps its size through the `uint32_t` store and has room for the
      request. */
  lemma NewBlockFits(blockSize: int, size: int, alignment: int)
    requires 0 <= blockSize < U32 && 0 <= size && IsPow2(alignment)
    requires AlignUpPow2(HEADER, alignment) + size < U32
    ensures Max(blockSize, AlignUpPow2(HEADER, alignment) + size) % U32
              == Max(blockSize, AlignUpPow2(HEADER, alignment) + size)
    ensures size <= Max(blockSize, AlignUpPow2(HEADER, alignment) + size) - AlignUpPow2(HEADER, alignment)
  {}
}
