/** DS_StringView: a non-owning view of `Size` bytes. The view is a class
    whose one field is the bytes it shows; Split moves the view forward in
    place. DS_String, the NUL-terminated variant Clone produces, is the view
    of the bytes before the terminator. */
module StringViews {
  import opened Arenas

  /** INTPTR_MAX, the default `to` of Slice: "up to the end". */
  const IntptrMax := 0x7FFF_FFFF_FFFF_FFFF

  /** `needle` occurs in `s` at position `i`. */
  predicate MatchAt(s: seq<bv8>, needle: seq<bv8>, i: int) {
    0 <= i && i + |needle| <= |s| && s[i..i + |needle|] == needle
  }

  class StringView {
    /** Data[0 .. Size) */
    var bytes: seq<bv8>

    constructor (bytes: seq<bv8>)
      ensures this.bytes == bytes
    {
      this.bytes := bytes;
    }

    /** Find: the first occurrence of `needle` at or after `start`, or `Size`
        when there is none. */
    method Find(needle: seq<bv8>, start: int) returns (r: int)
      requires 0 <= start <= |bytes|
      ensures start <= r <= |bytes|
      ensures r == |bytes| || MatchAt(bytes, needle, r)
      ensures forall i :: start <= i < r ==> !MatchAt(bytes, needle, i)
    {
      r := |bytes|;
      if |needle| <= |bytes| {
        var i := start;
        while i <= |bytes| - |needle|
          invariant start <= i && (i <= |bytes| - |needle| + 1 || i == start)
          invariant forall j :: start <= j < i ==> !MatchAt(bytes, needle, j)
          decreases |bytes| - i
        {
          if bytes[i..i + |needle|] == needle {
            r := i;
            return;
          }
          i := i + 1;
        }
        assert forall j :: i <= j < |bytes| ==> !MatchAt(bytes, needle, j);
      }
    }

    /** RFind: the last occurrence of `needle` that ends by
        min(start, Size), or `Size` when there is none. */
    method RFind(needle: seq<bv8>, start: int) returns (r: int)
      ensures r == |bytes| || (MatchAt(bytes, needle, r) && r + |needle| <= start)
      ensures forall i :: r < i && i + |needle| <= start ==> !MatchAt(bytes, needle, i)
      ensures (exists i :: MatchAt(bytes, needle, i) && i + |needle| <= start) ==> MatchAt(bytes, needle, r) && r + |needle| <= start
    {
      r := |bytes|;
      if |needle| <= |bytes| {
        var i := (if start >= |bytes| then |bytes| else start) - |needle|;
        while i >= 0
          invariant i <= |bytes| - |needle| && i + |needle| <= start
          invariant forall j :: i < j && j + |needle| <= start ==> !MatchAt(bytes, needle, j)
          decreases i
        {
          if bytes[i..i + |needle|] == needle {
            r := i;
            return;
          }
          i := i - 1;
        }
      }
    }
  
    /** Split: the bytes before the first occurrence of `sep`; the view
        moves past that occurrence, or to its end when there is none. */
    method Split(sep: seq<bv8>) returns (head: seq<bv8>)
      modifies this
      ensures (exists i :: MatchAt(old(bytes), sep, i)) ==> head + sep + bytes == old(bytes)
      ensures forall i :: 0 <= i < |head| ==> !MatchAt(old(bytes), sep, i)
      ensures !(exists i :: MatchAt(old(bytes), sep, i)) ==> head == old(bytes) && bytes == []
      ensures |sep| > 0 && old(bytes) != [] ==> |bytes| < |old(bytes)|
    {
      var offset := Find(sep, 0);
      head := bytes[..offset];
      var advance := if offset + |sep| > |bytes| then |bytes| else offset + |sep|;
      if exists i :: MatchAt(bytes, sep, i) {
        assert MatchAt(bytes, sep, offset);
        assert bytes == head + sep + bytes[advance..];
      }
      bytes := bytes[advance..];
    }

    /** Slice: the bytes from `from` up to `to`, where INTPTR_MAX stands for
        `Size`. */
    function Slice(from: int, to: int): (r: seq<bv8>)
      reads this
      requires 0 <= from
      requires to == IntptrMax ==> from <= |bytes|
      requires to != IntptrMax ==> from <= to <= |bytes|
      ensures |r| == (if to == IntptrMax then |bytes| else to) - from
      ensures forall k :: 0 <= k < |r| ==> r[k] == bytes[from + k]
    {
      if to == IntptrMax then bytes[from..] else bytes[from..to]
    }

    /** Clone: `Size + 1` bytes pushed on the arena, holding the view's bytes
        and a NUL after them. The result is the DS_String (`data`, `Size`). */
    method Clone(arena: Arena, mem: Memory) returns (data: int, size: int)
      requires arena.Valid()
      modifies arena, arena.backing, mem
      ensures arena.Valid() && arena.backing.freed == old(arena.backing.freed)
      ensures size == |bytes| && arena.mark.ptr == data + size + 1
      ensures forall a :: data <= a < data + size ==> a in mem.bytes && mem.bytes[a] == bytes[a - data]
      ensures data + size in mem.bytes && mem.bytes[data + size] == 0
      ensures forall a :: a in old(mem.bytes) && !(data <= a <= data + size) ==> a in mem.bytes && mem.bytes[a] == old(mem.bytes)[a]
    {
      data := arena.PushUninitialized(|bytes| + 1, 1);
      size := |bytes|;
      Store(mem, data, bytes);
      mem.bytes := mem.bytes[data + size := 0];
    }
  }

  /** Writing the bytes of `values` from `dst` on (memcpy from a buffer the
      model keeps outside the address space). */
  method Store(mem: Memory, dst: int, values: seq<bv8>)
    modifies mem
    ensures forall a :: dst <= a < dst + |values| ==> a in mem.bytes && mem.bytes[a] == values[a - dst]
    ensures forall a :: a in old(mem.bytes) && !(dst <= a < dst + |values|) ==> a in mem.bytes && mem.bytes[a] == old(mem.bytes)[a]
  {
    var i := 0;
    while i < |values|
      invariant 0 <= i <= |values|
      invariant forall a :: dst <= a < dst + i ==> a in mem.bytes && mem.bytes[a] == values[a - dst]
      invariant forall a :: a in old(mem.bytes) && !(dst <= a < dst + i) ==> a in mem.bytes && mem.bytes[a] == old(mem.bytes)[a]
    {
      mem.bytes := mem.bytes[dst + i := values[i]];
      i := i + 1;
    }
  }

  /** Two adjacent slices make the slice that spans both. */
  lemma SlicesConcatenate(v: StringView, a: int, b: int, c: int)
    requires 0 <= a <= b <= c <= |v.bytes| && c < IntptrMax
    ensures v.Slice(a, b) + v.Slice(b, c) == v.Slice(a, c)
  {
    assert v.Slice(a, b) + v.Slice(b, c) == v.bytes[a..b] + v.bytes[b..c];
  }
}
