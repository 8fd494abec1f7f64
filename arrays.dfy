/** DS_Array<T>: a growable array. `Data` is a buffer of `Capacity` elements
    of which the first `Size` are the contents; the buffer is replaced by a
    larger one (0, then 8, then doubling) when it runs out of room. The
    allocator the buffer comes from is not modelled: a new buffer is a new
    Dafny array. */
module Arrays {
  import opened Growth

  /** `n` copies of `v`. */
  function Repeat<T>(v: T, n: nat): (r: seq<T>)
    ensures |r| == n && forall i :: 0 <= i < n ==> r[i] == v
  {
    seq(n, _ => v)
  }

  /** `s` back to front. */
  function Reversed<T>(s: seq<T>): (r: seq<T>)
    ensures |r| == |s|
  {
    seq(|s|, k requires 0 <= k < |s| => s[|s| - 1 - k])
  }

  /** Reversing twice gives the sequence back. */
  lemma ReversedTwice<T>(s: seq<T>)
    ensures Reversed(Reversed(s)) == s
  {
    var r := Reversed(s);
    forall k | 0 <= k < |s|
      ensures Reversed(r)[k] == s[k]
    {
      assert Reversed(r)[k] == r[|s| - 1 - k];
    }
  }

  /** `s` with `n` copies of `v` inserted before position `at`. */
  function InsertedAt<T>(s: seq<T>, at: int, v: T, n: nat): (r: seq<T>)
    requires 0 <= at <= |s|
    ensures |r| == |s| + n
    ensures forall k :: 0 <= k < at ==> r[k] == s[k]
    ensures forall k :: at <= k < at + n ==> r[k] == v
    ensures forall k :: at <= k < |s| ==> r[k + n] == s[k]
  {
    s[..at] + Repeat(v, n) + s[at..]
  }

  /** `s` without the `n` elements from position `index`. */
  function RemovedAt<T>(s: seq<T>, index: int, n: nat): (r: seq<T>)
    requires 0 <= index && index + n <= |s|
    ensures |r| == |s| - n
    ensures forall k :: 0 <= k < index ==> r[k] == s[k]
    ensures forall k :: index <= k < |r| ==> r[k] == s[k + n]
  {
    s[..index] + s[index + n..]
  }

  /** Removing what Insert inserted gives the array back. */
  lemma RemoveUndoesInsert<T>(s: seq<T>, at: int, v: T, n: nat)
    requires 0 <= at <= |s|
    ensures RemovedAt(InsertedAt(s, at, v, n), at, n) == s
  {
    var r := RemovedAt(InsertedAt(s, at, v, n), at, n);
    assert |r| == |s|;
    forall k | 0 <= k < |s|
      ensures r[k] == s[k]
    {
      if k >= at {
        assert r[k] == InsertedAt(s, at, v, n)[k + n];
      }
    }
  }

  /** memmove within one buffer: the `count` elements at `src` are copied to
      `dst`, as if through a temporary, so the ranges may overlap. */
  method MemMove<T>(a: array<T>, dst: int, src: int, count: int)
    requires 0 <= dst && 0 <= src && 0 <= count
    requires dst + count <= a.Length && src + count <= a.Length
    modifies a
    ensures a[dst..dst + count] == old(a[src..src + count])
    ensures forall k :: 0 <= k < a.Length && !(dst <= k < dst + count) ==> a[k] == old(a[k])
  {
    if dst <= src {
      var i := 0;
      while i < count
        invariant 0 <= i <= count
        invariant forall k :: dst <= k < dst + i ==> a[k] == old(a[k - dst + src])
        invariant forall k :: 0 <= k < a.Length && !(dst <= k < dst + i) ==> a[k] == old(a[k])
      {
        a[dst + i] := a[src + i];
        i := i + 1;
      }
    } else {
      var i := count;
      while i > 0
        invariant 0 <= i <= count
        invariant forall k :: dst + i <= k < dst + count ==> a[k] == old(a[k - dst + src])
        invariant forall k :: 0 <= k < a.Length && !(dst + i <= k < dst + count) ==> a[k] == old(a[k])
      {
        i := i - 1;
        a[dst + i] := a[src + i];
      }
    }
  }

  /** Writes `n` copies of `v` from `at` on. */
  method Fill<T>(a: array<T>, at: int, v: T, n: int)
    requires 0 <= at && 0 <= n && at + n <= a.Length
    modifies a
    ensures a[at..at + n] == Repeat(v, n)
    ensures forall k :: 0 <= k < a.Length && !(at <= k < at + n) ==> a[k] == old(a[k])
  {
    var i := 0;
    while i < n
      invariant 0 <= i <= n
      invariant forall k :: at <= k < at + i ==> a[k] == v
      invariant forall k :: 0 <= k < a.Length && !(at <= k < at + i) ==> a[k] == old(a[k])
    {
      a[at + i] := v;
      i := i + 1;
    }
  }

  /** Writes the elements of `values` from `at` on. */
  method CopyIn<T>(a: array<T>, at: int, values: seq<T>)
    requires 0 <= at && at + |values| <= a.Length
    modifies a
    ensures a[at..at + |values|] == values
    ensures forall k :: 0 <= k < a.Length && !(at <= k < at + |values|) ==> a[k] == old(a[k])
  {
    var i := 0;
    while i < |values|
      invariant 0 <= i <= |values|
      invariant forall k :: at <= k < at + i ==> a[k] == values[k - at]
      invariant forall k :: 0 <= k < a.Length && !(at <= k < at + i) ==> a[k] == old(a[k])
    {
      a[at + i] := values[i];
      i := i + 1;
    }
  }

  /** The growth step of Reserve, shared by DS_Array and DS_DynamicString:
      when `n` elements do not fit in `a`, the capacity doubles (from 8) until
      they do and the reallocation copies the whole old buffer. */
  method Regrow<T(0)>(a: array<T>, n: int) returns (b: array<T>)
    requires IsGrowthCapacity(a.Length)
    ensures IsGrowthCapacity(b.Length) && b.Length >= n && b.Length >= a.Length
    ensures n <= a.Length ==> b == a
    ensures a.Length < n ==> fresh(b) && b[..a.Length] == a[..]
    ensures a.Length < n ==> b.Length == 8 || b.Length / 2 < n
  {
    b := a;
    if n > a.Length {
      var c := GrowCapacity(a.Length, n);
      b := new T[c];
      forall i | 0 <= i < a.Length {
        b[i] := a[i];
      }
    }
  }

  /** The body of Insert once room is reserved: the `size - at` elements
      from `at` move `n` places right and the gap is filled with `v`. */
  method OpenGap<T>(a: array<T>, size: int, at: int, v: T, n: int)
    requires 0 <= at <= size && 0 <= n && size + n <= a.Length
    modifies a
    ensures a[..size + n] == old(a[..at]) + Repeat(v, n) + old(a[at..size])
    ensures a[size + n..] == old(a[size + n..])
  {
    MemMove(a, at + n, at, size - at);
    Fill(a, at, v, n);
    assert a[..size + n] == a[..at] + a[at..at + n] + a[at + n..size + n];
  }

  /** The swap loop of ReverseOrder over the first `size` elements. */
  method ReversePrefix<T>(a: array<T>, size: int)
    requires 0 <= size <= a.Length
    modifies a
    ensures a[..size] == Reversed(old(a[..size]))
    ensures a[size..] == old(a[size..])
  {
    var i := 0;
    var j := size - 1;
    while i < j
      invariant 0 <= i <= j + 1 <= size && i + j == size - 1
      invariant forall k :: 0 <= k < i ==> a[k] == old(a[size - 1 - k]) && a[size - 1 - k] == old(a[k])
      invariant forall k :: i <= k <= j ==> a[k] == old(a[k])
      invariant forall k :: size <= k < a.Length ==> a[k] == old(a[k])
    {
      a[i], a[j] := a[j], a[i];
      i := i + 1;
      j := j - 1;
    }
  }

  class Array<T(0)> {
    /** Data[0 .. Capacity); its length is `Capacity`. */
    var data: array<T>
    /** Size */
    var size: int

    /** `Size` elements fit in the buffer, whose length is 0 or 8 * 2^k. */
    ghost predicate Valid()
      reads this
    {
      0 <= size <= data.Length && IsGrowthCapacity(data.Length)
    }

    /** Data[0 .. Size) */
    ghost function Contents(): seq<T>
      reads this, data
      requires Valid()
    {
      data[..size]
    }

    /** The constructor and Init: empty, with no buffer until `initialCapacity`
        is reserved. */
    constructor (initialCapacity: int)
      ensures Valid() && Contents() == [] && fresh(data)
      ensures data.Length >= initialCapacity
      ensures initialCapacity > 0 ==> data.Length == 8 || data.Length / 2 < initialCapacity
    {
      data := new T[0];
      size := 0;
      new;
      if initialCapacity > 0 {
        Reserve(initialCapacity);
      }
    }

    /** Reserve: when `n` elements do not fit, the capacity doubles (from 8)
        until they do, and the whole old buffer is copied to the new one. */
    method Reserve(n: int)
      requires Valid()
      modifies this
      ensures Valid() && size == old(size) && Contents() == old(Contents())
      ensures data.Length >= n && data.Length >= old(data.Length)
      ensures n <= old(data.Length) ==> data == old(data)
      ensures old(data.Length) < n ==> fresh(data) && data[..old(data.Length)] == old(data[..])
      ensures old(data.Length) < n ==> data.Length == 8 || data.Length / 2 < n
    {
      data := Regrow(data, n);
    }

    /** Clear: forgets the contents and keeps the buffer. */
    method Clear()
      requires Valid()
      modifies this
      ensures Valid() && Contents() == [] && data == old(data)
    {
      size := 0;
    }

    /** operator[]: the element at `i`, which must be below `Size`. */
    method At(i: int) returns (v: T)
      requires Valid() && 0 <= i < size
      ensures v == Contents()[i]
    {
      v := data[i];
    }

    /** Back: the last element of a non-empty array. */
    method Back() returns (v: T)
      requires Valid() && size > 0
      ensures v == Contents()[|Contents()| - 1]
    {
      v := data[size - 1];
    }

    /** Add: appends one element. */
    method Add(v: T)
      requires Valid()
      modifies this, data
      ensures Valid() && Contents() == old(Contents()) + [v]
      ensures data == old(data) || fresh(data)
    {
      Reserve(size + 1);
      data[size] := v;
      size := size + 1;
    }

    /** AddSlice: appends the elements of `values` in order. */
    method AddSlice(values: seq<T>)
      requires Valid()
      modifies this, data
      ensures Valid() && Contents() == old(Contents()) + values
      ensures data == old(data) || fresh(data)
    {
      Reserve(size + |values|);
      CopyIn(data, size, values);
      size := size + |values|;
    }

    /** Insert: `n` copies of `v` at position `at`; the elements from `at` on
        move `n` places to the right. */
    method Insert(at: int, v: T, n: int)
      requires Valid() && 0 <= at <= size && 0 <= n
      modifies this, data
      ensures Valid() && Contents() == InsertedAt(old(Contents()), at, v, n)
      ensures data == old(data) || fresh(data)
    {
      Reserve(size + n);
      OpenGap(data, size, at, v, n);
      size := size + n;
    }

    /** Remove: deletes the `n` elements at `index`; the elements after them
        move `n` places to the left. The source declares a `T&` result and
        returns none; nothing is returned here. */
    method Remove(index: int, n: int)
      requires Valid() && 0 <= index && 0 <= n && index + n <= size
      modifies this, data
      ensures Valid() && data == old(data)
      ensures Contents() == RemovedAt(old(Contents()), index, n)
    {
      MemMove(data, index, index + n, size - index - n);
      size := size - n;
    }

    /** PopBack: drops the last `n` elements and returns the slot at the new
        `Size`, the first of those dropped. That slot is read even when `n` is
        0, so it must lie inside the buffer. */
    method PopBack(n: int) returns (popped: T)
      requires Valid() && 0 <= n <= size && size - n < data.Length
      modifies this
      ensures Valid() && data == old(data)
      ensures Contents() == old(Contents()[..size - n])
      ensures popped == data[size]
      ensures n > 0 ==> popped == old(Contents()[size - n])
    {
      size := size - n;
      popped := data[size];
    }

    /** ReverseOrder: swaps the elements pairwise from both ends inwards. */
    method ReverseOrder()
      requires Valid()
      modifies data
      ensures Valid() && Contents() == Reversed(old(Contents()))
    {
      ReversePrefix(data, size);
    }

    /** Resize as written: for a larger count it reserves room and writes
        `d` into the slots from `Size` up to `newCount`, but never assigns
        `Size`, so the contents stay as they were. */
    method ResizeAsWritten(newCount: int, d: T)
      requires Valid()
      modifies this, data
      ensures Valid() && Contents() == old(Contents())
      ensures newCount > old(size) ==> data.Length >= newCount && data[size..newCount] == Repeat(d, newCount - size)
    {
      if newCount > size {
        Reserve(newCount);
        Fill(data, size, d, newCount - size);
      }
    }

    /** Resize as evidently intended: a larger count appends copies of `d`
        up to `newCount` elements. A smaller count changes nothing, as in the
        source. */
    method Resize(newCount: int, d: T)
      requires Valid()
      modifies this, data
      ensures Valid()
      ensures Contents() == if newCount > old(size) then old(Contents()) + Repeat(d, newCount - old(size)) else old(Contents())
    {
      if newCount > size {
        Reserve(newCount);
        Fill(data, size, d, newCount - size);
        size := newCount;
      }
    }
  }

  /** PopBack after Add returns the added element and restores the contents. */
  method AddThenPopBack<T(0)>(a: Array<T>, v: T) returns (popped: T)
    requires a.Valid()
    modifies a, a.data
    ensures a.Valid() && popped == v && a.Contents() == old(a.Contents())
  {
    a.Add(v);
    popped := a.PopBack(1);
  }

  /** Resizing an empty array to 3 elements with the as-written Resize leaves
      it empty. */
  method ResizeAsWrittenKeepsSize() returns (count: int)
    ensures count == 0
  {
    var a := new Array<int>(0);
    a.ResizeAsWritten(3, 7);
    count := a.size;
  }

  /** The intended Resize gives the same array 3 elements. */
  method ResizeGrows() returns (count: int)
    ensures count == 3
  {
    var a := new Array<int>(0);
    a.Resize(3, 7);
    count := a.size;
  }
}
