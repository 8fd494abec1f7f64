/** DS_DynamicString: a byte string that owns a growable buffer and keeps it
    NUL-terminated after every append. Capacity follows the same policy as
    DS_Array. */
module DynamicStrings {
  import opened Growth
  import opened Arrays

  class DynamicString {
    /** Data[0 .. Capacity) */
    var data: array<bv8>
    /** Size: the length of the text, without the terminator. */
    var size: int

    ghost predicate Valid()
      reads this
    {
      0 <= size <= data.Length && IsGrowthCapacity(data.Length)
    }

    /** The bytes of the string: Data[0 .. Size). */
    ghost function Text(): seq<bv8>
      reads this, data
      requires Valid()
    {
      data[..size]
    }

    /** The byte after the text is inside the buffer and is 0. */
    ghost predicate Terminated()
      reads this, data
    {
      0 <= size < data.Length && data[size] == 0
    }

    /** The constructor and Init: empty, with no buffer until `initialCapacity`
        is reserved. A new string is not terminated before its first Add. */
    constructor (initialCapacity: int)
      ensures Valid() && Text() == [] && fresh(data)
      ensures data.Length >= initialCapacity
    {
      data := new bv8[0];
      size := 0;
      new;
      if initialCapacity > 0 {
        Reserve(initialCapacity);
      }
    }

    /** Reserve: grows the buffer to hold `n` bytes, keeping the old ones. */
    method Reserve(n: int)
      requires Valid()
      modifies this
      ensures Valid() && size == old(size) && Text() == old(Text())
      ensures data.Length >= n && data.Length >= old(data.Length)
      ensures n <= old(data.Length) ==> data == old(data)
      ensures old(data.Length) < n ==> fresh(data) && data[..old(data.Length)] == old(data[..])
    {
      data := Regrow(data, n);
    }

    /** Add: appends the bytes of `s` and writes a 0 after them; the buffer
        always has room for the terminator. */
    method Add(s: seq<bv8>)
      requires Valid()
      modifies this, data
      ensures Valid() && Terminated() && (data == old(data) || fresh(data))
      ensures Text() == old(Text()) + s && size == old(size) + |s|
    {
      Reserve(size + |s| + 1);
      CopyIn(data, size, s);
      size := size + |s|;
      data[size] := 0;
    }
  }

  /** Two appends build the concatenation, terminated. */
  method AddTwice(d: DynamicString, s: seq<bv8>, t: seq<bv8>)
    requires d.Valid()
    modifies d, d.data
    ensures d.Valid() && d.Terminated() && d.Text() == old(d.Text()) + s + t
  {
    d.Add(s);
    d.Add(t);
  }
}
