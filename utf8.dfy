/** The UTF-8 stepping of DS_StringView: DS_NextCodepoint, DS_PrevCodepoint and
    DS_CodepointCount over the bytes of a view. A "chunk" is what one
    NextCodepoint consumes: the byte at the offset and every continuation byte
    (10xxxxxx) after it. The decoder does not validate; it sums the bytes and
    subtracts the table entry for the chunk length, in 32-bit arithmetic. */
module Utf8 {

  /** DS_IsUtf8FirstByte: every byte except a continuation byte 10xxxxxx. */
  predicate IsLead(c: bv8) {
    c & 0xC0 != 0x80
  }

  /** DS_UTF8_OFFSETS: what the sums of a 1- to 6-byte sequence carry in
      their marker bits. */
  function Offset(k: int): bv32
    requires 0 <= k < 6
  {
    if k == 0 then 0x0000_0000
    else if k == 1 then 0x0000_3080
    else if k == 2 then 0x000E_2080
    else if k == 3 then 0x03C8_2080
    else if k == 4 then 0xFA08_2080
    else 0x8208_2080
  }

  /** The first position from `q` on that holds a lead byte, or the end. */
  function ChunkEndFrom(s: seq<bv8>, q: int): (r: int)
    requires 0 <= q <= |s|
    ensures q <= r <= |s| && (r == |s| || IsLead(s[r]))
    ensures forall i :: q <= i < r ==> !IsLead(s[i])
    decreases |s| - q
  {
    if q == |s| || IsLead(s[q]) then q else ChunkEndFrom(s, q + 1)
  }

  /** Where NextCodepoint leaves the offset: just past the byte at `p` and the
      continuation bytes after it. */
  function ChunkEnd(s: seq<bv8>, p: int): (r: int)
    requires 0 <= p < |s|
    ensures p < r <= |s| && (r == |s| || IsLead(s[r]))
    ensures forall i :: p < i < r ==> !IsLead(s[i])
  {
    ChunkEndFrom(s, p + 1)
  }

  /** One step of the decoder: `ch <<= 6; ch += byte`, in 32-bit arithmetic. */
  function Push(ch: bv32, b: bv8): bv32 {
    (ch << 6) + b as bv32
  }

  /** The decoder's sum over s[p .. q). */
  function Accumulate(s: seq<bv8>, p: int, q: int): bv32
    requires 0 <= p <= q <= |s|
    decreases q - p
  {
    if q == p then 0 else Push(Accumulate(s, p, q - 1), s[q - 1])
  }

  /** The value NextCodepoint returns for the chunk at `p`, which must not
      be longer than the offset table. */
  function DecodeAt(s: seq<bv8>, p: int): bv32
    requires 0 <= p < |s| && ChunkEnd(s, p) - p <= 6
  {
    Finish(Accumulate(s, p, ChunkEnd(s, p)), ChunkEnd(s, p) - p)
  }

  /** The decoder's last step for a chunk of `n` bytes: `ch -= DS_UTF8_OFFSETS[n - 1]`. */
  function Finish(ch: bv32, n: int): bv32
    requires 1 <= n <= 6
  {
    ch - Offset(n - 1)
  }

  /** DS_NextCodepoint: past the end it returns 0 and keeps the offset;
      otherwise it consumes one chunk, which ends at the next lead byte or at
      the end, and returns its decoded value. */
  method NextCodepoint(s: seq<bv8>, offset: int) returns (c: bv32, next: int)
    requires 0 <= offset
    requires offset < |s| ==> ChunkEnd(s, offset) - offset <= 6
    ensures offset >= |s| ==> c == 0 && next == offset
    ensures offset < |s| ==> next == ChunkEnd(s, offset)
    ensures offset < |s| ==> c == DecodeAt(s, offset)
  {
    if offset >= |s| {
      return 0, offset;
    }
    var ch;
    ch, next := ScanChunk(s, offset);
    c := Finish(ch, next - offset);
  }

  /** The do-while loop of DS_NextCodepoint: sums the byte at `offset` and
      the continuation bytes after it. */
  method ScanChunk(s: seq<bv8>, offset: int) returns (ch: bv32, next: int)
    requires 0 <= offset < |s|
    ensures next == ChunkEnd(s, offset) && ch == Accumulate(s, offset, next)
  {
    ch := 0;
    next := offset;
    ch := Push(ch, s[next]);
    next := next + 1;
    while next < |s| && !IsLead(s[next])
      invariant offset < next <= ChunkEnd(s, offset)
      invariant ChunkEndFrom(s, next) == ChunkEnd(s, offset)
      invariant ch == Accumulate(s, offset, next)
      decreases |s| - next
    {
      ch := Push(ch, s[next]);
      next := next + 1;
    }
  }

  /** A continuation byte carrying the low six bits of `x`. */
  function Cont(x: bv32): (r: bv8)
    ensures !IsLead(r)
  {
    (0x80 | (x & 0x3F)) as bv8
  }

  /** The UTF-8 encoding of a code point below 0x110000. */
  function Encode(cp: bv32): (r: seq<bv8>)
    requires cp < 0x11_0000
    ensures 1 <= |r| <= 4 && IsLead(r[0])
    ensures forall i :: 1 <= i < |r| ==> !IsLead(r[i])
  {
    if cp < 0x80 then [cp as bv8]
    else if cp < 0x800 then [(0xC0 | (cp >> 6)) as bv8, Cont(cp)]
    else if cp < 0x1_0000 then [(0xE0 | (cp >> 12)) as bv8, Cont(cp >> 6), Cont(cp)]
    else [(0xF0 | (cp >> 18)) as bv8, Cont(cp >> 12), Cont(cp >> 6), Cont(cp)]
  }

  /** The decoder's arithmetic undoes the encoder's, one lemma per length. */
  lemma DecodeBits1(cp: bv32)
    requires cp < 0x80
    ensures Finish(Push(0, cp as bv8), 1) == cp
  {
  }

  lemma DecodeBits2(cp: bv32)
    requires 0x80 <= cp < 0x800
    ensures Finish(Push(Push(0, (0xC0 | (cp >> 6)) as bv8), Cont(cp)), 2) == cp
  {
  }

  lemma DecodeBits3(cp: bv32)
    requires 0x800 <= cp < 0x1_0000
    ensures Finish(Push(Push(Push(0, (0xE0 | (cp >> 12)) as bv8), Cont(cp >> 6)), Cont(cp)), 3) == cp
  {
  }

  lemma DecodeBits4(cp: bv32)
    requires 0x1_0000 <= cp < 0x11_0000
    ensures Finish(Push(Push(Push(Push(0, (0xF0 | (cp >> 18)) as bv8), Cont(cp >> 12)), Cont(cp >> 6)), Cont(cp)), 4) == cp
  {
  }

  /** The chunk at `p` ends at `q` when the bytes between are continuation
      bytes and `q` is a lead byte or the end. */
  lemma ChunkEndIs(s: seq<bv8>, p: int, q: int)
    requires 0 <= p < q <= |s| && (q == |s| || IsLead(s[q]))
    requires forall i :: p < i < q ==> !IsLead(s[i])
    ensures ChunkEnd(s, p) == q
  {
  }

  /** NextCodepoint reads back an encoded code point, whatever complete
      character follows it: decoding inverts encoding. */
  lemma DecodeEncode(cp: bv32, rest: seq<bv8>)
    requires cp < 0x11_0000 && (rest == [] || IsLead(rest[0]))
    ensures ChunkEnd(Encode(cp) + rest, 0) == |Encode(cp)|
    ensures DecodeAt(Encode(cp) + rest, 0) == cp
  {
    var e := Encode(cp);
    var s := e + rest;
    var n := |e|;
    ChunkEndIs(s, 0, n);
    assert Accumulate(s, 0, 1) == Push(0, e[0]);
    if n == 1 {
      DecodeBits1(cp);
    } else {
      assert Accumulate(s, 0, 2) == Push(Push(0, e[0]), e[1]);
      if n == 2 {
        DecodeBits2(cp);
      } else {
        assert Accumulate(s, 0, 3) == Push(Push(Push(0, e[0]), e[1]), e[2]);
        if n == 3 {
          DecodeBits3(cp);
        } else {
          assert Accumulate(s, 0, 4) == Push(Push(Push(Push(0, e[0]), e[1]), e[2]), e[3]);
          DecodeBits4(cp);
        }
      }
    }
  }

  // ---------------------------------------------------------------------
  // Stepping backwards

  /** The backward scan of DS_PrevCodepoint from `o`, after `k` decrements:
      it stops at a lead byte, at the start of the view, or after the fourth
      decrement, which is not followed by a test. */
  function Back(s: seq<bv8>, o: int, k: int): (r: int)
    requires 0 <= o < |s| && 1 <= k <= 4
    ensures 0 <= r <= o && o - r <= 4 - k
    ensures r == 0 || IsLead(s[r]) || o - r == 4 - k
    ensures forall i :: r < i <= o ==> !IsLead(s[i])
    decreases o
  {
    if o == 0 || k == 4 || IsLead(s[o]) then o else Back(s, o - 1, k + 1)
  }

  /** Where PrevCodepoint leaves a positive offset: 1 to 4 bytes back, on a
      lead byte unless it reached the start or retreated 4 bytes, with only
      continuation bytes skipped on the way. */
  function PrevStart(s: seq<bv8>, offset: int): (r: int)
    requires 0 < offset <= |s|
    ensures 0 <= r < offset && offset - r <= 4
    ensures r == 0 || IsLead(s[r]) || offset - r == 4
    ensures forall i :: r < i < offset ==> !IsLead(s[i])
  {
    Back(s, offset - 1, 1)
  }

  /** The scan with the skipped bytes known lands on `p`. */
  lemma {:induction false} BackTo(s: seq<bv8>, o: int, k: int, p: int)
    requires 0 <= p <= o < |s| && 1 <= k && k + (o - p) <= 4
    requires forall i :: p < i <= o ==> !IsLead(s[i])
    requires p == 0 || IsLead(s[p]) || k + (o - p) == 4
    ensures Back(s, o, k) == p
    decreases o - p
  {
    if o > p {
      BackTo(s, o - 1, k + 1, p);
    }
  }

  /** PrevCodepoint undoes NextCodepoint: from the end of a chunk of at most
      4 bytes that starts on a lead byte (or at the start) it steps back to
      the chunk's start. */
  lemma PrevUndoesNext(s: seq<bv8>, p: int)
    requires 0 <= p < |s| && (p == 0 || IsLead(s[p])) && ChunkEnd(s, p) - p <= 4
    ensures PrevStart(s, ChunkEnd(s, p)) == p
  {
    BackTo(s, ChunkEnd(s, p) - 1, 1, p);
  }

  /** The corrected DS_PrevCodepoint: at or before the start it returns 0 and
      keeps the offset; otherwise it steps back to PrevStart, never before
      the view, and decodes the chunk there. */
  method PrevCodepoint(s: seq<bv8>, offset: int) returns (c: bv32, prev: int)
    requires offset <= |s|
    requires 0 < offset ==> ChunkEnd(s, PrevStart(s, offset)) - PrevStart(s, offset) <= 6
    ensures offset <= 0 ==> c == 0 && prev == offset
    ensures 0 < offset ==> prev == PrevStart(s, offset)
    ensures 0 < offset ==> c == DecodeAt(s, prev)
  {
    if offset <= 0 {
      return 0, offset;
    }
    prev := offset - 1;
    var k := 1;
    while prev > 0 && k < 4 && !IsLead(s[prev])
      invariant 0 <= prev < offset && k == offset - prev && 1 <= k <= 4
      invariant Back(s, prev, k) == PrevStart(s, offset)
    {
      prev := prev - 1;
      k := k + 1;
    }
    var after;
    c, after := NextCodepoint(s, prev);
  }

  /** Where DS_PrevCodepoint as written ends: the chain of decrements tests
      the bytes before the offset without a bound, so it can land before the
      view and decode from there. */
  datatype Retreat = Lands(at: int) | ReadsBeforeView

  /** DS_PrevCodepoint as written, for a positive offset: up to three tested
      decrements and a fourth untested one. */
  function PrevAsWritten(s: seq<bv8>, offset: int): (r: Retreat)
    requires 0 < offset <= |s|
    ensures r.Lands? ==> 0 <= r.at < offset && offset - r.at <= 4
  {
    var o := offset - 1;
    if IsLead(s[o]) then Lands(o)
    else if o == 0 then ReadsBeforeView
    else if IsLead(s[o - 1]) then Lands(o - 1)
    else if o == 1 then ReadsBeforeView
    else if IsLead(s[o - 2]) then Lands(o - 2)
    else if o == 2 then ReadsBeforeView
    else Lands(o - 3)
  }

  /** Where the source stays inside the view it agrees with PrevStart, and a
      view that starts on a lead byte keeps it inside. */
  lemma PrevAsWrittenAgrees(s: seq<bv8>, offset: int)
    requires 0 < offset <= |s|
    ensures PrevAsWritten(s, offset).Lands? ==> PrevAsWritten(s, offset).at == PrevStart(s, offset)
    ensures IsLead(s[0]) ==> PrevAsWritten(s, offset).Lands?
  {
    var o := offset - 1;
    if !IsLead(s[o]) && o > 0 {
      if !IsLead(s[o - 1]) && o > 1 {
        assert Back(s, o, 1) == Back(s, o - 2, 3);
      }
    }
  }

  /** A view holding one continuation byte: the source reads the byte before
      the view, the corrected scan stops at 0. */
  lemma PrevAsWrittenReadsBeforeView()
    ensures PrevAsWritten([0x80], 1) == ReadsBeforeView
    ensures PrevStart([0x80], 1) == 0
  {
    assert !IsLead(0x80);
  }

  // ---------------------------------------------------------------------
  // Counting

  /** Every chunk NextCodepoint meets from `p` on fits the offset table. */
  ghost predicate ChunksShort(s: seq<bv8>, p: int)
    requires 0 <= p <= |s|
    decreases |s| - p
  {
    p == |s| || (ChunkEnd(s, p) - p <= 6 && ChunksShort(s, ChunkEnd(s, p)))
  }

  /** The number of chunks from `p` to the end. */
  function ChunkCount(s: seq<bv8>, p: int): nat
    requires 0 <= p <= |s|
    decreases |s| - p
  {
    if p == |s| then 0 else 1 + ChunkCount(s, ChunkEnd(s, p))
  }

  /** The number of lead bytes in s[q ..]. */
  function NumLeads(s: seq<bv8>, q: int): nat
    requires 0 <= q <= |s|
    decreases |s| - q
  {
    if q == |s| then 0 else (if IsLead(s[q]) then 1 else 0) + NumLeads(s, q + 1)
  }

  /** Continuation bytes add no leads. */
  lemma {:induction false} SkipContinuations(s: seq<bv8>, q: int, e: int)
    requires 0 <= q <= e <= |s|
    requires forall i :: q <= i < e ==> !IsLead(s[i])
    ensures NumLeads(s, q) == NumLeads(s, e)
    decreases e - q
  {
    if q < e {
      SkipContinuations(s, q + 1, e);
    }
  }

  /** The chunks of a non-empty view are its first byte and its lead bytes
      after the first. */
  lemma {:induction false} ChunkCountIsLeads(s: seq<bv8>, p: int)
    requires 0 <= p <= |s|
    ensures ChunkCount(s, p) == if p < |s| then 1 + NumLeads(s, p + 1) else 0
    decreases |s| - p
  {
    if p < |s| {
      var e := ChunkEnd(s, p);
      ChunkCountIsLeads(s, e);
      SkipContinuations(s, p + 1, e);
    }
  }

  /** What DS_CodepointCount as written counts: chunks up to the first one
      that decodes to 0 (a NUL byte, or an overlong C0 80), or to the end. */
  function CountUntilZero(s: seq<bv8>, p: int): (r: nat)
    requires 0 <= p <= |s| && ChunksShort(s, p)
    ensures r <= ChunkCount(s, p)
    decreases |s| - p
  {
    if p == |s| then 0
    else if DecodeAt(s, p) == 0 then 0
    else 1 + CountUntilZero(s, ChunkEnd(s, p))
  }

  /** DS_CodepointCount as written: NextCodepoint until it returns 0. */
  method CodepointCountAsWritten(s: seq<bv8>) returns (count: int)
    requires ChunksShort(s, 0)
    ensures count == CountUntilZero(s, 0)
  {
    count := 0;
    var offset := 0;
    while true
      invariant 0 <= offset <= |s| && ChunksShort(s, offset)
      invariant count + CountUntilZero(s, offset) == CountUntilZero(s, 0)
      decreases |s| - offset
    {
      var c, next := NextCodepoint(s, offset);
      if c == 0 {
        break;
      }
      count := count + 1;
      offset := next;
    }
  }

  /** DS_CodepointCount as evidently intended: one per chunk up to the end
      of the view. */
  method CodepointCount(s: seq<bv8>) returns (count: int)
    requires ChunksShort(s, 0)
    ensures count == ChunkCount(s, 0)
  {
    count := 0;
    var offset := 0;
    while offset < |s|
      invariant 0 <= offset <= |s| && ChunksShort(s, offset)
      invariant count + ChunkCount(s, offset) == ChunkCount(s, 0)
      decreases |s| - offset
    {
      var c;
      c, offset := NextCodepoint(s, offset);
      count := count + 1;
    }
  }

  /** "a", NUL, "b": three characters, of which the source counts one. */
  lemma CountStopsAtNul()
    ensures ChunksShort([0x61, 0x00, 0x62], 0)
    ensures CountUntilZero([0x61, 0x00, 0x62], 0) == 1
    ensures ChunkCount([0x61, 0x00, 0x62], 0) == 3
  {
    var s: seq<bv8> := [0x61, 0x00, 0x62];
    assert IsLead(s[1]) && IsLead(s[2]);
    ChunkEndIs(s, 0, 1);
    ChunkEndIs(s, 1, 2);
    ChunkEndIs(s, 2, 3);
    assert DecodeAt(s, 0) == Finish(Push(0, 0x61), 1) == 0x61;
    assert DecodeAt(s, 1) == Finish(Push(0, 0x00), 1) == 0;
  }
}
