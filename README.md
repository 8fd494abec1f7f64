# PyExpand basic data structures, modelled in Dafny

PyExpand ships a small single-header container and allocator library,
`src/basic_data_structures/ds.h` and `ds.cpp`. This project models that library and
proves what its code promises:

- `DS_Array<T>`, a growable array with an in-place insert, remove, pop and reverse;
- `DS_DynamicString`, an append-only byte builder that keeps a NUL terminator;
- `DS_Map` and `DS_Set`, open-addressing hash tables with linear probing, 70% load
  growth and backward-shift deletion;
- the key hashing of `DS_KeyType`, the `fmix32`/`fmix64` mixers and MurmurHash3 (x86, 32-bit);
- the UTF-8 stepping, codepoint counting, searching and splitting of `DS_StringView`;
- `DS_Arena`, a bump allocator over a chain of blocks with marks, reset, and its
  allocator function.

One module per part, one file each:

| file | module | models |
|---|---|---|
| align.dfy | Align | `DS_AlignUpPow2` / `DS_AlignDownPow2` and power-of-two facts |
| growth.dfy | Growth | the shared capacity policy: 0, then 8, then doubling |
| arrays.dfy | Arrays | `DS_Array<T>`: a class over an `array<T>` with `size` |
| dynstring.dfy | DynamicStrings | `DS_DynamicString`: a class over an `array<bv8>` |
| hashing.dfy | Hashing | `DS_fmix32`, `DS_fmix64`, `DS_MurmurHash3` on bitvectors |
| keys.dfy | KeyType | `DS_KeyType<T>::hash` / `is_equal` over a key datatype |
| probing.dfy | Probing | home slot, linear probe distance, reachability, the backward-shift invariant |
| slottable.dfy | SlotTable | tagged hashes (bit 31) and the probe loop shared by map and set |
| hashmap.dfy | HashMap | `DS__MapAdd` and `DS_Map` |
| hashset.dfy | HashSet | `DS__SetAdd` and `DS_Set` |
| utf8.dfy | Utf8 | `DS_NextCodepoint`, `DS_PrevCodepoint`, `DS_CodepointCount` |
| stringview.dfy | StringViews | `DS_StringView` Find, RFind, Split, Slice, Clone |
| arena.dfy | Arenas | `DS_Arena` and `DS_ArenaAllocatorFunction` |
| wrappers.dfy | Wrappers | `Option`, for nullable pointers |

## How the model is built

**Arrays and the string builder.** Both are classes whose `data` field is a Dafny
`array`, which Reserve replaces by a larger fresh array holding the same prefix.
Insert moves the tail with an overlap-safe `MemMove` loop and fills the gap.
Remove moves the tail down, and ReverseOrder swaps in place. Every method states
its new contents through a specification function of the old contents:
`InsertedAt`, `RemovedAt`, `Reversed`, or appending.

**Hash tables.** A table is three parallel sequences:
- `hashes`: 0 marks an empty slot; a stored hash has bit 31 set;
- `keys`;
- `values`.

Alongside them sit `hasCount` and `capacity`, and a ghost `contents` map (a set for
`DS_Set`). The table invariant (`TableInv` / `SetInv`) says:
- `capacity` is 0 or 8·2^k;
- `100·hasCount <= 70·capacity`;
- `hasCount` is the number of occupied slots;
- every stored key is reachable from its home slot `hash mod capacity` without crossing an empty slot;
- the slots hold exactly `contents`.

The source computes the home slot as `hash & (uint32_t)(capacity-1)` and the next
index as `(index + 1) & mask`. `Probing.FirstProbe` and `Probing.NextProbe` compute
these with a bit-by-bit AND over naturals (`Probing.BitAnd`). For the capacities the
invariant allows they equal `hash mod capacity` (`Probing.FirstProbeIsHome`) and the
wrap-around step (`Probing.NextProbeIsNext`).

The loops of the source (the probe, the grow-and-reinsert and the backward shift)
are methods over these values with their invariants. The class methods read the
fields, call them, and write the fields back.

The key hash is a parameter function `hashOf: K -> uint32`. `KeyType.Hash` is
the source's hash for the key shapes it supports.

**UTF-8.** Text is a `seq<bv8>`. A chunk is a lead byte (one whose top two bits
are not `10`) followed by continuation bytes. `NextCodepoint` accumulates
`ch = (ch << 6) + byte` over a chunk and subtracts the offset table, all in
`bv32`. It is proved to decode every UTF-8 encoding of a scalar value back to that
value (`Utf8.DecodeEncode`).

**Arena.** Addresses are integers and blocks are records `(base, size,
fromBacking)` in list order. `cur` is the index of the block the mark is in. The
backing allocator is a class that hands out fresh, aligned, increasing addresses
and records every allocation and free. The header size is 16 bytes, the size of
`DS_ArenaBlockHeader` on a 64-bit target. Memory used by the allocator function
and by `Clone` is a `map<int, bv8>` of byte addresses.

## Model

| member | source | states |
|---|---|---|
| Align.AlignDownPow2 | src/basic_data_structures/ds.h:38 | for a power of two p, the result is the greatest multiple of p not above x |
| Align.AlignUpPow2 | src/basic_data_structures/ds.h:37 | for a power of two p, the result is the least multiple of p not below x |
| Align.AlignUpOfAligned | src/basic_data_structures/ds.h:37 | aligning a value that is already a multiple of p leaves it unchanged |
| Align.Pow2Divides | src/basic_data_structures/ds.cpp:178-179 | a smaller power of two divides a larger one, so `alignment <= BlockAlignment` means BlockAlignment is a multiple of alignment |
| Align.AlignedToSmaller | src/basic_data_structures/ds.cpp:178-179 | an address aligned to BlockAlignment is aligned to every smaller power-of-two alignment |
| Growth.NextCapacity | src/basic_data_structures/ds.h:565 | one growth step stays in the sequence 0, 8, 16, ..., strictly grows, is at least 8, and doubles a non-zero capacity |
| Growth.GrowthCapacityMultipleOf8 | src/basic_data_structures/ds.h:565 | every capacity the policy produces is a multiple of 8 |
| Growth.GrowCapacity | src/basic_data_structures/ds.h:561-566 | the doubling loop ends at a capacity of the sequence that holds n and is not below the old one; it is unchanged when n fits; otherwise it is 8 or less than twice n |
| Arrays.InsertedAt | src/basic_data_structures/ds.h:601-613 | inserting n copies of v at `at` gives a sequence that is n longer, keeps the prefix before `at`, holds v in the gap and shifts the rest right by n |
| Arrays.RemovedAt | src/basic_data_structures/ds.h:616-625 | removing n elements at index gives a sequence that is n shorter, keeps the prefix and shifts the rest left by n |
| Arrays.RemoveUndoesInsert | src/basic_data_structures/ds.h:601-625 | removing the n elements just inserted at `at` gives back the original contents |
| Arrays.ReversedTwice | src/basic_data_structures/ds.h:636-649 | reversing twice gives back the original contents |
| Arrays.MemMove | src/basic_data_structures/ds.h:604-608 | the overlap-safe move leaves the destination range equal to the old source range and every other element unchanged |
| Arrays.Fill | src/basic_data_structures/ds.h:610-611 | the fill loop writes v into the range and nothing else |
| Arrays.CopyIn | src/basic_data_structures/ds.h:595-596 | the copy loop writes the values into the range and nothing else |
| Arrays.Regrow | src/basic_data_structures/ds.h:559-570 | Reserve's reallocation: a capacity of the growth sequence of at least n and not smaller; the same array when n fits; otherwise a fresh array starting with the old elements |
| Arrays.OpenGap | src/basic_data_structures/ds.h:604-611 | after the move and the fill, the prefix is old prefix + n copies of v + old tail, and the rest of the buffer is untouched |
| Arrays.ReversePrefix | src/basic_data_structures/ds.h:636-649 | the swap loop reverses the first `size` elements in place and leaves the rest unchanged |
| Arrays.Array.constructor | src/basic_data_structures/ds.h:498-508 | an empty array with capacity for `initial_capacity` elements, 8 or less than twice it |
| Arrays.Array.Reserve | src/basic_data_structures/ds.h:559-570 | capacity at least n and never smaller, contents and size unchanged, buffer kept when n fits |
| Arrays.Array.Clear | src/basic_data_structures/ds.h:537-543 | contents become empty, buffer kept |
| Arrays.Array.At | src/basic_data_structures/ds.h:193-196 | element i of the contents, for i below Size |
| Arrays.Array.Back | src/basic_data_structures/ds.h:552-556 | the last element of a non-empty array |
| Arrays.Array.Add | src/basic_data_structures/ds.h:584-589 | contents become old contents followed by the value |
| Arrays.Array.AddSlice | src/basic_data_structures/ds.h:592-598 | contents become old contents followed by the values |
| Arrays.Array.Insert | src/basic_data_structures/ds.h:601-613 | for `at <= Size`, contents become `InsertedAt(old, at, v, n)` |
| Arrays.Array.Remove | src/basic_data_structures/ds.h:616-625 | for `index + n <= Size`, contents become `RemovedAt(old, index, n)`, buffer kept |
| Arrays.Array.PopBack | src/basic_data_structures/ds.h:628-633 | the last n elements are dropped and the returned element is the first one dropped |
| Arrays.Array.ReverseOrder | src/basic_data_structures/ds.h:636-649 | contents become their reverse |
| Arrays.Array.ResizeAsWritten | src/basic_data_structures/ds.h:573-581 | as written: the slots up to new_count are filled with the default value but the contents keep their old length |
| Arrays.Array.Resize | src/basic_data_structures/ds.h:573-581 | as intended: a longer new_count appends default values up to new_count; a shorter one changes nothing |
| Arrays.AddThenPopBack | src/basic_data_structures/ds.h:628-633 | PopBack after Add returns the added value and restores the contents |
| Arrays.ResizeAsWrittenKeepsSize | src/basic_data_structures/ds.h:573-581 | Resize(3) as written on an empty array leaves it with 0 elements |
| Arrays.ResizeGrows | src/basic_data_structures/ds.h:573-581 | the corrected Resize(3) on an empty array leaves it with 3 elements |
| DynamicStrings.DynamicString.constructor | src/basic_data_structures/ds.h:651-660 | an empty builder with at least the requested capacity |
| DynamicStrings.DynamicString.Reserve | src/basic_data_structures/ds.h:686-697 | capacity at least n and never smaller, text unchanged, buffer kept when n fits |
| DynamicStrings.DynamicString.Add | src/basic_data_structures/ds.h:699-705 | text becomes old text followed by exactly the given bytes, Size grows by their count, and a NUL follows the text within capacity |
| DynamicStrings.AddTwice | src/basic_data_structures/ds.h:699-705 | two appends concatenate and the result is still NUL-terminated |
| Hashing.Fmix32 | src/basic_data_structures/ds.h:1313-1321 | 0 is a fixed point of the mixer, which is why fundamental keys are XORed with a constant first; its values on other inputs are checked through the MurmurHash3 known answers |
| Hashing.Fmix64 | src/basic_data_structures/ds.h:1325-1333 | 0 is a fixed point of the 64-bit mixer; no other value of it is checked |
| Hashing.MurmurHash3 | src/basic_data_structures/ds.cpp:278-329 | the block loop, the tail switch and the finalisation compute the reference function `Murmur3`: every 4-byte block mixed once, then the tail, then the length, then fmix32 |
| Hashing.Murmur3 | src/basic_data_structures/ds.cpp:278-329 | an input shorter than 4 bytes skips the block loop and is mixed only as a tail, then the length; an empty input leaves the seed alone, so the hash is `fmix32(seed)` |
| Hashing.Murmur3EmptyKnownAnswers | src/basic_data_structures/ds.cpp:278-329 | the empty input hashes to 0, 0x514E28B7 and 0x81F16F39 under seeds 0, 1 and 0xFFFFFFFF, the published MurmurHash3_x86_32 values |
| Hashing.Murmur3OneBlockKnownAnswer | src/basic_data_structures/ds.cpp:278-329 | the bytes 21 43 65 87 under seed 0 are read as the little-endian block 0x87654321 and hash to 0xF55B516B, the published value |
| Hashing.Murmur3TailKnownAnswers | src/basic_data_structures/ds.cpp:278-329 | the 3-, 2- and 1-byte inputs 21 43 65, 21 43 and 21 under seed 0 hash to 0x7E4A8634, 0xA0F7B07A and 0x72661CF4, the published values, covering each case of the tail switch |
| KeyType.IsEqual | src/basic_data_structures/ds.h:797-835 | key comparison (bits, size and bytes, or field by field for aggregates) holds exactly when the keys are equal values, so the tables may compare keys with `==` |
| KeyType.Hash | src/basic_data_structures/ds.h:755-795 | fundamental keys go through fmix32/fmix64 after XOR with 2607369547, strings through MurmurHash3 with that seed, and aggregates combine field hashes as `2*h + next` in `uint32_t` (`KeyType.CombineFields`); an aggregate with one field hashes like that field |
| KeyType.OrderDependent | src/basic_data_structures/ds.h:758-760 | aggregate hashing depends on field order: a two-field key and its swap hash alike exactly when the two fields hash alike |
| KeyType.ZeroKeyHash | src/basic_data_structures/ds.h:762-765 | the 4-byte key 0 hashes to fmix32(2607369547) = 0x56C56A69, not to 0 |
| Probing.Home | src/basic_data_structures/ds.h:896-897 | the home slot of a hash lies inside the table |
| Probing.MaskIsMod | src/basic_data_structures/ds.h:896-897 | for a power of two p, the bitwise AND of h with p-1 is h mod p |
| Probing.FirstProbeIsHome | src/basic_data_structures/ds.h:896-897 | for every non-zero capacity the table invariant allows, `hash & (uint32_t)(Capacity-1)` is the home slot `hash mod Capacity` |
| Probing.NextProbeIsNext | src/basic_data_structures/ds.h:923 | for such capacities up to 2^31, `(index + 1) & mask` is the next slot with wrap-around |
| Probing.Next | src/basic_data_structures/ds.h:923 | the next probe index wraps around and stays inside the table |
| Probing.Dist | src/basic_data_structures/ds.h:923 | the number of probe steps from a to b is below capacity and is 0 exactly when a == b |
| Probing.ProbeBound | src/basic_data_structures/ds.h:900-924 | while one slot is empty, a run of occupied slots is shorter than the table, so the probe loop ends |
| Probing.InsertKeepsReachable | src/basic_data_structures/ds.h:904-912 | storing a hash in the first empty slot of its probe path keeps every stored hash reachable from its home slot |
| Probing.CountUpdate | src/basic_data_structures/ds.h:1001-1002 | writing one slot changes the occupied count by exactly the change of that slot |
| Probing.EntryBeforeEmpty | src/basic_data_structures/ds.h:959-960 | a reachable entry lies before any empty slot on the path from its home slot |
| Probing.FirstEmptyAfter | src/basic_data_structures/ds.h:1005-1009 | after a removed slot there is a first empty slot, and every slot before it is occupied |
| Probing.ShiftStart | src/basic_data_structures/ds.h:1001-1006 | clearing the removed slot establishes the backward-shift invariant |
| Probing.ShiftStep | src/basic_data_structures/ds.h:1008-1020 | taking out the next entry and re-adding it at its first free slot preserves the invariant, one slot further on |
| Probing.ShiftEnd | src/basic_data_structures/ds.h:1009 | when the shift reaches an empty slot, every stored hash is reachable again |
| SlotTable.Tag | src/basic_data_structures/ds.h:932 | a stored hash is never 0, has bit 31 set and keeps the low 31 bits of the key's hash |
| SlotTable.TagIdempotent | src/basic_data_structures/ds.h:1019 | tagging a stored hash again changes nothing, so re-adding an entry under its stored hash is sound |
| SlotTable.MissMeansAbsent | src/basic_data_structures/ds.h:959-960 | reaching an empty slot before the key on its probe path means the key is not stored |
| SlotTable.ProbeSlots | src/basic_data_structures/ds.h:956-966 | the probe loop stops at the first slot that is empty or holds the key, with every earlier slot on the path occupied by other keys |
| HashMap.StoreEntry | src/basic_data_structures/ds.h:904-910 | storing a new key in an empty slot adds exactly that entry and one occupied slot |
| HashMap.ClearEntry | src/basic_data_structures/ds.h:1001-1002 | clearing an occupied slot removes exactly its key and one occupied slot |
| HashMap.MoveEntry | src/basic_data_structures/ds.h:1011-1020 | moving an entry to an empty slot keeps the key-to-value mapping and the count |
| HashMap.ProbeMiss | src/basic_data_structures/ds.h:959-960 | under the table invariant, an empty slot reached first means the key is absent |
| HashMap.ProbeHit | src/basic_data_structures/ds.h:962-963 | a slot holding the key holds its value |
| HashMap.InsertEntry | src/basic_data_structures/ds.h:904-912 | inserting an absent key at the end of its probe path keeps the table invariant with one more entry |
| HashMap.UpdateValue | src/basic_data_structures/ds.h:935 | writing through the returned value pointer updates that key's value and nothing else |
| HashMap.InsertAbsent | src/basic_data_structures/ds.h:900-912 | the probe-and-store for an absent key adds exactly that entry, keeps reachability, and counts one more slot |
| HashMap.CollectAll | src/basic_data_structures/ds.h:879-888 | collecting every occupied slot of the old table gives exactly the map's contents |
| HashMap.RehashSlot | src/basic_data_structures/ds.h:881-887 | one step of the grow loop re-adds the old slot's entry, if any, to the new table |
| HashMap.Reinsert | src/basic_data_structures/ds.h:879-888 | re-adding every old entry into the empty new table gives the same contents and count |
| HashMap.Rehash | src/basic_data_structures/ds.h:865-894 | growth doubles the capacity (0 to 8) and keeps the contents, the count and the table invariant |
| HashMap.PlaceKey | src/basic_data_structures/ds.h:896-926 | the probe loop adds the key iff it was absent; the returned slot holds the key; the invariant holds with the new entry |
| HashMap.Wrap32 | src/basic_data_structures/ds.h:865 | the `int32_t` value of a product: in range, congruent modulo 2^32, and unchanged when it fits |
| HashMap.GrowsAsWrittenInRange | src/basic_data_structures/ds.h:865 | while both products fit in `int32_t`, the compiled load check decides exactly like the unbounded one |
| HashMap.LargeCapacityReachable | src/basic_data_structures/ds.h:872 | 2^25 slots is a capacity the growth policy reaches |
| HashMap.GrowsAsWrittenOverflows | src/basic_data_structures/ds.h:865 | adding to a 2^24-slot map holding 11744051 entries grows it to 2^25 as intended, but the compiled check then also grows at 2^25 with 0 entries, at 2^26 with 4026531 and at 2^27 with 8053063, where the intended check does not; it stops at 2^28 |
| HashMap.AddEntry | src/basic_data_structures/ds.h:862-927 | DS__MapAdd: grows iff one more entry passes 70% load, whether or not the key is new; reports whether the key was absent; counts it only then; keeps the invariant |
| HashMap.ShiftSlot | src/basic_data_structures/ds.h:1008-1020 | one backward-shift step keeps the contents and the count and advances the shift invariant |
| HashMap.ShiftBack | src/basic_data_structures/ds.h:1005-1021 | the whole backward shift restores reachability without changing the contents or the count |
| HashMap.DeleteAt | src/basic_data_structures/ds.h:1001-1021 | clearing a found slot and shifting removes exactly that key, one slot, and keeps reachability |
| HashMap.RemoveEntry | src/basic_data_structures/ds.h:978-1031 | reports whether the key was present, removes exactly that key, decrements the count only then and never changes capacity |
| HashMap.Map.constructor | src/basic_data_structures/ds.h:839-845 | an empty map with capacity 0 |
| HashMap.Map.AddHashed | src/basic_data_structures/ds.h:862-927 | DS__MapAdd on the map object: the growth rule, added iff absent, the returned slot holds the key, other entries unchanged |
| HashMap.Map.Add | src/basic_data_structures/ds.h:970-975 | returns true iff the key was absent; afterwards it is present, HasCount grows by one only if it was added, and every old pair is unchanged |
| HashMap.Map.SetValueAt | src/basic_data_structures/ds.h:935 | writing a value into an occupied slot maps its key to the value |
| HashMap.Map.Set | src/basic_data_structures/ds.h:930-936 | the contents become the old contents with key mapped to value |
| HashMap.Map.FindPtr | src/basic_data_structures/ds.h:947-967 | a slot is returned iff the key is present, and it holds the key and its value; capacity 0 returns none |
| HashMap.Map.Find | src/basic_data_structures/ds.h:939-944 | returns true iff the key is present and then yields its value; otherwise the caller's value is untouched |
| HashMap.Map.Has | src/basic_data_structures/ds.h:1034-1038 | true iff the key is present |
| HashMap.Map.Remove | src/basic_data_structures/ds.h:978-1031 | returns true iff the key was present; the contents lose exactly that key and HasCount drops by one only then |
| HashSet.StoreMember | src/basic_data_structures/ds.h:1102-1107 | storing a new key in an empty slot adds exactly that member and one occupied slot |
| HashSet.ClearMember | src/basic_data_structures/ds.h:1177-1178 | clearing an occupied slot removes exactly its key and one occupied slot |
| HashSet.MoveMember | src/basic_data_structures/ds.h:1187-1194 | moving a member to an empty slot keeps the members and the count |
| HashSet.ProbeMiss | src/basic_data_structures/ds.h:1135-1136 | under the set invariant, an empty slot reached first means the key is absent |
| HashSet.ProbeHit | src/basic_data_structures/ds.h:1138-1139 | a slot holding the key means the key is a member |
| HashSet.InsertMember | src/basic_data_structures/ds.h:1102-1109 | inserting an absent key at the end of its probe path keeps the set invariant with one more member |
| HashSet.InsertAbsent | src/basic_data_structures/ds.h:1098-1109 | the probe-and-store for an absent key adds exactly that member and one slot |
| HashSet.CountIsSize | src/basic_data_structures/ds.h:456 | HasCount is the number of members |
| HashSet.RehashSlot | src/basic_data_structures/ds.h:1083-1085 | one step of the grow loop re-adds the old slot's key, if any, to the new table |
| HashSet.Reinsert | src/basic_data_structures/ds.h:1081-1086 | re-adding every old member into the empty new table gives the same members and count |
| HashSet.Rehash | src/basic_data_structures/ds.h:1067-1092 | growth doubles the capacity (0 to 8) and keeps the members, the count and the invariant |
| HashSet.PlaceKey | src/basic_data_structures/ds.h:1094-1122 | the probe loop adds the key iff it was absent and keeps the invariant |
| HashSet.AddMember | src/basic_data_structures/ds.h:1064-1123 | DS__SetAdd: grows iff one more member passes 70% load; added iff absent; the members gain the key |
| HashSet.ShiftSlot | src/basic_data_structures/ds.h:1184-1194 | one backward-shift step keeps the members and the count and advances the shift invariant |
| HashSet.ShiftBack | src/basic_data_structures/ds.h:1181-1195 | the whole backward shift restores reachability without changing the members |
| HashSet.DeleteAt | src/basic_data_structures/ds.h:1177-1195 | clearing a found slot and shifting removes exactly that key and keeps reachability |
| HashSet.RemoveMember | src/basic_data_structures/ds.h:1154-1205 | reports whether the key was a member, removes exactly it, and never changes capacity |
| HashSet.FirstProbeOfEmptySet | src/basic_data_structures/ds.h:1128-1130 | for capacity 0 the mask `(uint32_t)(0 - 1)` is all ones and the first probe index `Probing.FirstProbe` is the whole tagged hash, at least 2^31, outside any table |
| HashSet.Set.constructor | src/basic_data_structures/ds.h:1041-1047 | an empty set with capacity 0 |
| HashSet.Set.Add | src/basic_data_structures/ds.h:1146-1151 | returns true iff newly added; members gain the key; HasCount and capacity follow the add and growth rules |
| HashSet.Set.Has | src/basic_data_structures/ds.h:1126-1143 | as written, for a set with capacity above 0: true iff the key is a member |
| HashSet.Set.HasChecked | src/basic_data_structures/ds.h:1126-1143 | with the capacity-0 guard of FindPtr added: true iff the key is a member, for every set |
| HashSet.Set.Remove | src/basic_data_structures/ds.h:1154-1205 | returns true iff the key was a member; members lose exactly that key; capacity unchanged |
| Utf8.ChunkEndFrom | src/basic_data_structures/ds.cpp:21 | the first lead byte at or after q, or the end, with only continuation bytes before it |
| Utf8.ChunkEnd | src/basic_data_structures/ds.cpp:17-21 | the do-while loop's stop: strictly after p, at the next lead byte or the end |
| Utf8.ScanChunk | src/basic_data_structures/ds.cpp:17-21 | the do-while loop ends at the chunk end having accumulated `(ch << 6) + byte` over the chunk |
| Utf8.NextCodepoint | src/basic_data_structures/ds.cpp:10-25 | past the end, returns 0 and leaves the offset; otherwise moves the offset to the chunk end and returns the decoded chunk |
| Utf8.DecodeEncode | src/basic_data_structures/ds.cpp:5-25 | decoding the UTF-8 encoding of any scalar value, followed by anything that starts on a lead byte, consumes the encoding and gives the value back |
| Utf8.Back | src/basic_data_structures/ds.cpp:32-34 | stepping back stops at index 0, at a lead byte, or after the last allowed step, crossing only continuation bytes |
| Utf8.PrevStart | src/basic_data_structures/ds.cpp:32-34 | the start of the previous codepoint: 1 to 4 bytes back, at 0, a lead byte, or 4 bytes back |
| Utf8.PrevUndoesNext | src/basic_data_structures/ds.cpp:27-39 | stepping back from the end of a chunk of at most 4 bytes returns to its start |
| Utf8.PrevCodepoint | src/basic_data_structures/ds.cpp:27-39 | corrected: at offset 0 or before, returns 0 and leaves the offset; otherwise moves to PrevStart and returns the codepoint there |
| Utf8.PrevAsWritten | src/basic_data_structures/ds.cpp:32-34 | as written: the pre-decrement chain either lands 1 to 4 bytes back or reads the byte before the view |
| Utf8.PrevAsWrittenAgrees | src/basic_data_structures/ds.cpp:32-34 | whenever the written chain lands it agrees with PrevStart, and it always lands when the view starts with a lead byte |
| Utf8.PrevAsWrittenReadsBeforeView | src/basic_data_structures/ds.cpp:32-34 | on the one-byte view `80` at offset 1 the written chain reads before the view |
| Utf8.ChunkCountIsLeads | src/basic_data_structures/ds.cpp:41-51 | the number of chunks from p is 1 plus the number of lead bytes after p |
| Utf8.CountUntilZero | src/basic_data_structures/ds.cpp:45-49 | codepoints counted before the first decoded 0 are at most the chunks |
| Utf8.CodepointCountAsWritten | src/basic_data_structures/ds.cpp:41-51 | as written: the count of codepoints decoded before the first 0 codepoint or the end |
| Utf8.CodepointCount | src/basic_data_structures/ds.cpp:41-51 | corrected: the number of chunks, a NUL byte counted like any other codepoint |
| Utf8.CountStopsAtNul | src/basic_data_structures/ds.cpp:47 | on `61 00 62` the written count is 1 while the text holds 3 codepoints |
| StringViews.StringView.constructor | src/basic_data_structures/ds.h:330-332 | a view of exactly the given bytes; the default constructor is the view of no bytes |
| StringViews.StringView.Find | src/basic_data_structures/ds.cpp:65-82 | for `0 <= start <= Size`: the first match at or after start, or Size when there is none |
| StringViews.StringView.RFind | src/basic_data_structures/ds.cpp:84-99 | the last match ending by `min(start, Size)`, found whenever one exists; otherwise Size |
| StringViews.StringView.Split | src/basic_data_structures/ds.cpp:101-109 | if the separator occurs, result + separator + new view is the old view, split at the first match; otherwise the result is the whole view and the view becomes empty; a non-empty separator strictly shrinks a non-empty view |
| StringViews.StringView.Slice | src/basic_data_structures/ds.cpp:111-118 | the bytes `from..to`, with INTPTR_MAX meaning Size |
| StringViews.StringView.Clone | src/basic_data_structures/ds.cpp:120-127 | a fresh arena allocation holding the view's bytes followed by a NUL, with memory outside it unchanged |
| StringViews.Store | src/basic_data_structures/ds.cpp:124 | the memcpy writes the bytes at the destination and nothing else |
| StringViews.SlicesConcatenate | src/basic_data_structures/ds.cpp:111-118 | adjacent slices concatenate to the slice spanning both |
| Arenas.Backing.MemAlloc | src/basic_data_structures/ds.cpp:211-212 | the backing allocator returns a fresh, non-null address aligned as asked, above every earlier block, and records it |
| Arenas.Backing.MemFree | src/basic_data_structures/ds.cpp:166 | a free is recorded and nothing else changes |
| Arenas.BackedBases | src/basic_data_structures/ds.cpp:162-168 | the bases of exactly the blocks taken from the backing allocator |
| Arenas.InsertAfter | src/basic_data_structures/ds.cpp:214-221 | linking a block after block c (or as the first block) keeps the blocks before it and shifts the rest by one |
| Arenas.InsertFresh | src/basic_data_structures/ds.cpp:211-221 | linking a fresh backed block keeps block bases distinct, aligned and in range |
| Arenas.Arena.constructor | src/basic_data_structures/ds.cpp:133-158 | Init: no block and a null mark, or the initial block, not from the backing allocator, with the mark just after its header |
| Arenas.Arena.PushUninitialized | src/basic_data_structures/ds.cpp:175-230 | the result is aligned, past the current block's header, and the mark ends right after it; it stays in the current block when it fits, moves to the next block when that block is big enough, and otherwise links exactly one new block of `max(BlockSize, alignUp(header) + size)` after the current one |
| Arenas.Arena.UseNext | src/basic_data_structures/ds.cpp:198-228 | reusing the next block: no new block, the result is after its aligned header and fits in it |
| Arenas.Arena.LinkNewBlock | src/basic_data_structures/ds.cpp:209-228 | one backing allocation, linked right after the current block, which the mark then moves into |
| Arenas.Arena.GetMark | src/basic_data_structures/ds.cpp:263-265 | the current mark |
| Arenas.Arena.SetMark | src/basic_data_structures/ds.cpp:267-276 | a null mark rewinds to the first block's start; any other mark is restored as given; no block is freed or unlinked |
| Arenas.Arena.Reset | src/basic_data_structures/ds.cpp:232-261 | frees every block after the first; keeps the first unless it is larger than BlockSize, freeing it then only if backed; the mark moves to the first block's start |
| Arenas.Arena.Deinit | src/basic_data_structures/ds.cpp:160-173 | frees exactly the blocks taken from the backing allocator |
| Arenas.StartAligned | src/basic_data_structures/ds.cpp:190 | a block base plus the header aligned up is aligned for the request |
| Arenas.FreeAll | src/basic_data_structures/ds.cpp:236-244 | frees every block of the list, in order |
| Arenas.MemCopy | src/basic_data_structures/ds.h:493-494 | the copied range holds the source bytes and every other byte is unchanged |
| Arenas.ArenaAllocatorFunction | src/basic_data_structures/ds.h:490-496 | pushes an aligned allocation; with old data, the first old_size bytes are copied and nothing else in memory changes; without old data, memory is unchanged |
| Arenas.ArenaFree | src/basic_data_structures/ds.h:486-488 | a free through the arena changes no memory and returns nothing to the backing allocator |
| Arenas.PushThenRewind | src/basic_data_structures/ds.cpp:263-276 | SetMark(GetMark()) around a push restores the mark and keeps every block up to the current one; the blocks are the old ones, or the old ones with the one new block the push took from the backing allocator linked right after the current block |
| Arenas.PushRewindPush | src/basic_data_structures/ds.cpp:175-276 | GetMark, a push, SetMark back and the same push again: the second push takes nothing from the backing allocator and returns the first push's address (except an empty push on an arena without blocks), so a rewound arena reuses its memory |
| Arenas.PushAgain | src/basic_data_structures/ds.cpp:184-205 | a push that the current block or the next one can take returns that place and takes nothing from the backing allocator |

## Left out

- The heap allocator (`DS_HeapAllocator`, `_aligned_realloc`) and the allocator chosen by `Init`: the backing allocator is the abstract `Arenas.Backing`, and the arrays, strings and tables get their storage from Dafny's `new`.
- `Deinit` of the array, string, map and set, `SizeInBytes`, and the debug `0xCC` fills: they only return or scrub memory, which a Dafny array does not need.
- `Addf` / `AddfVargs`: they depend on `vsnprintf` formatting.
- `DS_StringView::ToCStr`: it is `Clone` followed by a pointer read.
- The view's `operator==` and the slice conversion: plain byte comparison and a cast.
- The `DS_StringView` members at ds.cpp:53-63 are one-line forwards to `Utf8.NextCodepoint`, `Utf8.PrevCodepoint` and `Utf8.CodepointCount`, which take the view's bytes as a sequence.
- The `DS_Arena` templates `New`, `Alloc`, `Clone` and `CloneStr`: each is one `PushUninitialized` plus a copy, as in `StringViews.StringView.Clone`.
- `DS_ARENA_MEMORY_TRACKING` counters, the `#if 0` bucket array and the commented-out bucket code: not compiled.
- The compile-time reflection of `DS__IsBracesConstructible`: keys are the datatype `KeyType.Key`, with aggregates of 1 to 8 fields. Floating-point keys hash by their bits and are not modelled, and neither are 1- and 2-byte fundamental keys (`bool`, `char`, `short`), for which ds.h:766-767 reads 8 bytes through `*(uint64_t*)&x`.
- The tables take the key hash as the parameter `hashOf`; `KeyType.Hash` is not wired into them.
- Widths: Size and Capacity (`int32_t` or `intptr_t`), HasCount and arena addresses are unbounded integers. Overflow of `Size + n` in Reserve is not modelled, and neither is the `int32_t` doubling of a capacity of 2^30 (`Capacity * 2` at ds.h:565 once an array needs more than 2^30 elements, `old_capacity * 2` at ds.h:872 for a map): it is signed overflow, and where it wraps the Reserve loop never ends. The overflow of the load check, which a map reaches at 2^25 slots, is under Findings.
- Hashing.Fmix32: the contract states only the fixed point at 0 and the known answers, not that the mixer is a bijection on 32-bit values; the inverse round trip is beyond what the bit-vector solver proves within its limits.
- Hashing.Fmix64: as for Fmix32; beyond 0 no value of the 64-bit mixer is checked.
- Probing.NextProbeIsNext: stated for capacities up to 2^31, the most an `int32_t` Capacity reaches by doubling; the bit-level step for larger tables is not stated.
- Arrays.Array.PopBack: requires `Size - n < Capacity`, for the element it returns. With n = 0 on a full array the source reads `Data[Size]`, one past the storage; the model does not cover that call.
- Negative counts: Insert, Remove and PopBack require `n >= 0`. The source does not check this; a negative n moves memory backwards.
- `DS_Array::Remove` is declared to return `T&` but has no return statement. It is modelled as returning nothing.
- `DS_Set::Remove` passes `temp->key` / `temp->hash` of a non-pointer, which does not compile if instantiated. It is modelled as the map's `temp.Key` / `temp.Hash`.
- Utf8.NextCodepoint: requires each chunk it decodes to be at most 6 bytes; past that the source indexes beyond its offset table. The same applies to `Utf8.PrevCodepoint`.
- HashSet.Set.Has: requires capacity above 0; the source has no guard, and `HashSet.FirstProbeOfEmptySet` shows the out-of-table read it does then.
- Arenas.Arena.PushUninitialized: a new block's size is stored as `uint32_t` (modelled as `% 2^32`). For requests of 4 GiB or more the size wraps, and the contract then does not claim the result fits in the new block.
- Arenas.Arena.constructor: requires an initial block below every address the backing allocator will hand out, standing for "the caller's buffer is not heap memory the arena will also receive".
- Arenas.Arena.Valid: requires every block after the first to come from the backing allocator. Only `Init` can place a caller block, and only first.
- StringViews.StringView: a view holds its bytes as a value, so two views aliasing one buffer, and the pointer advance of `Split`, are modelled by value.
- Arenas.PushRewindPush: requires the aligned header plus the request to stay below 4 GiB. Above that the new block's `uint32_t` size wraps, the block is too small, and the second push may take another block.

## Findings

| source | as written | input that shows it | evidently intended | confidence | as-written member | corrected member |
|---|---|---|---|---|---|---|
| src/basic_data_structures/ds.h:573-581 | `Resize` fills `[Size, new_count)` but never assigns `Size`, so the array does not grow | Resize(3, d) on an empty array leaves Size = 0 | Size becomes new_count when it grows | high, not executed | Arrays.ResizeAsWrittenKeepsSize | Arrays.Array.Resize |
| src/basic_data_structures/ds.cpp:32-34 | the pre-decrement chain steps back over continuation bytes with no bound at the start of the view | the view `80` with offset 1 reads the byte before the view | stop stepping back at offset 0 | high, not executed | Utf8.PrevAsWrittenReadsBeforeView | Utf8.PrevCodepoint |
| src/basic_data_structures/ds.cpp:41-51 | the count stops at the first decoded codepoint 0, which a NUL byte inside the view produces | `61 00 62` counts 1 | count every codepoint of the view up to Size | medium, not executed | Utf8.CountStopsAtNul | Utf8.CodepointCount |
| src/basic_data_structures/ds.h:1126-1143 | `DS_Set::Has` has no `Capacity == 0` guard, unlike `DS_Map::FindPtr` | Has on a fresh set probes index `hash & 0xFFFFFFFF`, at least 2^31, of a null table | return false for capacity 0 | high, not executed | HashSet.FirstProbeOfEmptySet | HashSet.Set.HasChecked |
| src/basic_data_structures/ds.h:865 | `100 * (HasCount + 1) > 70 * Capacity` is computed in `int32_t`, so `70 * Capacity` overflows from 2^25 slots on (signed overflow is undefined behaviour; on the usual targets it wraps); ds.h:1067 has the same check | adding to a 2^24-slot map holding 11744051 entries: the growth to 2^25 re-adds the entries through the same function, whose first nested add sees HasCount = 0 and a wrapped, negative `70 * Capacity` and grows again; the cascade repeats at 2^26 (HasCount 4026531) and 2^27 (HasCount 8053063) and ends at 2^28 slots, 8 times the intended 2^25 slots (16 times the 2^24 it started from) | compare the products without overflow | medium, not executed | HashMap.GrowsAsWrittenOverflows | HashMap.AddEntry |

