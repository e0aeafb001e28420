# Compact vector: a verified model

This project models the compact dynamic array of SCONE (`src/Vector.h`,
`src/Vector.cpp`, `src/TaggedPtr.h`, `src/TaggedPtr.cpp`) in Dafny and
proves what its operations do to the logical sequence of elements.

- **`TaggedPtr`** (module `TaggedPointer`, `TaggedPtr.dfy`). A class over one
  64-bit word. The word stores an even address, and its bit 0 is reused as
  a boolean flag. The bit arithmetic (`AddressOf`, `FlagOf`, `WithFlag`) is
  described by pure functions on `bv64`. The class methods update the word
  in place. `SetFlag` keeps the source's two-branch body and is proved to
  produce `WithFlag` of the old word.
- **`getHighestBit`** (module `Bits`, `HighestBit.dfy`). The shift loop is a
  method proved against `HighestBitOf`, the floor of log2 with -1 for zero.
  Its bracket, uniqueness and its values at powers of two are proved
  separately.
- **`MemoryOptimizedStorage`** (module `Storage`, `Storage.dfy`). A class that
  holds at most one allocation, made of three fields:
  - the tagged pointer `ptr`;
  - a header value, `Short(u16, u16)` or `Long(u32, u32)`;
  - the slot array `slots`.

  Bit 0 of the tagged pointer selects the header variant. `Size` and
  `Capacity` dispatch on it, as in the source. `Valid()` says:
  - the pointer is non-null exactly when there is an allocation;
  - with an allocation, the flag names the header variant;
  - size ≤ capacity;
  - the capacity equals the length of the slot array;
  - a short header's capacity is positive;
  - the long header is used exactly for capacities above 65535.
- **`Vector`** (module `Vectors`, `Vector.dfy`). A class whose only field is
  the storage. Its logical contents are `Elements()`, the live prefix
  `slots[..size]`. Every mutating operation is a method on the storage and
  the slot array. The insert and erase methods move elements with loops
  over the slot array. Each of them is proved to leave
  `InsertAt(old, d, src) = old[..d] + src + old[d..]` or
  `EraseRange(old, i, j) = old[..i] + old[j..]`. The other methods
  (`Reserve`, `Clear`, `Swap`, `MoveAssign`, `PopBack`) state their new
  elements and capacity directly. The growth rule
  `getNextCapacity` is `NextCapacity`: it returns the least 2^k − 1 that is
  ≥ n, and it is idempotent.
- **Test scenarios** (module `VectorScenarios`, `VectorScenarios.dfy`). The
  situations the test suite checks, restated as methods with concrete
  postconditions, for example capacities 0, 1, 3, 3 after three pushes.

Positions (the source's iterators) are indices into the slot array. A
`size_t` is a `nat` below 2^64, and `value >>= 1` on it is `/ 2`. The two
header widths are the newtypes `u16` and `u32`.

The operator bool of `TaggedPtr` tests the whole word, flag bit included
(`src/TaggedPtr.cpp:22-25`). The model follows that code, so a word that
holds only the flag converts to true (`FlaggedNullIsTrue`). A description
of it as "the address is non-null" disagrees with the code on exactly that
word.

## Model

| member | source | states |
|---|---|---|
| TaggedPointer.AddressOf | src/TaggedPtr.h:19 | the masked read-back is always an even word |
| TaggedPointer.AddressAndFlagRebuildWord | src/TaggedPtr.h:17-20 | the masked address and the flag bit together give back the whole word |
| TaggedPointer.MaskingClearsOnlyTheFlag | src/TaggedPtr.h:19 | masking changes the word exactly when the flag is set |
| TaggedPointer.WithFlag | src/TaggedPtr.cpp:32-42 | after setting the flag to v it reads v, and the 63 address bits are unchanged |
| TaggedPointer.StoredPointerReadsBack | src/TaggedPtr.cpp:14-20 | an even pointer stored as the word reads back as itself, with the flag false |
| TaggedPointer.TruthIsWholeWord | src/TaggedPtr.cpp:22-25 | the boolean conversion is true iff the address or the flag is non-zero |
| TaggedPointer.FlaggedNullIsTrue | src/TaggedPtr.cpp:22-25 | a null address with the flag set converts to true |
| TaggedPointer.SetThenClearRestores | src/TaggedPtr.cpp:32-42 | setting and then clearing the flag restores the word of an even pointer |
| TaggedPointer.TaggedPtr.constructor | src/TaggedPtr.h:30 | the default word is 0: false as a boolean, flag false |
| TaggedPointer.TaggedPtr.FromPointer | src/TaggedPtr.cpp:9-12 | construction from an even pointer stores its bits; flag false, read-back is the pointer |
| TaggedPointer.TaggedPtr.Assign | src/TaggedPtr.cpp:14-20 | assignment of an even pointer stores its bits; flag false, read-back is the pointer |
| TaggedPointer.TaggedPtr.SetFlag | src/TaggedPtr.cpp:32-42 | the new word is the old with bit 0 set to the value; the flag reads the value and the address is unchanged |
| TaggedPointer.TaggedPtr.IsSet | src/TaggedPtr.cpp:22-25 | the boolean conversion is true iff the address or the flag is non-zero, so a flagged null pointer is true |
| TaggedPointer.TaggedPtr.HasFlag | src/TaggedPtr.cpp:27-30 | the flag is set exactly when masking bit 0 changes the word |
| TaggedPointer.TaggedPtr.GetAs | src/TaggedPtr.h:16-20 | the read-back address is even, and with the flag put back it rebuilds the word |
| TaggedPointer.TaggedPtr.Swap | src/TaggedPtr.cpp:44-47 | the two words are exchanged |
| TaggedPointer.SwapTwice | src/TaggedPtr.cpp:44-47 | swapping twice gives both pointers their original words |
| TaggedPointer.TagStoredPointer | test/TaggedPtrTestSuite.cpp:13-23 | a stored even pointer has flag false, then true after setFlag(true), and reads back unchanged |
| Bits.HighestBitOf | src/Vector.cpp:5-14 | -1 for zero; otherwise r ≥ 0 with 2^r ≤ v < 2^(r+1) |
| Bits.HighestBitIsUnique | src/Vector.cpp:5-14 | the bracket 2^k ≤ v < 2^(k+1) determines the result k |
| Bits.HighestBitOfPow2 | src/Vector.cpp:5-14 | the highest bit of 2^k is k |
| Bits.HighestBitOfAllOnes | src/Vector.cpp:5-14 | the highest bit of 2^(k+1) − 1 is k |
| Bits.HighestBitOfWord | src/Vector.cpp:5 | for a 64-bit value the result lies in [-1, 63], so it fits int8_t |
| Bits.HighestBit | src/Vector.cpp:5-14 | the shift loop terminates and returns HighestBitOf(value): -1 for 0, the 2^r bracket otherwise, at most 63 |
| Storage.MemoryOptimizedStorage.constructor | src/Vector.h:40 | the default storage has no allocation: size 0, capacity 0 |
| Storage.MemoryOptimizedStorage.Size | src/Vector.h:98-101 | the size is at most the capacity, and 0 without an allocation |
| Storage.MemoryOptimizedStorage.Capacity | src/Vector.h:103-106 | the capacity is 0 exactly without an allocation, otherwise the slot count, and fits 32 bits |
| Storage.MemoryOptimizedStorage.Data | src/Vector.h:108-111 | the data pointer is null exactly when the tagged pointer is null, otherwise it has capacity slots |
| Storage.MemoryOptimizedStorage.Allocate | src/Vector.h:65-84 | on empty storage: a fresh allocation with size 0 and capacity c; the long header and flag are used iff c > 65535 |
| Storage.MemoryOptimizedStorage.Free | src/Vector.h:86-96 | the allocation is released and the tagged word becomes 0; size and capacity become 0 |
| Storage.MemoryOptimizedStorage.AdvanceSize | src/Vector.h:113-116 | the size field of the header in use moves by delta; capacity and header width are unchanged |
| Storage.MemoryOptimizedStorage.Swap | src/Vector.h:118-121 | tagged words, headers and slots are exchanged, hence sizes and capacities; a self-swap changes nothing |
| Storage.MemoryOptimizedStorage.MoveAssign | src/Vector.h:50-58 | self-move changes nothing; otherwise this storage takes the other's allocation and the other ends empty |
| Vectors.HighestBitBelowGrowthLimit | src/Vector.h:519 | below 2^31 the highest bit is at most 30, so the 32-bit shift is defined |
| Vectors.NextCapacity | src/Vector.h:514-522 | 0 iff n = 0; n ≤ r < 2n for n > 0; r has the form 2^k − 1 |
| Vectors.NextCapacityIsLeast | src/Vector.h:514-522 | no value of the form 2^k − 1 that is ≥ n lies below NextCapacity(n) |
| Vectors.NextCapacityOfAllOnes | src/Vector.h:514-522 | a capacity 2^k − 1 is its own next capacity |
| Vectors.NextCapacityOfPow2 | src/Vector.h:514-522 | one past a full capacity 2^k − 1 the next capacity is 2^(k+1) − 1 |
| Vectors.NextCapacityIdempotent | src/Vector.h:514-522 | applying the growth rule twice gives the same capacity as once |
| Vectors.PushCapacities | test/VectorTestSuite.cpp:84-113 | the growth rule yields 1, 3 and 7 for sizes 1, 2 and 4 |
| Vectors.EraseUndoesInsert | src/Vector.h:414-432 | erasing the positions just inserted gives back the original sequence |
| Vectors.InsertAtPositions | src/Vector.h:353-408 | after an insertion the inserted elements sit in [d, d+\|src\|) and the others keep their order around them |
| Vectors.EraseRangeFromPositions | src/Vector.h:414-432 | a sequence that keeps s[..i] and continues with s[j..] is the erasure of [i, j) |
| Vectors.InsertAtEndAppends | src/Vector.h:317-320 | insertion at the end is appending, which is push_back |
| Vectors.EraseRangeOfEmptyRange | src/Vector.h:414-432 | erasing an empty range leaves the sequence unchanged |
| Vectors.EraseLastIsPrefix | src/Vector.h:333-341 | erasing the last position drops exactly the last element |
| Vectors.ShiftAndPlace | src/Vector.h:469-479 | the downward shift loop plus the final assignment leave value inserted at pos in the first last+1 slots |
| Vectors.OpenHole | src/Vector.h:374-392 | the backward move and hole assignment keep the prefix, put the moved tail \|range\| slots up and fill the hole from the range up to the old end |
| Vectors.HoleFilled | src/Vector.h:353-408 | slots laid out as the range insert leaves them hold the range inserted at pos |
| Vectors.Vector.Size | src/Vector.h:294-297 | the size is the length of the element sequence |
| Vectors.Vector.Capacity | src/Vector.h:299-302 | size ≤ capacity ≤ 2^32 − 1 after every operation |
| Vectors.Vector.IsEmpty | src/Vector.h:289-292 | empty iff the element sequence is empty |
| Vectors.Vector.At | src/Vector.h:217-227 | operator[] returns element i of the sequence for i < size |
| Vectors.Vector.Front | src/Vector.h:229-237 | front is the first element |
| Vectors.Vector.Back | src/Vector.h:239-247 | back is the last element |
| Vectors.Vector.Equals | src/Vector.h:434-437 | equal iff the element sequences are equal, that is equal sizes and pairwise equal elements |
| Vectors.Vector.constructor | src/Vector.h:163-165 | a default vector is empty with capacity 0 and no allocation |
| Vectors.Vector.FromRange | src/Vector.h:194-215 | elements equal the range in order, capacity is its length, and an empty range allocates nothing |
| Vectors.Vector.ConstructAtEnd | src/Vector.h:203-207 | each remaining element of the source is constructed past the end, growing the size by one each; the sequence becomes old + rest |
| Vectors.Vector.Clear | src/Vector.h:304-307 | clear empties the vector and releases the allocation |
| Vectors.Vector.MoveAssign | src/Vector.h:180-181 | the target takes the source's elements and capacity; the source ends with size 0 and capacity 0 |
| Vectors.Vector.Swap | src/Vector.h:444-447 | the elements, capacities and slot arrays of the two vectors are exchanged; a self-swap changes nothing |
| Vectors.Vector.MoveData | src/Vector.h:494-512 | slots [result, next) receive the source range and all other slots are unchanged; the size grows to next if it was below; returns result + count |
| Vectors.Vector.Reallocate | src/Vector.h:485-492 | the elements move unchanged into a fresh allocation of exactly the requested capacity, with the header width chosen anew |
| Vectors.Vector.Reserve | src/Vector.h:309-315 | a no-op when n ≤ capacity; otherwise capacity becomes exactly n and the elements are kept |
| Vectors.Vector.Insert | src/Vector.h:451-483 | elements become old[..d] + [v] + old[d..], the result is d, and capacity grows by the growth rule only when the vector was full |
| Vectors.Vector.InsertInPlace | src/Vector.h:459-482 | below capacity the insertion leaves old[..d] + [v] + old[d..] and keeps the capacity |
| Vectors.Vector.PushBack | src/Vector.h:317-325 | elements become old + [v]; capacity grows by the growth rule only when full |
| Vectors.Vector.InsertRange | src/Vector.h:353-408 | elements become old[..d] + src + old[d..] and the result is d; an empty range changes nothing; otherwise the capacity is reserved by the growth rule |
| Vectors.Vector.InsertRangeInPlace | src/Vector.h:366-399 | once reserved, the backward move and the two filling loops leave old[..d] + src + old[d..] |
| Vectors.Vector.Erase | src/Vector.h:414-432 | elements become old[..i] + old[j..], the result is i, and the allocation is kept |
| Vectors.Vector.EraseAt | src/Vector.h:410-413 | the single element at pos is removed and the result is pos |
| Vectors.Vector.PopBack | src/Vector.h:333-341 | a non-empty vector loses exactly its last element; an empty one is unchanged |
| VectorScenarios.Construction | test/VectorTestSuite.cpp:21-31 | construction from five elements gives size 5, capacity 5, the elements [1, 2, 3, 5, 4] in order and element 3 equal to 5 |
| VectorScenarios.Empty | test/VectorTestSuite.cpp:33-39 | a default vector is empty with size 0 |
| VectorScenarios.Reserve | test/VectorTestSuite.cpp:41-61 | capacities 5, 5, 10, 65536 with the elements kept, and the long header after crossing 65535 |
| VectorScenarios.Move | test/VectorTestSuite.cpp:73-82 | the moved-to vector holds the elements and the source has size 0 |
| VectorScenarios.PushBack | test/VectorTestSuite.cpp:90-113 | pushing 5, 2, 1 gives capacities 0, 1, 3, 3 and elements [5, 2, 1] |
| VectorScenarios.Erase | test/VectorTestSuite.cpp:115-136 | the returned positions hold 1, 4, 5 and the sizes are 5, 4, 1 |
| VectorScenarios.Insert | test/VectorTestSuite.cpp:138-147 | inserting 6 at the front gives [6, 1, 2, 3, 4, 5] with 6 at the result |
| VectorScenarios.InsertRangeInside | test/VectorTestSuite.cpp:151-160 | inserting [6, 7, 8, 9] at 3 gives [1, 2, 3, 6, 7, 8, 9, 4, 5] |
| VectorScenarios.InsertRangeAtFront | test/VectorTestSuite.cpp:162-171 | inserting [6, 7] at 0 gives [6, 7, 1, 2, 3, 4, 5] |
| VectorScenarios.FrontBack | test/VectorTestSuite.cpp:174-179 | front 1 and back 5 |
| VectorScenarios.PopBack | test/VectorTestSuite.cpp:181-191 | backs 2 then 1, and size 0 after the second pop |
| VectorScenarios.Swap | test/VectorTestSuite.cpp:206-220 | swapping [1..5] with [6] exchanges the contents |
| VectorScenarios.SelfSwap | src/Vector.h:444-447 | swapping a vector with itself keeps its elements [1, 2, 3] and capacity 3 |
| VectorScenarios.Equality | src/Vector.h:434-437 | equal elements compare equal; a different size does not |

## Left out

- Raw byte layout. `operator new`/`operator delete` of a header plus slots, and the `reinterpret_cast` in `getAs`, are modelled as a header value plus an array. The address `operator new` returns is any even non-zero word, chosen nondeterministically.
- Element lifetimes. Destructor calls (`destroy`, the loops in `free` and `erase`) and placement new are represented only by the size boundary: slots past the size are dead. The element type needs a default value (`T(0)`) so that slots exist before construction.
- Exceptions. The `try`/`catch` unwinding of construction and range insert is not modelled; every element copy succeeds, and every `operator new` succeeds (`Allocate` always finds a non-null address).
- Vectors.Vector.Reallocate: does not model a throwing `allocate` inside `reallocate` (`src/Vector.h:488-490`); the elements would already sit in the temporary and be freed with it, so a failed `reserve` or `push_back` would leave the vector empty.
- The destructors of the storage and of the vector, and the temporary vector's destructor in `reallocate`. The temporary is modelled by a storage object that is explicitly freed.
- The move constructor of the storage. It is move assignment onto a default storage.
- The copy constructor. It is range construction from the other vector's elements.
- The copy-assignment operator (`src/Vector.h:172-178`). It has no return statement and binds a temporary to a non-const reference, so it is ill-formed whenever it is used (as a template member it is only instantiated on use).
- `emplace_back`, because it names an undeclared type.
- `InlineStorage`/`InlineVector` in `src/VectorFwd.h`, because they are only declared.
- Reverse iterators. They are views with nothing to prove.
- The rvalue overloads of `push_back` and `insert`. They behave as the copying ones at the level of values.
- Aliasing between an inserted value or range and the vector's own slots. The inserted value is passed by value.
- Storage.MemoryOptimizedStorage.Allocate: requires 1 ≤ capacity ≤ 2^32 − 1, because `allocate(0)` computes `capacity - 1U` on an unsigned value and a larger capacity is truncated by the `uint32_t` cast.
- Storage.MemoryOptimizedStorage.AdvanceSize: requires the new size to stay within [0, capacity]; the 16- or 32-bit wrap-around of the header field is not modelled.
- Vectors.NextCapacity: requires n < 2^31, because `1U << (h + 1)` on a 32-bit unsigned is undefined for h = 31.
- Vectors.Vector.Insert: requires room, or a new size below 2^31, for the same reason. The same restriction applies to Vectors.Vector.PushBack.
- Vectors.Vector.InsertRange: requires an empty range or a new size below 2^31, for the same reason.
- Vectors.Vector.Reserve: requires capacity ≤ 2^32 − 1, the limit of the long header. Vectors.Vector.Reallocate and Vectors.Vector.FromRange carry the same bound.
- Vectors.Vector.MoveAssign: requires the two vectors to be the same or to own distinct storage objects, as two live C++ objects do.
- Bits.HighestBit: the loop counter is not exposed; that it runs once per binary digit follows from its invariant, but is not a separate postcondition.
