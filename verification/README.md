# DynamicArray.h in Dafny

A model of the type-erased growable array in `src/DynamicArray.h`. The C
code hides a three-word header (size, capacity, element size) in front of the
element pointer it hands to the caller. Every operation takes that pointer and
returns a pointer that may have moved after a `realloc`. Here the header and
the storage are one immutable record, `DynamicArray.DynArray`:

- `count`: the number of live elements (`dyn_arr_size`).
- `capacity`: the recorded capacity (`dyn_arr_capacity`).
- `elsize`: the element size in bytes (`dyn_arr_elsize`).
- `slots`: how many element slots the allocation really holds. A
  `dyn_arr_shrink` that reallocates (size below capacity) makes it one more
  than `capacity`, and it stays so until the next growing reallocation;
  otherwise it equals `capacity`.
- `buf`: the `capacity` usable slots. Each is a block of `elsize` bytes. The
  first `count` slots are live; the rest are unspecified.

Each operation is a pure function from the old record to the new one.
`memmove`, `memset` and `memcpy` are modelled at element granularity in
module `Memory`. `Bytes.Flatten` gives the contiguous byte image of the live
elements, so `dyn_arr_end` is a byte offset into that image.

Modules:

- `Bytes`: bytes, element blocks, zero blocks, and the byte image of a block sequence.
- `Memory`: `memmove`, `memset` and `memcpy` over a slot buffer.
- `DynamicArray`: the record, its invariant `Valid`, and every operation of the header.
- `DynamicArrayProperties`: properties that relate several operations.
- `TestScenario`: the assertions of `test/test_lib.c`, as lemmas.

The invariant is `count <= capacity <= slots`, `|buf| == capacity`, and
every slot `elsize` bytes long. Every operation requires it and re-establishes
it, and every operation preserves `elsize`.

The header has no range insert and no delete operations. `dyn_arr_shrink`
records `capacity = count` while reallocating `count + 1` slots
(src/DynamicArray.h:157-164); the model keeps the two numbers apart as
`capacity` and `slots`.

## Model

| member | source | states |
|---|---|---|
| Bytes.FlattenLength | src/DynamicArray.h:62-63 | live elements of `elsize` bytes each occupy exactly `elsize * size` bytes |
| Bytes.FlattenIndex | src/DynamicArray.h:139-142 | byte `j` of element `k` sits at byte offset `elsize * k + j` of the element storage |
| Memory.Move | src/DynamicArray.h:139-141 | memmove: the destination range receives the old source range and every other slot keeps its value, even when the ranges overlap |
| Memory.Fill | src/DynamicArray.h:109-110 | memset: exactly the `n` slots from `at` take the fill value and every other slot is unchanged |
| Memory.CopyPrefix | src/DynamicArray.h:177 | memcpy into the front of a buffer: the first `n` slots become the source's first `n`, the rest of the destination is untouched |
| DynamicArray.Grow | src/DynamicArray.h:123 | the amortised growth target `size*3/2+1` always exceeds `size` and is more than one and a half times it |
| DynamicArray.Init | src/DynamicArray.h:26-44 | a new array has size 0, capacity 0, no live elements, the given element size, and satisfies the invariant |
| DynamicArray.Size | src/DynamicArray.h:48 | the size is the number of live elements |
| DynamicArray.Capacity | src/DynamicArray.h:53 | the capacity is never below the size and equals the number of usable slots |
| DynamicArray.ElSize | src/DynamicArray.h:57 | every live element is exactly the element size in bytes |
| DynamicArray.End | src/DynamicArray.h:62-63 | the end offset is the length of the byte image of the live elements |
| DynamicArray.Reserve | src/DynamicArray.h:78-94 | no-op (the same array) when capacity already suffices; otherwise capacity and allocation become exactly `n`; size, element size and live elements never change |
| DynamicArray.Resize | src/DynamicArray.h:96-113 | size becomes `n` and capacity becomes `max(capacity, n)`; truncation keeps the first `n` elements and the allocation; growth keeps the old elements and appends `n - size` all-bits-zero elements |
| DynamicArray.MakeRoom | src/DynamicArray.h:122-123 | leaves a free slot; untouched when one was free, otherwise the capacity becomes `Grow(size)`; size and live elements are kept |
| DynamicArray.Push | src/DynamicArray.h:115-128 | the live elements become the old ones followed by `v`, size grows by one, and capacity is unchanged unless the array was full, when it becomes `size*3/2+1` |
| DynamicArray.Insert | src/DynamicArray.h:130-145 | requires `pos <= size`; the live elements become `old[..pos] + [v] + old[pos..]`, size grows by one, same growth rule as push |
| DynamicArray.Shrink | src/DynamicArray.h:147-166 | no-op when size equals capacity; otherwise capacity becomes the size and the allocation size + 1 slots; size and live elements are kept |
| DynamicArray.Copy | src/DynamicArray.h:168-179 | the copy has the same element size, size and live elements, and capacity equal to the size, also when empty |
| DynamicArrayProperties.PushAll | src/DynamicArray.h:120-128 | pushing a sequence of elements in order appends exactly that sequence and raises the size by its length |
| DynamicArrayProperties.InsertBeforeLast | test/test_lib.c:20-21 | inserting at `size - 1` places the value just before the last element, which stays last |
| DynamicArrayProperties.InsertBeforeLastAll | test/test_lib.c:20-21 | repeated inserts at `size - 1` keep the invariant and the element size and raise the size by the number of inserts |
| DynamicArrayProperties.InsertBeforeLastAllContents | test/test_lib.c:20-23 | repeated inserts at `size - 1` place the inserted values in order between the old front and the old last element, which stays last |
| DynamicArrayProperties.InsertAtEndIsPush | src/DynamicArray.h:131-132 | inserting at `pos == size` gives exactly the same array as pushing, spare slots included |
| DynamicArrayProperties.ResizeUndoesPush | src/DynamicArray.h:101-106 | resizing back to the old size after a push restores the old live elements |
| DynamicArrayProperties.ResizeRegrowZeroes | src/DynamicArray.h:101-112 | truncating and then growing again exposes zero elements, never the stale ones left in the spare slots |
| DynamicArrayProperties.ReserveIdempotent | src/DynamicArray.h:80 | a second reserve of the same amount changes nothing |
| DynamicArrayProperties.ResizeIdempotent | src/DynamicArray.h:103-106 | a second resize to the same size changes nothing |
| DynamicArrayProperties.ShrinkIdempotent | src/DynamicArray.h:154-155 | shrinking an already shrunk array changes nothing |
| DynamicArrayProperties.CopyShape | src/DynamicArray.h:173-179 | a copy is exactly the live elements in an allocation of exactly size slots with capacity equal to size |
| DynamicArrayProperties.CopyIsTight | src/DynamicArray.h:168-172 | copying a copy gives the same array, and a copy has no spare capacity for shrink to remove |
| DynamicArrayProperties.EndFollowsLast | src/DynamicArray.h:58-63 | the last live element's bytes end exactly at the end offset |
| DynamicArrayProperties.GrowthCapacityBound | src/DynamicArray.h:122-123 | the push/insert growth sequence never lowers the capacity and always leaves room for every element added |
| DynamicArrayProperties.GrowthCoasts | src/DynamicArray.h:122 | while free slots remain, repeated pushes leave the capacity alone until the array is full |
| DynamicArrayProperties.PushAllCapacity | src/DynamicArray.h:122-123 | repeated pushes follow the growth sequence that depends only on the starting capacity, size and number of pushes |
| DynamicArrayProperties.InsertBeforeLastAllCapacity | src/DynamicArray.h:137-138 | repeated inserts follow the same growth sequence as pushes |
| DynamicArrayProperties.Step | src/DynamicArray.h:78-179 | a call that meets the caller's obligations yields an array that keeps the invariant and the element size; a call that breaks them (wrong value size, insert position past the size) is undefined |
| DynamicArrayProperties.Run | src/DynamicArray.h:78-179 | any sequence of calls keeps the invariant and the element size until the first call that breaks the caller's obligations |
| DynamicArrayProperties.RunFromInit | src/DynamicArray.h:26-38 | from a fresh array, every run of calls keeps the invariant and the element size |
| TestScenario.LastTwoBytes | test/test_lib.c:14-15 | on one-byte elements the two bytes before the end pointer are the last two elements |
| TestScenario.PushedContents | test/test_lib.c:11-13 | the 27 pushes leave exactly the lower-case alphabet and its zero terminator |
| TestScenario.PushScenario | test/test_lib.c:14-16 | after the pushes the last byte is zero, the one before it is `z`, and the size is 27 |
| TestScenario.GrowthFromEmpty | src/DynamicArray.h:122-123 | from empty, 27 pushes grow the capacity through 1, 2, 4, 7, 11, 17, 26 to 40 |
| TestScenario.PushCapacity | test/test_lib.c:18 | the capacity the driver prints after the pushes is 40 |
| TestScenario.InsertedContents | test/test_lib.c:20-21 | the 26 inserts leave the lower-case letters, then the upper-case letters, then the zero byte |
| TestScenario.InsertScenario | test/test_lib.c:22-23 | after the inserts the last byte is still zero, the one before it is `Z`, and the size is 53 |
| TestScenario.GrowthDuringInserts | src/DynamicArray.h:137-138 | from size 27 and capacity 40, 26 inserts grow the capacity once, to 61 |
| TestScenario.InsertCapacity | test/test_lib.c:25 | the capacity the driver prints after the inserts is 61 |
| TestScenario.ShrinkScenario | test/test_lib.c:26-27 | the capacity the driver prints after shrinking is 53, the size |

## Left out

- Heap layout: the header's 24-byte placement before the user pointer, the 8-byte alignment, pointer identity and `dyn_arr_free`. The record stands in for the allocation.
- Allocation failure: the `fprintf` and `exit(-1)` paths in init, reserve and shrink. Every allocation is assumed to succeed.
- `size_t` arithmetic: `size*3/2+1` and `elsize*size` are unbounded `nat` arithmetic, so wrap-around is not modelled.
- The contents of storage that `realloc` adds: these are indeterminate in C. The model fills them with zero blocks, and no contract depends on what they hold.
- Aliasing: passing a `val` that points into the array itself is not modelled. Values are passed by value, so a `realloc` cannot leave them dangling.
- Type punning: elements are opaque blocks of `elsize` bytes. Whether the caller stores values of the right type and alignment is left to the caller.
- The `printf` output of `test/test_lib.c`. Only its assertions and the values it prints are stated, as lemmas.
