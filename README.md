# emb_lib containers in Dafny

This project models the fixed-capacity containers of emb_lib, a C library for embedded
targets. Each container works over an array that the caller supplies. The model covers both
generations of the containers and the helpers they use, and proves their properties with the
Dafny verifier.

- **Current generation (`emblib_*`).**
  - A ring buffer keeps `head`, `tail` and `count` as element indices (module
    `EmblibCircBuffer`, class `CircBuffer<T>`).
  - A deque steps those indices backwards for `push_front` and `pop_back` (module
    `EmblibDeque`, operating on `CircBuffer<T>`).
  - An array list inserts and removes at a position by shifting elements (module
    `EmblibList`, class `List<T>`).
  - A duplicate-free set is built on that list (module `EmblibSet`).
  - Elements are values of a type parameter `T`; the injected `copy_fn` is plain assignment.
  - `free_fn` is a ghost log `freed` of the slot indices it would be called on.
- **Legacy generation.** These keep byte offsets into a byte array (`array<u8>`). An element
  is a run of `sizeElem` bytes, and every `memcpy` is an explicit write of bytes.
  - A ring buffer tells full from empty with an `isfull` flag (module `LegacyCircBuffer`).
  - A list supports batch `retrieve(n)` (module `LegacyList`).
  - A LIFO `push`/`pop`/`peek` works over the list's fields (module `LegacyStack`).
  - The shared module `ByteRing` describes a byte array as a sequence of element-sized chunks.
    It defines the logical contents of a ring of chunks and the effect of a byte copy.
  - Data pointers are `array?<u8>`, so the C null checks stay visible.
- **Helpers.**
  - The byte and word split and join functions and the in-place `memrev` of
    `src/emblib_util.c` (module `EmblibUtil`).
  - The variants of `memrev` and `strrev` in `src/util.c` (module `Util`).
  - The bounded string builder of `modules/string_builder.c` (module `StringBuilder`).

Each container is a class. The operations of the C source are methods that update its fields
and its array in place. A ghost function `Contents()` maps the fields and the array to the
logical sequence of stored elements. Every operation states its effect on that sequence and on
the fields, including the failure cases the C code reports with `false` or `0`. Queries that
only read are functions whose contracts relate the answer to `Contents()`.

The deque, list and set delegate some calls to the ring buffer:

- `emblib_deque_init`, `emblib_deque_is_empty`, `emblib_deque_is_full`, `emblib_deque_size`
  and `emblib_deque_count` are `CircBuffer.Init`, `IsEmpty`, `IsFull`, `Size` and `Count`.
- `emblib_list_is_empty`, `emblib_list_is_full`, `emblib_list_size` and `emblib_list_count`
  are the corresponding members of `EmblibList.List`.
- `emblib_set_init`, `emblib_set_size` and `emblib_set_count` are `EmblibSet.Init`, `Size`
  and `Count`.

Where the C code does not do what it evidently means to, the model keeps two members. One
models the code as written and is paired with a concrete input that shows the discrepancy.
The other is corrected and carries the intended property (see "## Findings").

## Model

| member | source | states |
|---|---|---|
| EmblibUtil.HiByte | src/emblib_util.c:4-6 | the result is the high byte: `r*256 <= b < (r+1)*256` |
| EmblibUtil.LoByte | src/emblib_util.c:8-10 | the result is the low byte: `b` and `r` agree modulo 256 |
| EmblibUtil.HiWord | src/emblib_util.c:12-14 | the result is the high 16-bit word: `r*65536 <= b < (r+1)*65536` |
| EmblibUtil.LoWord | src/emblib_util.c:16-18 | the result is the low 16-bit word: `b` and `r` agree modulo 65536 |
| EmblibUtil.MakeWord | src/emblib_util.c:20-22 | joining `lo` and `hi` gives a word whose high byte is `hi` and whose low byte is `lo` |
| EmblibUtil.MakeDWord | src/emblib_util.c:24-26 | joining `lo` and `hi` gives a dword whose high word is `hi` and whose low word is `lo` |
| EmblibUtil.WordSplitJoin | src/emblib_util.c:4-22 | splitting a word and joining the halves gives the word back |
| EmblibUtil.DWordSplitJoin | src/emblib_util.c:12-26 | splitting a dword and joining the halves gives the dword back |
| EmblibUtil.HelperExamples | test/util/main_test_util.cpp:16-52 | the asserted values: 0xAA55 splits into 0xAA and 0x55, 0xAA5555AA into 0xAA55 and 0x55AA, and the joins give 0xAABB and 0xAABBCCDD |
| EmblibUtil.ReversedAt | src/emblib_util.c:31-35 | position `k` of the reversal holds `s[len-1-k]`, the byte the swap loop puts there |
| EmblibUtil.MirrorIsReversed | src/emblib_util.c:31-35 | any sequence mirroring `s` position by position is its reversal |
| EmblibUtil.ReversedTwice | src/emblib_util.c:28-37 | reversing twice gives the original bytes |
| EmblibUtil.ReversedKeepsMiddle | src/emblib_util.c:31-35 | for an odd length the middle byte does not move |
| EmblibUtil.ReversedShort | src/emblib_util.c:31 | a buffer of length 0 or 1 is its own reversal |
| EmblibUtil.MemRev | src/emblib_util.c:28-37 | returns `p`, including null for a null `p`; the first `len` bytes are reversed in place and the rest is unchanged |
| Util.MemRev | src/util.c:34-42 | a null `p` changes nothing; otherwise the first `len` bytes are reversed in place and the rest is unchanged |
| Util.MemRevShortIsIdentity | src/util.c:36 | with `len <= 1` the buffer is unchanged |
| Util.StrLen | src/util.c:46 | the result is the index of a NUL with no NUL before it |
| Util.StrLenIsFirstNul | src/util.c:46 | any index of a NUL with none before it is the length: the first NUL is unique |
| Util.StrRev | src/util.c:44-49 | the characters before the first NUL are reversed; the terminator and everything after it stay in place, so the length is unchanged |
| StringBuilder.StringBuilder.Init | modules/string_builder.c:4-15 | succeeds iff the buffer is non-null and `size > 0`; then `len = 0`, `capacity = size`, `s[0] = 0` and the rest of the buffer is untouched; on failure nothing changes |
| StringBuilder.StringBuilder.RemainingBytes | modules/string_builder.c:17-19 | the room left is `capacity - len - 1`: one byte is always reserved |
| StringBuilder.StringBuilder.GetLen | modules/string_builder.c:21-23 | the length is below the capacity |
| StringBuilder.StringBuilder.GetCapacity | modules/string_builder.c:25-27 | the capacity is positive and fits the buffer |
| StringBuilder.StringBuilder.Str | modules/string_builder.c:29-31 | the result is the builder's buffer, which holds at least `capacity` bytes |
| StringBuilder.StringBuilder.AppendCharArray | modules/string_builder.c:34-46 | succeeds iff the source is non-null, `n > 0` and `n` fits the remaining room. On success the text grows by exactly the `n` source bytes. No terminator is written, and bytes from the new `len` on are untouched. On failure `len` and the buffer are unchanged. `len < capacity` is kept |
| StringBuilder.AppendExample | test/string_builder/test_string_buffer.cpp:24-31 | capacity 32; appending "ABCDEF" gives length 6 |
| EmblibCircBuffer.RingAppend | src/emblib_circ_buffer.c:53-55 | writing slot `(head+count) % size` and counting one more appends the element to the ring's contents |
| EmblibCircBuffer.RingPop | src/emblib_circ_buffer.c:83-85 | the first element is the slot at `head`; stepping `head` and counting one fewer drops it |
| EmblibCircBuffer.RingOverwrite | src/emblib_circ_buffer.c:66-72 | on a full ring, writing at the tail slot and stepping `head` gives the old contents without the oldest, plus the new element |
| EmblibCircBuffer.CircBuffer.Init | src/emblib_circ_buffer.c:10-34 | succeeds iff the array is non-null, `buffer_len > 0`, `size_elem > 0`, `buffer_len % size_elem == 0` and `copy_fn` is given; then `head = tail = count = 0`, the capacity is stored in bytes, and whether `free_fn` is given is recorded with an empty log of freed slots |
| EmblibCircBuffer.CircBuffer.Size | src/emblib_circ_buffer.c:36-38 | the number of element slots, `capacity / elem_size` |
| EmblibCircBuffer.CircBuffer.Capacity | src/emblib_circ_buffer.c:40-42 | the capacity in bytes, `Size() * elem_size` |
| EmblibCircBuffer.CircBuffer.Count | src/emblib_circ_buffer.c:44-46 | the number of stored elements, at most `Size()` |
| EmblibCircBuffer.CircBuffer.IsEmpty | src/emblib_circ_buffer.c:103-105 | true iff the contents are empty |
| EmblibCircBuffer.CircBuffer.IsFull | src/emblib_circ_buffer.c:107-109 | true iff every slot holds an element |
| EmblibCircBuffer.CircBuffer.WillFull | src/emblib_circ_buffer.c:111-114 | true iff `count + n > size`, counted in elements |
| EmblibCircBuffer.CircBuffer.Insert | src/emblib_circ_buffer.c:48-59 | fails and changes nothing iff no element is given (null `data`, `None`) or the buffer is full. Otherwise it writes at `tail`, appends the element to the contents, steps `tail` and increments `count`; `head` is unchanged |
| EmblibCircBuffer.CircBuffer.InsertOverwrite | src/emblib_circ_buffer.c:61-76 | fails and changes nothing iff no element is given (null `data`, `None`); otherwise it writes at `tail`. When full it steps `head`, keeps `count` and drops the oldest element. Otherwise it appends and increments `count` |
| EmblibCircBuffer.CircBuffer.Overwrite | src/emblib_circ_buffer.c:65-72 | with an element given: on a full buffer steps `head`, keeps `count` and gives the old contents without the oldest plus the new element; otherwise appends and increments `count`; either way writes at `tail` and steps `tail` |
| EmblibCircBuffer.CircBuffer.Retrieve | src/emblib_circ_buffer.c:78-91 | fails iff empty. Otherwise it returns the oldest element, drops it, steps `head` and decrements `count` |
| EmblibCircBuffer.CircBuffer.Peek | src/emblib_circ_buffer.c:93-101 | fails iff empty; otherwise returns the element in slot `head`, the oldest, and changes nothing |
| EmblibCircBuffer.CircBuffer.Flush | src/emblib_circ_buffer.c:116-126 | resets `head`, `tail` and `count` to 0. When `free_fn` is given, the log records slots `0..count-1` counted from the array start |
| EmblibCircBuffer.Drain | src/emblib_circ_buffer.c:78-91 | retrieving until empty yields exactly the contents in FIFO order |
| EmblibCircBuffer.OverwriteExample | test/circ_buffer/main_test_circ_buffer.cpp:54-62 | capacity 5; overwriting with 1..6 gives count 5, head 1, tail 1 and contents 2..6 |
| EmblibCircBuffer.WrapAroundExample | test/circ_buffer/main_test_circ_buffer.cpp:88-115 | retrieval across the wrap-around keeps FIFO order |
| EmblibCircBuffer.WillFullExample | test/circ_buffer/main_test_circ_buffer.cpp:147-155 | `will_full` answers as asserted before and after inserts |
| EmblibCircBuffer.NullDataExample | src/emblib_circ_buffer.c:48-76 | on an empty buffer with free slots, insert and overwrite-insert without an element both fail and the count stays 0 |
| EmblibDeque.RingPrepend | src/emblib_deque.c:13-15 | stepping `head` back, writing there and counting one more prepends the element |
| EmblibDeque.RingDropLast | src/emblib_deque.c:34-36 | the last element is the slot before `tail`; counting one fewer drops it |
| EmblibDeque.PushFront | src/emblib_deque.c:9-20 | fails and changes nothing iff full. Otherwise `head` becomes `(head-1+size) % size` and holds the element, which is prepended; `count` increments and `tail` is unchanged |
| EmblibDeque.PushBack | src/emblib_deque.c:22-24 | the ring buffer's insert: fails for a missing element or a full deque, and then the array, cursors and contents are unchanged; otherwise appends and steps `tail` |
| EmblibDeque.PopFront | src/emblib_deque.c:26-28 | the ring buffer's retrieve: returns and drops the first element unless empty |
| EmblibDeque.PopBack | src/emblib_deque.c:30-40 | fails iff empty. Otherwise `tail` steps back, and the element there, the last one, is returned and dropped; `count` decrements and `head` is unchanged |
| EmblibDeque.PeekFront | src/emblib_deque.c:42-50 | fails iff empty; otherwise returns the first element, slot `head` |
| EmblibDeque.PeekBack | src/emblib_deque.c:52-61 | fails iff empty; otherwise returns the last element, slot `(tail-1+size) % size` |
| EmblibDeque.PushPopExample | test/deque/main_test_deque.cpp:45-65 | a push and a pop at the same end return the pushed element and restore the count |
| EmblibDeque.FillExample | test/deque/main_test_deque.cpp:92-99 | after `size` pushes the deque is full |
| EmblibList.ShiftedUp | src/emblib_list.c:17-21 | moving the block at `index` up one slot and writing `x` there inserts `x` at `index` |
| EmblibList.ShiftedDown | src/emblib_list.c:39-41 | moving the block after `index` down one slot removes the element at `index` |
| EmblibList.MemMove | src/emblib_list.c:18 | the array becomes the `memmove` of `n` slots from `src` to `dest` |
| EmblibList.ShiftIn | src/emblib_list.c:17-21 | the first `count+1` slots become `s[..index] + [x] + s[index..]`; the rest is unchanged |
| EmblibList.ShiftOut | src/emblib_list.c:39-41 | the first `count-1` slots become `s[..index] + s[index+1..]`; the rest is unchanged |
| EmblibList.List.Init | src/emblib_list.c:4-6 | succeeds iff the ring buffer's init would; then the list is empty |
| EmblibList.List.Size | src/emblib_list.c:66-68 | the number of slots, `capacity / elem_size` |
| EmblibList.List.Count | src/emblib_list.c:70-72 | the number of stored elements, at most `Size()` |
| EmblibList.List.IsEmpty | src/emblib_list.c:58-60 | true iff the contents are empty |
| EmblibList.List.IsFull | src/emblib_list.c:62-64 | true iff every slot is used |
| EmblibList.List.Insert | src/emblib_list.c:8-25 | fails and changes nothing iff full or `index > count`. Otherwise the contents become `s[..index] + [x] + s[index..]`, `tail` steps, `count` increments and `head` is unchanged |
| EmblibList.List.Remove | src/emblib_list.c:27-46 | fails and changes nothing iff `index >= count`. Otherwise it returns `s[index]`, the contents become `s[..index] + s[index+1..]`, `tail` steps back and `count` decrements |
| EmblibList.List.Get | src/emblib_list.c:48-56 | fails iff `index >= count`; otherwise returns `s[index]`, the slot `(head+index) % size`, and changes nothing |
| EmblibList.List.Flush | src/emblib_list.h:29 | empties the list: `head = tail = count = 0` |
| EmblibList.InsertRemoveExample | test/list/main_test_list.cpp:62-80 | after inserting 1..5 and removing at index 2, the element returned is 3 and the list holds 1, 2, 4, 5 |
| EmblibList.InsertAll | test/list/main_test_list.cpp:36-49 | inserting at the end, one element at a time, stores them in order |
| EmblibList.ReadAll | src/emblib_list.c:48-56 | getting indices `0..count-1` reads the contents in order |
| EmblibList.FillExample | test/list/main_test_list.cpp:91-97 | `n` inserts into an `n`-slot list make it full with count `n` |
| EmblibSet.WithoutNoDuplicates | src/emblib_set.c:15-24 | removing one position keeps a duplicate-free sequence duplicate-free and drops the removed value entirely |
| EmblibSet.AppendNoDuplicates | src/emblib_set.c:8-13 | appending an absent value keeps the sequence duplicate-free |
| EmblibSet.AddThenRemove | src/emblib_set.c:8-24 | adding an absent value and then removing it restores the set |
| EmblibSet.FirstIndexUnique | src/emblib_set.c:15-24 | the first matching index found by the scan is the unique first occurrence |
| EmblibSet.Init | src/emblib_set.c:4-6 | succeeds iff the list's init would; the new set is empty and so duplicate-free |
| EmblibSet.Contains | src/emblib_set.c:26-35 | true iff some stored element equals `x` |
| EmblibSet.Add | src/emblib_set.c:8-13 | fails and changes nothing iff `x` is present or the set is full. Otherwise `x` is appended at position `count`; the set stays duplicate-free |
| EmblibSet.Remove | src/emblib_set.c:15-24 | fails and changes nothing iff `x` is absent. Otherwise the first equal element is deleted and the others keep their order; in a duplicate-free set `x` is then absent |
| EmblibSet.Size | src/emblib_set.c:37-39 | the underlying list's slot count |
| EmblibSet.Count | src/emblib_set.c:45-47 | the underlying list's element count |
| EmblibSet.Flush | src/emblib_set.c:41-43 | `count` becomes 0 and no value is contained |
| EmblibSet.AddRemoveExample | test/set/main_test_set.cpp:43-72 | adding twice fails the second time; removing succeeds once and the value is then absent |
| EmblibSet.CountFlushExample | test/set/main_test_set.cpp:74-89 | two adds give count 2; after flush the count is 0 and nothing is contained |
| ByteRing.ChunksWrite | src/list.c:64 | copying `size_elem` bytes to chunk `j` replaces exactly that chunk |
| ByteRing.ElementsAppend | src/circ_buffer.c:99-102 | writing the chunk after the last stored one appends it to the contents |
| ByteRing.ElementsPop | src/circ_buffer.c:156-160 | the first element is the chunk at `tail`; stepping `tail` one chunk drops it |
| ByteRing.ElementsDrop | src/list.c:93-95 | stepping `tail` by `m` chunks drops the first `m` elements |
| ByteRing.ElementsAt | src/list.c:92 | element `i` is the chunk at slot `(start+i) % n` |
| ByteRing.ChunkAdvance | src/list.c:93-94 | advancing a chunk-aligned byte offset by `m` chunks modulo the byte size lands on chunk `(i+m) % n` |
| ByteRing.CountDistance | src/circ_buffer.c:62-68 | both branches of the count formula give the number of chunks from `tail` forward to `head`; it is 0 iff `head == tail` |
| ByteRing.FlattenLength | src/list.c:90 | `k` elements of `size_elem` bytes flatten to `k*size_elem` bytes |
| ByteRing.MemCpy | src/list.c:64 | the destination becomes the source bytes written at the offset; all other bytes are unchanged |
| LegacyCircBuffer.CircBuffer.Init | src/circ_buffer.c:14-37 | fails only for a null descriptor. It stores the array and sizes with `head = tail = 0` and `isfull = false`; the buffer is usable iff the sizes describe whole elements in the array, and it is then empty |
| LegacyCircBuffer.CircBuffer.Size | src/circ_buffer.c:41-51 | `size / size_elem` element slots; `head` and `tail` index slots below it |
| LegacyCircBuffer.CircBuffer.Count | src/circ_buffer.c:55-75 | the count formula: `Size()` when `isfull`, otherwise the distance in chunks from `tail` to `head`; 0 iff not full and `head == tail` |
| LegacyCircBuffer.CircBuffer.Insert | src/circ_buffer.c:79-108 | fails and changes nothing for null data or a full buffer. Otherwise it writes at byte `head`, appends to the contents, steps `head` by `size_elem` mod `size` and sets `isfull` iff `head` meets `tail` |
| LegacyCircBuffer.CircBuffer.InsertOverwrite | src/circ_buffer.c:112-138 | as written: clears `isfull` first and never sets it. On a full buffer the count becomes 1 and only the new element is left; filling the last free slot leaves a count of 0 |
| LegacyCircBuffer.CircBuffer.Put | src/circ_buffer.c:89-104 | the write and pointer step shared by the inserts |
| LegacyCircBuffer.CircBuffer.Retrieve | src/circ_buffer.c:142-168 | as written: always returns 1, copies the chunk at `tail` when data is given, steps `tail` and clears `isfull`; on an empty buffer the count becomes `Size()-1` |
| LegacyCircBuffer.CircBuffer.CopyOut | src/circ_buffer.c:154-157 | copies the chunk at `tail`, which is the first element when the buffer is not empty |
| LegacyCircBuffer.CircBuffer.AdvanceTail | src/circ_buffer.c:159-162 | steps `tail` one chunk and clears `isfull`; a non-empty buffer loses its first element |
| LegacyCircBuffer.PopContents | src/circ_buffer.c:159-162 | stepping `tail` one chunk with one element fewer drops the first element |
| LegacyCircBuffer.CircBuffer.IsEmpty | src/circ_buffer.c:172-182 | true iff not full and `head == tail`, that is, the count is 0 |
| LegacyCircBuffer.CircBuffer.IsFull | src/circ_buffer.c:186-196 | the `isfull` flag, which is set iff the count is `Size()` |
| LegacyCircBuffer.CircBuffer.WillFull | src/circ_buffer.c:200-213 | true iff `count*size_elem + n > size`, counted in bytes |
| LegacyCircBuffer.CircBuffer.Flush | src/circ_buffer.c:217-231 | returns true and leaves `head = tail = 0`, `isfull = false` and an empty buffer |
| LegacyCircBuffer.CircBuffer.InsertOverwriteFixed | src/circ_buffer.c:112-138 | corrected: on a full buffer the oldest element is replaced and the count stays `Size()`; otherwise the element is appended |
| LegacyCircBuffer.CircBuffer.RetrieveChecked | src/circ_buffer.c:142-168 | corrected: returns 0 and changes nothing on an empty buffer; otherwise returns 1 and pops the first element into data |
| LegacyCircBuffer.OverwriteLosesData | src/circ_buffer.c:122 | two slots holding 1 and 2; overwriting with 3 leaves a count of 1 and only 3 |
| LegacyCircBuffer.OverwriteKeepsNewest | src/circ_buffer.c:112-138 | with the correction the same steps keep a count of 2, and 2 is the oldest |
| LegacyCircBuffer.RetrieveFromEmpty | src/circ_buffer.c:148-164 | retrieving from an empty 4-slot buffer returns 1 and leaves a count of 3 |
| LegacyCircBuffer.RetrieveCheckedFromEmpty | src/circ_buffer.c:142-168 | with the correction it returns 0 and the count stays 0 |
| LegacyCircBuffer.FifoExample | src/circ_buffer.c:79-168 | two inserts and two retrieves give the elements back in order and leave the buffer empty |
| LegacyList.List.Init | src/list.c:12-27 | fails only for a null descriptor. It stores the sizes, keeping the low 8 bits of `size_elem` because the field is `uint8_t`, and zeroes `head`, `tail` and `items`. The list is usable iff the sizes describe whole elements in the array, and it is then empty |
| LegacyList.List.ByteSize | src/list.c:31-39 | the size in bytes, `Slots() * size_elem` |
| LegacyList.List.Count | src/list.c:43-51 | `items`, the number of stored elements, at most `Slots()` |
| LegacyList.List.Insert | src/list.c:55-73 | fails and changes nothing for null data or when `items >= size/size_elem`. Otherwise it writes at byte `head`, appends to the contents, steps `head` by `size_elem` mod `size` and increments `items` |
| LegacyList.List.Put | src/list.c:64-67 | the write and the pointer step of an insert |
| LegacyList.List.Take | src/list.c:83-88 | the number to read is `min(nelem, items)` |
| LegacyList.List.Retrieve | src/list.c:77-101 | corrected (two copies when the span wraps). Returns 0 and changes nothing for null data, `nelem == 0` or an empty list. Otherwise it returns `min(nelem, items)`, copies those first elements to `data` in order, steps `tail` by as many bytes mod `size` and decrements `items` |
| LegacyList.List.CopyOut | src/list.c:92 | the copy of the first `m` elements to `data`, at most two `memcpy` calls |
| LegacyList.List.AdvanceBy | src/list.c:93-95 | steps `tail` by `m` chunks mod `size` and drops the first `m` elements |
| LegacyList.CopyElements | src/list.c:92 | the bytes copied out are the flattened first `m` elements of the ring |
| LegacyList.CopyTwo | src/list.c:92 | two `memcpy` calls, from `off` to the end of the buffer and then from the start |
| LegacyList.TwoCopies | src/list.c:90-92 | the first `m` elements flattened are the bytes from `off` to the end of the buffer followed by the rest from the start |
| LegacyList.SingleCopy | src/list.c:90-92 | the single copy of the source stays inside the buffer iff the elements do not wrap, and then reads them in order |
| LegacyList.List.CopyEndAsWritten | src/list.c:90-92 | as written, the one `memcpy` ends past the buffer iff the elements to read wrap around; when it does not, it reads exactly them |
| LegacyList.List.Empty | src/list.c:105-114 | as written, `tail == head`, which holds iff the list is empty or full |
| LegacyList.List.EmptyFixed | src/list.c:105-114 | corrected: true iff the contents are empty |
| LegacyList.List.Full | src/list.c:118-126 | as written, `items == size` compares a count with bytes: true iff elements are one byte and every slot is used |
| LegacyList.List.FullFixed | src/list.c:118-126 | corrected: true iff every slot is used; a full list also has `tail == head` |
| LegacyList.List.WillFull | src/list.c:130-140 | for `n >= 0`, true iff `n` bytes reach the free room, a non-strict test; a negative `int` sum converted to `size_t` reports full |
| LegacyList.List.Flush | src/list.c:144-155 | returns true with `items = tail = head = 0` and an empty list |
| LegacyList.Wrapped | src/list.c:55-101 | a 2-byte list of 1-byte elements: insert 1 and 2, retrieve one, insert 3; it holds 2 then 3 with `tail` at byte 1 |
| LegacyList.RetrieveOverrunsBuffer | src/list.c:92 | on that list the single copy of two elements ends at byte 3 of a 2-byte buffer |
| LegacyList.RetrieveWrapsInOrder | src/list.c:77-101 | with the correction the same retrieve returns 2 elements, 2 then 3, and empties the list |
| LegacyList.FullReadsEmpty | src/list.c:110 | a list with both slots taken: `list_empty` as written says empty, the corrected test does not |
| LegacyList.WideFullNotReported | src/list.c:123 | a full list of one 2-byte element: `list_full` as written says not full, the corrected test says full |
| LegacyStack.EmptyStack | src/list.c:20-22 | a freshly initialised list, with `items` and `tail` at 0, is an empty stack |
| LegacyStack.Push | src/stack.c:25-45 | fails and changes nothing for null data or when `items >= size/size_elem`. Otherwise it writes at byte `tail`, pushes the element on top, moves `tail` up one element with no wrap and increments `items`; `tail == items*size_elem` is kept |
| LegacyStack.Pop | src/stack.c:49-68 | fails and changes nothing for null data, even on a non-empty stack, or an empty stack. Otherwise `tail` moves down one element, `items` decrements and the top element is copied out |
| LegacyStack.Peek | src/stack.c:72-88 | fails for null data or an empty stack; otherwise copies out the top element, the one just below `tail`, and changes nothing else |
| LegacyStack.PushPop | src/stack.c:25-68 | a push then a pop returns the pushed element and restores `tail`, `items` and the contents |
| LegacyStack.TopWritten | src/stack.c:36 | writing chunk `items` puts the element on top of the ones below |
| LegacyStack.LifoExample | test/main.c:64-83 | two slots: 10 and 20 go in, a third push fails, the pops give 20 then 10, and a pop from the empty stack fails |
| LegacyStack.PopWithoutBuffer | src/stack.c:53 | a pop without a data buffer fails on a stack holding one element, which stays |

## Left out

- Concurrency: examples/atomic_implementation.c, examples/thread_safe_implementation.c,
  examples/thread_safe_version.h and src/emblib_thread_safety.h are about interleavings,
  atomics and locks. Under the lock, their critical sections are the transitions modelled in
  `EmblibCircBuffer`.
- src/emblib_stack.c and src/emblib_queue.c read fields that have no counterpart in
  `emblib_circ_buffer_t` (`isfull`, `items`, `size`). Their behaviour is not defined, and the
  rest of them delegates to the ring buffer. Their `size_elem` alone would be read as the
  element size, as below.
- src/queue.c, and `stack_init`, `stack_size`, `stack_count`, `stack_is_full`,
  `stack_is_empty`, `stack_flush` and `stack_will_full` in src/stack.c, cast a `list_t*` to
  `circ_buffer_t*`. The two structs have different layouts, so what those calls do is not
  defined. The stack model starts from a list set up by `LegacyList.List.Init` (see
  `LegacyStack.EmptyStack`).
- Headers are declarations only. Several disagree with the `.c` signatures: for example,
  `emblib_circ_buffer_init` is declared with four parameters but defined with six, and
  src/emblib_deque.c:6, src/emblib_list.c:5 and src/emblib_set.c:5 call it with four
  arguments, which leaves `copy_fn` and `free_fn` undefined in C. Deque init is
  `CircBuffer.Init`, which takes whether each function is given as a flag. List and set init
  assume a copy function is given and no free function.
- src/emblib_deque.c, src/emblib_list.c and src/emblib_stack.c read a field `size_elem`, and
  src/emblib_set.c reads `set->elem_size`. Neither `emblib_circ_buffer_t` nor `emblib_set_t`
  has that field. The model reads every spelling as the ring buffer's single element-size field,
  and passes the set's embedded list for the set's own descriptor. The string builder's
  `sb_append_char_array_at`, `sb_append_int` and `sb_append_byte` have no body.
- `emblib_list_flush` is declared (src/emblib_list.h:29) but never defined. `EmblibList.List.Flush`
  and `EmblibSet.Flush` model it as a reset of `head`, `tail` and `count`.
- `copy_fn` and `free_fn` are calls into code outside the library. A copy is value
  assignment, and a call to `free_fn` is an entry in the ghost log `freed`.
- Byte equality: the set compares elements with `memcmp` over `elem_size` bytes. The model
  compares values of `T` with `==`, which is that equality when `T` is the element's bytes.
  `cmp_fn` is never consulted.
- Null descriptors: every operation other than an init is called on an existing object. The
  branches that return `0` or `false` for a null descriptor are not modelled. In the
  legacy generation, null data pointers are modelled. In the current generation, only the
  inserts check for null `data` (`None`); elsewhere a null `data` is undefined behaviour of
  `copy_fn` or `memcpy`, and the model always returns the element.
- The `assert` calls in src/circ_buffer.c are treated as compiled out, since the code after
  them handles the same cases itself.
- Buffers too small for the copies the C code makes are excluded by `requires` (a data buffer
  shorter than one element, or overlapping the container's array). In C these are undefined
  behaviour of `memcpy`.
- A legacy ring buffer or list initialised with sizes that are not whole elements (for example
  a zero element size, which divides by zero in C) is not usable. Operations require `Valid()`,
  and `Init` states exactly when it holds.
- EmblibList.List.Insert: the list is modelled only with `head == 0`, which every list
  operation keeps. A list whose `head` was moved by deque calls on the same struct would make
  the `memmove` ranges wrap, and that is not modelled.
- EmblibCircBuffer.CircBuffer.WillFull: C computes `count + size` in `size_t`, which wraps
  around; for an `n` that makes the sum wrap, C answers false. The model's unbounded sum
  answers true, and that wrap is not modelled.
- LegacyCircBuffer.CircBuffer.WillFull: C computes `count*size_elem + size` in `size_t`, which
  wraps around; for an `n` that makes the sum wrap, C answers false. The model's unbounded sum
  answers true, and that wrap is not modelled.
- LegacyList.List.WillFull: `items*size_elem` is computed in C `int`; its overflow is not
  modelled. The conversion of a negative sum to `size_t` is modelled.
- `list_t` keeps `items`, `head` and `tail` in `int`; the model takes them as unbounded
  naturals. The values stay below `size` for a usable list.
- `MAKEDWORD` shifts a `uint16_t` promoted to `int` by 16. The model computes the intended
  value `hi*65536 + lo`; the signed overflow for `hi >= 0x8000` is not modelled.
- The `items` field of `circ_buffer_t` is never read or written by src/circ_buffer.c.
- src/list.h declares `list_is_empty` and `list_is_full`, but src/list.c defines `list_empty`
  and `list_full`. The model follows the definitions.
- main.c, test/main.c and the unit tests are not modelled; some of their asserted values
  appear as example methods.

## Findings

| source | as written | input that shows it | evidently intended | confidence | as-written member | corrected member |
|---|---|---|---|---|---|---|
| src/circ_buffer.c:112-138 | `insert_overwrite` clears `isfull` before counting. A full buffer then counts as empty, the new element is written at `head` and the count becomes 1. `isfull` is never set, so filling the last slot makes the count 0 | 2 one-byte slots holding 1, 2; overwrite with 3: count 1, contents [3] | replace the oldest element and keep the count at the capacity | not executed; high | LegacyCircBuffer.CircBuffer.InsertOverwrite, LegacyCircBuffer.OverwriteLosesData | LegacyCircBuffer.CircBuffer.InsertOverwriteFixed, LegacyCircBuffer.OverwriteKeepsNewest |
| src/circ_buffer.c:142-168 | `retrieve` has no emptiness check; on an empty buffer it returns 1 and steps `tail`, so the count becomes `size-1` | empty 4-slot buffer; retrieve: returns 1, count 3 | return 0 and change nothing when empty | not executed; high | LegacyCircBuffer.CircBuffer.Retrieve, LegacyCircBuffer.RetrieveFromEmpty | LegacyCircBuffer.CircBuffer.RetrieveChecked, LegacyCircBuffer.RetrieveCheckedFromEmpty |
| src/list.c:90-92 | `list_retrieve` copies all requested bytes with one `memcpy` from `tail`, reading past the end of the array when the elements wrap around | 2-byte list, 1-byte elements: insert 1, 2; retrieve 1; insert 3; retrieve 2 reads bytes 1..3 | copy the wrapped elements in order, in two parts | not executed; high | LegacyList.List.CopyEndAsWritten, LegacyList.RetrieveOverrunsBuffer | LegacyList.List.Retrieve, LegacyList.RetrieveWrapsInOrder |
| src/list.c:105-114 | `list_empty` is `tail == head`, which is also true when the list is full | 2-slot list after inserting 1 and 2: `list_empty` is true | true only when `items == 0` | not executed; high | LegacyList.List.Empty, LegacyList.FullReadsEmpty | LegacyList.List.EmptyFixed |
| src/list.c:118-126 | `list_full` compares `items` with `size`, a byte count, so it is never true for elements wider than one byte | 2-byte list, 2-byte elements, one insert: `list_full` is false | compare `items` with `size / size_elem` | not executed; high | LegacyList.List.Full, LegacyList.WideFullNotReported | LegacyList.List.FullFixed |
