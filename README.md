# Byte ring buffer for microcontrollers, in Dafny

This project models `RBUF_t`, the byte ring buffer of `ring_buffer.c`, and proves
what its operations do to the queued bytes.

## What the ring buffer is

An `RBUF_t` is a set of fields over storage that the caller supplies:

- `data`: the storage, a byte array;
- `size`: the number of cells in the array;
- `write_index`: the cursor new bytes are stored at;
- `read_index`: the cursor bytes are taken from.

`data` is a `uint8_t *`; `size`, `write_index` and `read_index` are `RBUF_size_t`,
which is `uint16_t`. One cell always stays free:

- the buffer is empty when `write_index == read_index`;
- it is full when `write_index + 1 == read_index` modulo `size`.

So a buffer of `size` cells holds at most `size - 1` bytes.

Bytes go in through `RBUF_WriteUint8`, `RBUF_WriteUint16` and `RBUF_WriteUint32`.
The 16- and 32-bit writes put the most significant byte first, and write only if
the whole value fits. Bytes also go in through `RBUF_WriteString` and through
`RBUF_WriteCopy`, which takes them from a linear buffer `BUF_t`.

Bytes come out through `RBUF_ReadUint8`, and into a linear buffer through:

- `RBUF_ReadCopyBlock`, all or nothing;
- `RBUF_ReadCopyRaw`, as much as fits.

A bulk copy that crosses the end of the array is split in two: a tail copy up to the
last cell, then a head copy from cell 0.

## How it is modelled

| file | module | contents |
|---|---|---|
| `sizes.dfy` | `Sizes` | `uint8`/`uint16`/`uint32`; the big-endian bytes of a 16- and a 32-bit value |
| `memory.dfy` | `Memory` | the address-range overlap test; `Splice`, the array after a `memcpy`; a `Memcpy` method |
| `layout.dfy` | `Layout` | `Window`, the `n` bytes in ring order from a cursor; `RingWrite`, the array after a wrapping write; lemmas connecting the split copies to both |
| `accounting.dfy` | `Accounting` | the `Cursors` value (size and both cursors), the capacity queries, the rollover tests and the cursor updates |
| `linear_buffer.dfy` | `Linear` | the fields of `BUF_t` that the transfers touch |
| `ring_buffer.dfy` | `Ring` | class `RingBuffer` with the operations that change it |
| `scenarios.dfy` | `Scenarios` | the scenarios of the unit tests, replayed through the class |

The class keeps the C field names, in Dafny style:

- `data` is an `array<uint8>`;
- `dataAddr` is the address of that array, with 0 standing for a NULL pointer;
- `size`, `writeIndex` and `readIndex` are `uint16`.

The ghost function `Contents()` is the queue, oldest byte first. It is
`Window(data[..], size, readIndex, UsedSize(View()))`.

Every operation states its new state. The transfers also state what happens to the
queue:

- the bulk writes append to `Contents()`;
- the reads remove a prefix of it, and that prefix is appended to the unread bytes of
  the destination.

The single-byte and multi-byte writes state the cells and cursor they leave.
`StoreAppendsToQueue`, `WriteAppendsToQueue` and `WriteThenReadRoundTrip` turn those
into queue statements.

Each memcpy of the source becomes a call to `Memcpy`:

- the write path goes through `CopyToRing`;
- the read path goes through `CopyFromRing`.

The contiguous and split branches of those two methods are proved equal to
`RingWrite` and `Window`.

## Model

| member | source | states |
|---|---|---|
| `Sizes.Uint16Bytes` | source/ring_buffer.c:137-138 | the two bytes written for a 16-bit value, read back most-significant first, give the value |
| `Sizes.Uint32Bytes` | source/ring_buffer.c:153-156 | the four bytes written for a 32-bit value, read back most-significant first, give the value |
| `Memory.Overlapping` | source/ring_buffer.c:341-356 | a NULL pointer or an empty length never overlaps |
| `Memory.OverlappingIffSharedAddress` | source/ring_buffer.c:352-353 | the two start-point comparisons hold exactly when the two regions share an address; the test is symmetric |
| `Memory.Memcpy` | source/ring_buffer.c:173 | the destination array afterwards is the old one with the copied cells replaced and every other cell kept |
| `Memory.SpliceAdjacent` | source/ring_buffer.c:262-265 | two back-to-back copies equal one copy of the concatenation |
| `Layout.Wrap` | source/ring_buffer.c:124 | a position less than one lap past the end folds back to a cell index |
| `Layout.WrapIsModulo` | source/ring_buffer.c:236 | folding back one lap is the `% size` of the source |
| `Layout.RingWriteOne` | source/ring_buffer.c:117-124 | a one-byte ring write stores at the cursor and changes no other cell |
| `Layout.WindowFirst` | source/ring_buffer.c:235 | the first queued byte is the one in the cell under the read cursor |
| `Layout.WriteExtendsWindow` | source/ring_buffer.c:165-189 | writing bytes after the queue extends the queue by exactly them; no queued byte is overwritten |
| `Layout.ReadShrinksWindow` | source/ring_buffer.c:241-273 | advancing the read cursor by `n` leaves the queue without its first `n` bytes |
| `Layout.WriteThenReadRoundTrip` | source/ring_buffer.c:165-189 | reading back what was written from a cursor returns it, wherever it wrapped |
| `Layout.ContiguousWrite` | source/ring_buffer.c:171-175 | the one-copy branch of a write is the ring write |
| `Layout.TailHeadWrite` | source/ring_buffer.c:176-185 | the tail copy of `size - w` bytes followed by the head copy from cell 0 is the ring write |
| `Layout.RingWriteAppend` | source/ring_buffer.c:153-156 | writing `s` and then `t` from where `s` ended is writing `s + t` |
| `Layout.ContiguousRead` | source/ring_buffer.c:251-256 | the one-copy branch of a read copies the queue's first `n` bytes |
| `Layout.TailHeadRead` | source/ring_buffer.c:257-268 | the tail copy from the read cursor followed by the head copy from cell 0 copies the queue's first `n` bytes |
| `Accounting.UsedSize` | source/ring_buffer.c:80-96 | the used count is 0 on a zero-size buffer and below `size` otherwise |
| `Accounting.UsedSizeIsDistance` | include/ring_buffer/ring_buffer.h:59-65 | the used count is `write - read` modulo `size`, and the write cursor lies that many cells past the read cursor |
| `Accounting.FreeSize` | source/ring_buffer.c:61-78 | used plus free is `size - 1`, because one cell is reserved |
| `Accounting.FreeSizeAsWritten` | source/ring_buffer.c:61-78 | the unguarded free size agrees with `FreeSize` when `size > 0` and is 65535 when `size == 0` |
| `Accounting.IsEmpty` | source/ring_buffer.c:36-48 | empty exactly when no byte is queued |
| `Accounting.IsFull` | source/ring_buffer.c:50-59 | full exactly when `size > 0` and no cell is free |
| `Accounting.EmptyAndFullExclusive` | source/ring_buffer.c:7-10 | empty and full are reported together only by a one-cell buffer |
| `Accounting.GetWriteIndex` | source/ring_buffer.c:98-107 | the write cursor is the used count past the read cursor, modulo `size` |
| `Accounting.Min` | source/ring_buffer.c:310-313 | the result is one of the arguments and no greater than either |
| `Accounting.WillWriteRollover` | source/ring_buffer.c:315-323 | an n-byte write rolls over exactly when the cursor it advances to lies past the last cell and must fold back to the start |
| `Accounting.WillReadRolloverAsWritten` | source/ring_buffer.c:331-339 | the read test as written: for a read not ending at the last cell, it rolls over exactly when the advanced cursor must fold back; a read ending exactly at the last cell (`read + n == size`, line 336) does not count as a rollover |
| `Accounting.WillReadRollover` | source/ring_buffer.c:331-339 | the corrected read test (`>=`, as at line 320): rolls over exactly when the advanced cursor must fold back, the last-cell case included |
| `Accounting.RolloverMeansReduction` | source/ring_buffer.c:315-339 | a write, and a read with the corrected test, rolls over exactly when `cursor + n` needs reducing modulo `size`; the read test as written misses `cursor + n == size` |
| `Accounting.WriteCursorAfter` | source/ring_buffer.c:171-185 | the write cursor after an n-byte write is `(w + n) % size`; it stays a valid index; the used count grows by `n` |
| `Accounting.ReadCursorAfter` | source/ring_buffer.c:251-268 | the read cursor after an n-byte read, with the corrected test, is `(r + n) % size`; it stays a valid index; the used count shrinks by `n` |
| `Accounting.ReadCursorAfterAsWritten` | source/ring_buffer.c:251-268 | as written, the read cursor is `size` when the read ends at the last cell, and the corrected cursor otherwise |
| `Accounting.ReadCursorEscapesArray` | source/ring_buffer.c:336 | with five cells, cursors read 3 and write 0, a 2-byte block read leaves the read cursor at 5, outside the array |
| `Accounting.ZeroSizeAdmitsWrite` | source/ring_buffer.c:75 | on a zero-size buffer the unguarded free size admits a one-byte write into an array with no cells |
| `Ring.WriteAppendsToQueue` | source/ring_buffer.c:165-189 | a ring write of bytes that fit, with the advanced write cursor, appends them to the queue |
| `Ring.StoreAppendsToQueue` | source/ring_buffer.c:109-129 | storing a byte at the write cursor and advancing it appends that byte to the queue |
| `Ring.ReadSplitsQueue` | source/ring_buffer.c:241-306 | the `n` bytes from the read cursor are the first `n` of the queue; the advanced read cursor leaves the rest |
| `Ring.TwoByteWrites` | source/ring_buffer.c:137-138 | two single-byte writes in a row are one ring write of both bytes, and the cursor moves two cells |
| `Ring.FourByteWrites` | source/ring_buffer.c:153-156 | four single-byte writes in a row are one ring write of all four bytes, and the cursor moves four cells |
| `Ring.SpliceAppends` | source/ring_buffer.c:253-255 | copying bytes to a linear buffer's write cursor appends them to its unread bytes |
| `Ring.CopyToRing` | source/ring_buffer.c:171-185 | the one or two memcpy calls of a bulk write leave the ring array equal to the ring write |
| `Ring.CopyFromRing` | source/ring_buffer.c:251-268 | the one or two memcpy calls of a bulk read put the queue's first `n` bytes at the destination |
| `Ring.RingBuffer.InitEmpty` | source/ring_buffer.c:25-34 | binds storage and size, sets both cursors to 0; the queue is empty |
| `Ring.RingBuffer.WriteUint8` | source/ring_buffer.c:109-129 | writes exactly when a cell is free and the storage is not NULL; the byte lands at the old write cursor, which advances modulo `size`; otherwise nothing changes |
| `Ring.RingBuffer.WriteUint16` | source/ring_buffer.c:131-145 | writes exactly when two cells are free and the storage is not NULL; the cells become the ring write of the high byte then the low byte, and the cursor advances two cells; otherwise nothing changes |
| `Ring.RingBuffer.WriteUint32` | source/ring_buffer.c:147-163 | writes exactly when four cells are free and the storage is not NULL; the cells become the ring write of the four bytes, most significant first, and the cursor advances four cells; otherwise nothing changes |
| `Ring.RingBuffer.CopyIn` | source/ring_buffer.c:171-185 | the bulk write appends the bytes to the queue and advances the write cursor by their count modulo `size` |
| `Ring.RingBuffer.WriteString` | source/ring_buffer.c:165-189 | writes exactly when the bytes fit, neither pointer is NULL and the regions do not overlap; then appends the bytes to the queue; otherwise nothing changes |
| `Ring.RingBuffer.CopyInFrom` | source/ring_buffer.c:201-223 | the first `n` unread bytes of the linear buffer are appended to the queue and leave the linear buffer's unread bytes |
| `Ring.RingBuffer.WriteCopy` | source/ring_buffer.c:191-227 | copies exactly when the whole unread count of the source fits, `n` does not exceed it, no pointer is NULL and there is no overlap; then moves the first `n` unread bytes into the queue; otherwise nothing changes |
| `Ring.RingBuffer.ReadUint8` | source/ring_buffer.c:229-239 | on a non-empty buffer with storage, returns the oldest byte, removes it from the queue and advances the read cursor modulo `size`; otherwise returns 0 and changes nothing |
| `Ring.RingBuffer.CopyOut` | source/ring_buffer.c:251-268 | the `n` oldest bytes leave the queue and are appended to the destination's unread bytes |
| `Ring.RingBuffer.ReadCopyBlock` | source/ring_buffer.c:241-273 | reads exactly when no storage is NULL, `n` bytes are queued and the whole queue fits at the destination; then moves the `n` oldest bytes; otherwise nothing changes |
| `Ring.RingBuffer.ReadCopyRaw` | source/ring_buffer.c:275-306 | moves and returns the least of the queued count, the destination's free cells and `n`, or 0 when a storage is NULL or the regions overlap over `n` bytes; those bytes leave the queue in order |
| `Scenarios.WriteWithRollover` | test/unit_test/suites/ut_rbuf_write_uint8.cpp:57-80 | after `00 01` in and out and `02 03 04 05` in on five cells, the write cursor is 1, the read cursor 2, 4 bytes are queued, and the cells are `05 01 02 03 04` |
| `Scenarios.WriteOnFull` | test/unit_test/suites/ut_rbuf_write_uint8.cpp:85-103 | on five cells four writes succeed and the fifth is refused, with cells and cursors unchanged |
| `Scenarios.FillToFull` | test/unit_test/suites/ut_rbuf_is_full.cpp:39-47 | five writes on six cells leave no free cell and the buffer full |
| `Scenarios.ReadInOrder` | test/unit_test/suites/ut_rbuf_read_uint8.cpp:30-63 | an empty read gives 0; after four writes, two reads return the first two bytes in order |
| `Scenarios.ReadWithRollover` | test/unit_test/suites/ut_rbuf_read_uint8.cpp:64-77 | reads return the bytes in order across the wrap of both cursors, ending with the read cursor at 1 |
| `Scenarios.WriteStringWithRollover` | test/unit_test/suites/ut_rbuf_write_string.cpp:45-57 | "Hello" written from cell 8 of ten leaves `llo` in cells 0-2 and `He` in cells 8-9, and is the queue |
| `Scenarios.WriteStringEdgeCases` | test/unit_test/suites/ut_rbuf_write_string.cpp:62-73 | a NULL source is refused; an empty string is accepted and changes no cell |
| `Scenarios.WriteCopyWithRollover` | test/unit_test/suites/ut_rbuf_write_copy.cpp:61-94 | four bytes copied in from cell 2 of five wrap the write cursor to 1, with the last byte in cell 0 |
| `Scenarios.ReadBlockFromEmpty` | test/unit_test/suites/ut_rbuf_read_copy_block.cpp:56-65 | a block read from an empty ring is refused and the read cursor stays at 0 |
| `Scenarios.ReadCopyRawWithRollover` | test/unit_test/suites/ut_rbuf_read_copy_raw.cpp:53-66 | a raw read of six bytes from cell 6 of ten returns 6, copies `66 77 88 99 00 11`, and leaves the read cursor at 2 |
| `Scenarios.CopyBlocks` | test/unit_test/suites/ut_rbuf_read_copy_block.cpp:113-129 | `AA 01` copied in and copied out as a block on five cells arrive in order, and both cursors end at 2 |
| `Scenarios.ReadBlockWithRollover` | test/unit_test/suites/ut_rbuf_read_copy_block.cpp:131-145 | continuing from `CopyBlocks`, `02 03 04 05` copied in wrap the write cursor, and a block read of four returns them in order across the end of the array, leaving the read cursor at 1 |

## Left out

- NULL `RBUF_t *` and `BUF_t *` arguments are not modelled: the class methods take non-null references. In the source every such branch only returns false, 0 or nothing and changes no state (ring_buffer.c lines 27, 40, 54, 65, 84, 102, 113, 169, 199, 233, 247, 283). `RBUF_WriteCopy` calls `BUF_GetToReadCount` on its source before its NULL test (line 195), and what that does with NULL is not part of this model. NULL storage pointers are modelled through address 0.
- `BUF_t` is not part of this model beyond the fields the transfers touch: storage, address, capacity, read and write cursor.
  - Its queries are assumed to be `write - read` (unread count) and `capacity - write` (free size).
  - `BUF_size_t` is taken to be `uint16_t`.
- Real pointer aliasing is not captured. Addresses are plain integers used only by the overlap test. The ring's array and a linear buffer's array are required to be distinct Dafny arrays.
  - As a result, the missing overlap check of `RBUF_ReadCopyBlock` has no observable effect in the model.
- Ring.RingBuffer.WriteUint8: states the cell written and the new cursor, not the queue. `Ring.StoreAppendsToQueue` turns that into "the byte is appended". The queue form is kept out of the contract so that the proofs of its callers stay small.
- Ring.RingBuffer.WriteUint16: states the ring write of the two bytes and the new cursor, not the queue. `Ring.WriteAppendsToQueue` with `Sizes.Uint16Bytes` gives the append, for the same reason.
- Ring.RingBuffer.WriteUint32: as for WriteUint16, with four bytes.
- Ring.RingBuffer.WriteCopy: the source's read cursor is advanced once, by `n`, after the copy. The source advances it in two steps in the rollover branch, with the same final value.
- Ring.RingBuffer.ReadCopyBlock: the destination's write cursor is advanced once, by `n`, after the copy. The source advances it in two steps in the rollover branch, with the same final value.
- Ring.RingBuffer.ReadCopyRaw: the same single advance as ReadCopyBlock.
- Ring.RingBuffer.CopyOut: advances the read cursor with the corrected rollover test (`Accounting.ReadCursorAfter`, `(read + n) % size`). When `read + n == size`, the source takes its one-copy branch (line 254) and leaves `read_index == size`, one past the last cell. The bytes copied are the same; only the final cursor differs. The as-written cursor is `Accounting.ReadCursorAfterAsWritten` (first row of "## Findings").
- Ring.RingBuffer.ReadCopyBlock: inherits the corrected cursor from `CopyOut`. When `read + n == size`, the source leaves `read_index == size` (line 254); the model leaves 0.
- Ring.RingBuffer.ReadCopyRaw: inherits the corrected cursor from `CopyOut`. When `read + count == size`, the source leaves `read_index == size` (line 288); the model leaves 0.
- Ring.RingBuffer.WriteUint8: its guard uses the corrected `Accounting.FreeSize`, which is 0 at `size == 0`. The source's `RBUF_GetFreeSize` gives 65535 there (line 75), so with non-NULL storage the source stores into `data[0]` of a zero-cell array and returns true (lines 113-126); the model refuses and changes nothing. The as-written count is `Accounting.FreeSizeAsWritten` (second row of "## Findings").
- Ring.RingBuffer.WriteUint16: the same size-0 difference at the guard of line 135; the source stores both bytes into `data[0]` and returns true, the model refuses.
- Ring.RingBuffer.WriteUint32: the same size-0 difference at the guard of line 151; the source stores all four bytes into `data[0]` and returns true, the model refuses.
- Ring.RingBuffer.WriteString: the same size-0 difference at the guard of line 169; the source rolls over with a tail of 0 cells and sets `write_index` to `n` (lines 179-184), the model refuses.
- Ring.RingBuffer.WriteCopy: the same size-0 difference at the guard of line 197; the source rolls over with a tail of 0 cells and sets `write_index` to `n` (lines 212-219), the model refuses.
- Ring.RingBuffer.InitEmpty: is a constructor, so it binds a new `RBUF_t`; it does not re-initialise one already in use as `RBUF_InitEmpty` can. Scenarios that start from non-zero cursors assign the cursor fields after construction.
  - `WriteString_002` and `ReadCopyRaw_002` set them the same way.
  - `WriteCopyWithRollover` and the first half of `ReadWithRollover` (`WriteTwoMore`) set the cursors and cells that the earlier calls of their tests reach, instead of making those calls. `WriteTwoMore` leaves cell 1 at 0 where its test holds 0x01; that test does not inspect cell 1 afterwards.
- Ring.RingBuffer.WriteString: takes the string's length as a `uint16` count (`|s| < 65536`), as the `RBUF_size_t` parameter does.
- The test `ReadCopyRaw_001` sets `write_index` to `size`, which is not a valid cursor, so it is not replayed.
- Tests that pass NULL `RBUF_t *` or `BUF_t *` arguments (`read_copy_block_001`, `ReadCopyRaw_003`, the NULL call of `GetWriteIndex_001`) are not replayed, for the reason given in the first line above.
- The remaining tests are not replayed, because each is a prefix or a variant of a replayed scenario with other bytes:
  - `init_001`, `get_used_size_001`, `is_empty_001`, `is_full_001`, `get_free_size_001`: queries on a fresh buffer (the start of every scenario);
  - `GetWriteIndex_001`, `get_free_size_002`, `get_used_size_002`, `is_empty_002`, `write_uint8_001`, `write_uint8_002`, `read_uint8_002`: one or two writes, and at most one read, on a fresh buffer (prefixes of `ReadInOrder` and `WriteWithRollover`);
  - `get_used_size_003`: the sequence of `WriteWithRollover` with other bytes, checking only the used count, which `WriteWithRollover` also states;
  - `get_free_size_003`: `FillToFull` on the six-cell fixture;
  - `write_copy_004`: the sequence of `WriteOnFull`;
  - `WriteString_001`, `write_copy_001`, `write_copy_002`, `read_copy_block_003`, `read_copy_block_004`: one bulk write, or one bulk write and one block read, on a fresh buffer (the shape of `CopyBlocks`).

## Findings

| source | as written | input that shows it | evidently intended | confidence | as-written member | corrected member |
|---|---|---|---|---|---|---|
| source/ring_buffer.c:336 | `Rbuf_WillReadRollover` tests `read_index + size > buffer->size`. A bulk read that ends exactly at the last cell takes the no-rollover branch and sets `read_index` to `size` (:254, :288). | five cells, `read_index` 3, `write_index` 0 (two bytes queued), `RBUF_ReadCopyBlock` of 2 bytes: `read_index` becomes 5. `RBUF_GetUsedSize` is then 0 (line 92), so an immediate `RBUF_ReadUint8` returns 0 without reading. After one `RBUF_WriteUint8`, `write_index` is 1, and `RBUF_ReadUint8` reads `data[5]` (line 235) and sets `read_index` to 1 (line 236), skipping cell 0. | `>=`, as in the write test at :320, so that the cursor becomes 0 | high (not executed) | `Accounting.ReadCursorEscapesArray` (with `Accounting.ReadCursorAfterAsWritten`, `Accounting.WillReadRolloverAsWritten`) | `Accounting.ReadCursorAfter` (with `Accounting.WillReadRollover`), used by `Ring.CopyFromRing`, `Ring.RingBuffer.CopyOut` |
| source/ring_buffer.c:75 | `RBUF_GetFreeSize` subtracts the reserved cell without a guard, in `uint16_t`. On a buffer of size 0 it returns 65535. | `RBUF_InitEmpty` with size 0, then `RBUF_WriteUint8`: the guard at :113 passes, and the write stores at `data[0]` of a zero-cell array. | 0 free cells when `size == 0`, as `RBUF_IsFull` guards at :54 | medium (not executed) | `Accounting.ZeroSizeAdmitsWrite` (with `Accounting.FreeSizeAsWritten`) | `Accounting.FreeSize`, used by every guard of `Ring.RingBuffer` |
