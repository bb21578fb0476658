# SimpleDB storage kernel in Dafny

This project models four pieces of SimpleDB's storage and recovery layers and
proves properties of the model.

- **The basic buffer manager** (`Buffers`, file `buffer_mgr.dfy`) is a class over
  a fixed pool of `Buffer` frames. It keeps:
  - the block-to-buffer map;
  - the count of available (unpinned) frames;
  - the FIFO list of frame indices, which picks the replacement victim.

  `Pin`, `PinNew`, `Unpin` and `FlushAll` update these fields and the frames
  in place; the lookups (`Available`, `ContainsMapping`, `GetMapping`,
  `FindExistingBuffer`) change nothing. All of them are proved to keep the
  pool's invariant (`Valid`), which says:
  - the count equals the number of unpinned frames;
  - the FIFO list is an ordering of the frame indices;
  - the map and the frames agree.

  Each state change is stated against the pure functions `FirstUnpinned`,
  `MoveToBack` and `CountUnpinned`. The eight-frame replacement scenario of
  the project's test is proved for every run: the ninth block replaces the
  second buffer, not the third.
- **The log iterator** (`Log`, file `log_iterator.dfy`) is a class with a cursor
  (block, page, current record position) over a log file, given as a sequence
  of block pages. It steps backwards along back-pointers and forwards along
  forward pointers. Each step is stated against the spec functions
  `Back`/`BackRecord` and `Forward`/`ForwardRecord`. A log is well-formed
  (`WellFormed`) when each block's pointer pairs are chained from its header
  and every block holds at least one record; a log whose only block is still
  empty is therefore outside the traversal lemmas. For a well-formed log:
  - reading back from the end yields every record newest first;
  - reading forward from the start yields every record in log order;
  - a forward step followed by a backward step returns the same record, and
    the backward step lands where the forward step started, or at the start
    of the next block when the forward step crossed blocks.
- **The set-string log record** (`SetStringRecords`, file `set_string_record.dfy`)
  is a datatype. Its seven-value log form reads back, through the decoding
  constructor, to the same record. Its `Undo` and `Redo` pin the block, write
  the old (or new) string with LSN -1, which keeps the buffer's LSN, and unpin. The undo scenario of the
  project's test is proved: the record of the change from "Hello" to "World"
  is written to a log page, the change is made, and undoing the record read
  back from the log page restores "Hello". `Op` and `TxNumber` are the record's plain accessors.
- **The log record iterator** (`LogRecords`, file `log_record_iterator.dfy`) wraps
  a log iterator. It decodes each raw record by its operator tag (`Decode`).
  A forward step and the matching backward step decode to the same record.

Shared modules:
- `Storage` (`storage.dfy`): blocks, typed page values and the layout of a
  value sequence on a page.
- `Wrappers` (`wrappers.dfy`): `Option` and `Outcome`.
- `LogRecordKinds` (`log_record_kinds.dfy`): the six operator tags.

Some behaviour comes from classes that are not part of this model: `Page`,
`Buffer`, `FileMgr`, `LogMgr`, `BasicLogRecord`, `BufferMgr` and `RecoveryMgr`.
That behaviour is modelled as follows:
- A page is a map from offsets to typed values.
  - An integer takes `INT_SIZE` (4) bytes.
  - A string takes 4 bytes of length and then one byte per character.
  - Reading an integer where a string was written gives the string's length.
- A buffer's pin, unpin, set-string and flush are the field updates they perform.
- A freshly read page is empty.
- The log header offset `LAST_POS` is 0.
- The operator tags are CHECKPOINT 0, START 1, COMMIT 2, ROLLBACK 3, SETINT 4
  and SETSTRING 5.

## Model

| member | source | states |
|---|---|---|
| `Buffers.BasicBufferMgr.constructor` | src/simpledb/buffer/BasicBufferMgr.java:33-42 | the pool has `numbuffs` fresh unassigned, unpinned frames, all available, FIFO order is allocation order, the map is empty, and the pool invariant holds |
| `Buffers.BasicBufferMgr.FlushAll` | src/simpledb/buffer/BasicBufferMgr.java:50-54 | exactly the frames last modified by `txnum` get their modification mark cleared; pins, blocks, pages and LSNs of all frames are unchanged |
| `Buffers.BasicBufferMgr.Pin` | src/simpledb/buffer/BasicBufferMgr.java:66-82 | a resident block gets one more pin on its own buffer, with the map and FIFO order untouched and availability dropping only if the buffer was unpinned; otherwise the first unpinned frame in FIFO order is moved to the back of the order, unmapped from its old block, mapped to the new one with an empty page and one pin, and availability drops by one; with no unpinned frame the result is `None` and nothing changes; the pinned frame keeps its LSN; other frames never change |
| `Buffers.BasicBufferMgr.PinMapped` | src/simpledb/buffer/BasicBufferMgr.java:78-80 | pinning the buffer already mapped to `b` adds one pin to that frame and makes it unavailable only if it was unpinned |
| `Buffers.BasicBufferMgr.PinVictim` | src/simpledb/buffer/BasicBufferMgr.java:68-80 | the FIFO victim, if any, is re-assigned to the unmapped block, pinned once, moved to the back of the FIFO order, and becomes the map entry of that block in place of its old block |
| `Buffers.BasicBufferMgr.PinNew` | src/simpledb/buffer/BasicBufferMgr.java:95-108 | the FIFO victim, if any, is assigned to the new block with the formatted page and one pin, keeping its LSN, replaces its old map entry and leaves one frame fewer available; with no unpinned frame the result is `None` and the pool is unchanged |
| `Buffers.BasicBufferMgr.Unpin` | src/simpledb/buffer/BasicBufferMgr.java:116-120 | one pin fewer on the frame; it becomes available exactly when its count reaches zero; the invariant holds |
| `Buffers.BasicBufferMgr.Available` | src/simpledb/buffer/BasicBufferMgr.java:127-129 | the result is the number of unpinned frames, and it is zero exactly when every frame is pinned |
| `Buffers.BasicBufferMgr.FindExistingBuffer` | src/simpledb/buffer/BasicBufferMgr.java:131-138 | returns the buffer mapped to the block, which is the frame holding it; `None` exactly when no frame holds the block |
| `Buffers.BasicBufferMgr.ChooseUnpinnedBuffer` | src/simpledb/buffer/BasicBufferMgr.java:140-153 | returns the first frame in FIFO order that is not pinned and moves its index to the back of the order; `None` with the order unchanged when every frame is pinned |
| `Buffers.BasicBufferMgr.Requeue` | src/simpledb/buffer/BasicBufferMgr.java:147-148 | moving the chosen index to the back keeps the pool invariant, in particular that the FIFO order lists every frame once |
| `Buffers.BasicBufferMgr.Reassign` | src/simpledb/buffer/BasicBufferMgr.java:73-76 | the frame's old block leaves the map, the new block maps to the frame, which holds the new block with no pins, no modification mark and a fresh page, and the invariant holds |
| `Buffers.BasicBufferMgr.PinFrame` | src/simpledb/buffer/BasicBufferMgr.java:78-80 | one more pin on the frame, and availability drops by one exactly when it was unpinned |
| `Buffers.BasicBufferMgr.ContainsMapping` | src/simpledb/buffer/BasicBufferMgr.java:161-164 | true exactly when the block is a map key, which is exactly when some frame holds the block |
| `Buffers.BasicBufferMgr.GetMapping` | src/simpledb/buffer/BasicBufferMgr.java:172-174 | the map's entry for the block, a frame of the pool holding that block; `None` exactly when no frame holds it |
| `Buffers.BasicBufferMgr.Unique` | src/simpledb/buffer/BasicBufferMgr.java:73-76 | under the invariant two blocks never share a buffer and two frames never hold the same block |
| `Buffers.FirstUnpinned` | src/simpledb/buffer/BasicBufferMgr.java:142-152 | the victim position holds an unpinned frame and every earlier position a pinned one; there is none exactly when every frame in the order is pinned |
| `Buffers.MoveToBack` | src/simpledb/buffer/BasicBufferMgr.java:147-148 | the chosen entry ends up last; the entries before it stay in place and the ones after it shift down by one |
| `Buffers.MoveToBackPermutes` | src/simpledb/buffer/BasicBufferMgr.java:147-148 | moving the chosen index to the back is a permutation of the order |
| `Buffers.MoveToBackKeepsOrder` | src/simpledb/buffer/BasicBufferMgr.java:147-148 | moving an entry to the back of an ordering of the frame indices gives an ordering of the same indices |
| `Buffers.IndicesOrdering` | src/simpledb/buffer/BasicBufferMgr.java:36-40 | allocation order lists each frame index exactly once |
| `Buffers.CountUnpinnedUpdate` | src/simpledb/buffer/BasicBufferMgr.java:78-80 | changing one pin count changes the unpinned count by exactly the change in that frame's pinned status |
| `Buffers.CountUnpinnedZero` | src/simpledb/buffer/BasicBufferMgr.java:127-129 | no frame is unpinned exactly when the count of unpinned frames is zero |
| `Buffers.CountUnpinnedAll` | src/simpledb/buffer/BasicBufferMgr.java:35 | all frames are unpinned exactly when the count equals the pool size |
| `Buffers.RemapConsistent` | src/simpledb/buffer/BasicBufferMgr.java:73-76 | removing a frame's old block from the map and mapping the new block to it keeps the map and the frames in agreement |
| `Buffers.PinStep` | src/test/ProjectTest.java:77-84 | pinning the next of the eight distinct blocks takes the next frame in allocation order and leaves the FIFO order rotated by one |
| `Buffers.UnpinStep` | src/test/ProjectTest.java:86-91 | with all eight frames pinned no frame is available; after unpinning the third and second buffers the FIFO order is back to allocation order |
| `Buffers.SecondIsVictim` | src/test/ProjectTest.java:90-94 | with only the second and third frames unpinned, the FIFO victim is the second |
| `Buffers.ReplaceStep` | src/test/ProjectTest.java:94-97 | pinning the ninth block maps it to the second buffer |
| `Buffers.FifoReplacement` | src/test/ProjectTest.java:74-98 | in the whole scenario no buffer is available after eight pins, and the ninth block is mapped to the second buffer and not to the third |
| `Log.LogIterator.constructor` | src/simpledb/log/LogIterator.java:30-35 | the iterator reads the given block and is positioned at the pair named by its header |
| `Log.LogIterator.HasNext` | src/simpledb/log/LogIterator.java:43-45 | an earlier record exists exactly when the cursor is past the start of its block or the block is not the first |
| `Log.LogIterator.Next` | src/simpledb/log/LogIterator.java:55-60 | the cursor takes one backward step, crossing to the end of the previous block from a block's start, and the record returned is the one after the pair landed on |
| `Log.LogIterator.Remove` | src/simpledb/log/LogIterator.java:62-64 | the call always fails |
| `Log.LogIterator.MoveToNextBlock` | src/simpledb/log/LogIterator.java:70-74 | the iterator moves to the previous block of the same file, reads it and sits at its last pair |
| `Log.LogIterator.NextForward` | src/simpledb/log/LogIterator.java:84-92 | the cursor takes one forward step, crossing to the start of the next block from a block's last pair, and the record returned is the one after the pair the new pair points back to |
| `Log.LogIterator.MoveToNextForwardBlock` | src/simpledb/log/LogIterator.java:98-104 | the iterator moves to the next block of the same file, reads it and sits at its header |
| `Log.LogIterator.HasNextForward` | src/simpledb/log/LogIterator.java:112-115 | a later record exists exactly when the cursor is before its block's last pair or the block is not the last of the file |
| `Log.BackStep` | src/simpledb/log/LogIterator.java:58-59 | inside a well-formed block a backward step goes to the previous pair and returns the record after it |
| `Log.BackInBlock` | src/simpledb/log/LogIterator.java:55-60 | stepping back from a block's `i`-th pair returns its first `i` records, last first, and reaches the block's start |
| `Log.BackSeam` | src/simpledb/log/LogIterator.java:56-57 | stepping back from a block's start continues exactly as from the last pair of the previous block |
| `Log.BackThroughBlock` | src/simpledb/log/LogIterator.java:55-60 | stepping back from a block's last pair returns all its records, last first, and reaches its start |
| `Log.BackFirstBlock` | src/simpledb/log/LogIterator.java:43-45 | stepping back through block 0 returns its records and stops at its start, where no earlier record exists |
| `Log.BackToStart` | src/simpledb/log/LogIterator.java:43-74 | stepping back from the last pair of block `n` while an earlier record exists returns every record of blocks 0 to `n`, newest first, and stops at the start of block 0 |
| `Log.ForwardStep` | src/simpledb/log/LogIterator.java:89-91 | inside a well-formed block a forward step goes to the next pair and returns the record after the current one |
| `Log.ForwardInBlock` | src/simpledb/log/LogIterator.java:84-92 | stepping forward from a block's `i`-th pair returns its records from the `i`-th on and reaches its last pair |
| `Log.ForwardSeam` | src/simpledb/log/LogIterator.java:86-87 | stepping forward from a block's last pair continues exactly as from the start of the next block |
| `Log.ForwardThroughBlock` | src/simpledb/log/LogIterator.java:84-92 | stepping forward from a block's start returns all its records in order and reaches its last pair |
| `Log.ForwardFirstBlock` | src/simpledb/log/LogIterator.java:84-92 | stepping forward from the start of block 0 returns its records and continues from its last pair |
| `Log.ForwardFromStart` | src/simpledb/log/LogIterator.java:84-115 | stepping forward from the start of block 0 returns the records of blocks 0 to `n` in log order before continuing from the last pair of block `n` |
| `Log.ForwardThenBack` | src/simpledb/log/LogIterator.java:55-92 | in a well-formed log a forward step and the backward step after it return the same record, and the backward step lands where the forward step started (at the new block's start across a block boundary) |
| `Log.ReadWholeLog` | src/simpledb/log/LogIterator.java:43-115 | a well-formed log read backwards from its end yields every record newest first and stops at the start; read forwards from the start it yields every record in log order and stops at the last pair |
| `SetStringRecords.WriteThenRead` | src/simpledb/tx/recovery/SetStringRecord.java:40-62 | the seven values a record writes to the log start with the SETSTRING tag, and the decoding constructor reading on from there rebuilds the same record |
| `SetStringRecords.SetStringRecord.WriteToLog` | src/simpledb/tx/recovery/SetStringRecord.java:58-62 | the log form exists exactly when the new value is set; it is seven values, ending with the block's file name and number, the offset, the old and the new value (`WriteThenRead` is its inverse) |
| `SetStringRecords.FromLog` | src/simpledb/tx/recovery/SetStringRecord.java:40-48 | a decoded record always has its new value set, so it always has a log form again (`WriteThenRead` shows it rebuilds a written record) |
| `SetStringRecords.SetStringRecord.Op` | src/simpledb/tx/recovery/SetStringRecord.java:64-66 | the record's tag is SETSTRING, one of the log's six tags, and is the first value of its log form |
| `SetStringRecords.SetStringRecord.TxNumber` | src/simpledb/tx/recovery/SetStringRecord.java:68-70 | the record's transaction is the second value of its log form |
| `SetStringRecords.SetStringRecord.Undo` | src/simpledb/tx/recovery/SetStringRecord.java:83-88 | succeeds exactly when the block is resident or some frame is unpinned; then the block's buffer holds the old value at the offset, is marked as modified by `txnum` and keeps its pin count and its LSN, and availability is unchanged; a resident block leaves the map and FIFO order as they were, a block brought in takes the FIFO victim, whose old block leaves the map and whose index moves to the back; every other frame is unchanged, and on failure nothing changes |
| `SetStringRecords.SetStringRecord.Redo` | src/simpledb/tx/recovery/SetStringRecord.java:90-97 | as `Undo`, writing the new value instead of the old one: only the block's buffer (and, when the block is brought in, the FIFO victim's map entry and order position) changes |
| `SetStringRecords.PinSetUnpin` | src/simpledb/tx/recovery/SetStringRecord.java:84-87 | pin, write the string with LSN -1 (keeping the buffer's LSN), unpin: succeeds exactly when the block is resident or some frame is unpinned; on success the block's buffer holds the string at the offset and keeps its pin count and its LSN; a block brought in takes the FIFO victim (moved to the back, old block unmapped); no other frame changes |
| `SetStringRecords.SetUnpinResident` | src/simpledb/tx/recovery/SetStringRecord.java:84-87 | for a resident block the map, FIFO order and availability are unchanged, its buffer gets the string, the transaction's mark, its old pin count and its LSN, and no other frame changes |
| `SetStringRecords.SetUnpinBroughtIn` | src/simpledb/buffer/BasicBufferMgr.java:68-80 | for a block that is not resident the write succeeds exactly when some frame is unpinned; the FIFO victim then moves to the back, its old block leaves the map, and it holds the block with only the string written, no pins, the transaction's mark and its LSN as before; no other frame changes |
| `SetStringRecords.WriteAndUnpin` | src/simpledb/tx/recovery/SetStringRecord.java:86-87 | a pinned buffer gets the string at the offset, the transaction's modification mark and one pin fewer, keeps its block and LSN, and the pool's invariant holds |
| `SetStringRecords.UndoTwice` | src/simpledb/tx/recovery/SetStringRecord.java:83-88 | undo is idempotent: a second undo succeeds whenever the first did and leaves the page as a single undo does |
| `SetStringRecords.RedoTwice` | src/simpledb/tx/recovery/SetStringRecord.java:90-97 | redo is idempotent: a second redo succeeds whenever the first did and leaves the page as a single redo does |
| `SetStringRecords.UndoRestoresOldValue` | src/test/ProjectTest.java:26-50 | in a new pool of eight frames, after "Hello" is written at offset 40, the record of the change to "World" is written to a log page and the change is made, undoing the record decoded from the log page reads back "Hello" |
| `SetStringRecords.UndoInPool` | src/test/ProjectTest.java:30-50 | the same scenario in any pool where the block can be pinned ends with "Hello" at offset 40 |
| `SetStringRecords.ChangeAndUndo` | src/test/ProjectTest.java:42-50 | with "Hello" at offset 40 of the resident block's buffer, writing the record of the change to "World" to a log page, making the change, and undoing the record the decoding constructor reads back from that page restores "Hello" |
| `SetStringRecords.PinResident` | src/test/ProjectTest.java:30 | pinning a block that is resident or has an unpinned frame to go to succeeds and maps the block to the returned buffer |
| `SetStringRecords.SetInPool` | src/test/ProjectTest.java:34 | a transaction's write sets the string at the offset of the buffer and keeps the pool invariant |
| `SetStringRecords.UndoResident` | src/test/ProjectTest.java:45-50 | undoing a record whose block is resident restores its old value in that same buffer |
| `LogRecords.Decode` | src/simpledb/tx/recovery/LogRecordIterator.java:40-57 | a record decodes exactly when its first integer is one of the six tags; the kind decoded has that tag, the set-string kind is what the decoding constructor reads after the tag, and every other kind keeps the record positioned after its tag |
| `LogRecords.LogRecord.Op` | src/simpledb/tx/recovery/LogRecordIterator.java:41-56 | every decoded kind has one of the six tags, and the tag is SETSTRING exactly for a set-string record |
| `LogRecords.DecodeWritten` | src/simpledb/tx/recovery/LogRecordIterator.java:53-54 | a set-string record written to the log decodes to itself |
| `LogRecords.DecodeBothWays` | src/simpledb/tx/recovery/LogRecordIterator.java:60-79 | in a well-formed log the record a forward step returns decodes like the record the following backward step returns |
| `LogRecords.LogRecordIterator.constructor` | src/simpledb/tx/recovery/LogRecordIterator.java:20 | the wrapped log iterator is new and positioned at the last pair of the current log block |
| `LogRecords.LogRecordIterator.HasNext` | src/simpledb/tx/recovery/LogRecordIterator.java:22-24 | the answer is whether an earlier record exists at the wrapped iterator's position |
| `LogRecords.LogRecordIterator.HasNextForward` | src/simpledb/tx/recovery/LogRecordIterator.java:26-28 | the answer is whether a later record exists at the wrapped iterator's position |
| `LogRecords.LogRecordIterator.Next` | src/simpledb/tx/recovery/LogRecordIterator.java:39-58 | the wrapped iterator takes one backward step and the result is the decoding of the record it returns (`None` for an unknown tag) |
| `LogRecords.LogRecordIterator.NextForward` | src/simpledb/tx/recovery/LogRecordIterator.java:60-79 | the wrapped iterator takes one forward step and the result is the decoding of the record it returns (`None` for an unknown tag) |
| `LogRecords.LogRecordIterator.Remove` | src/simpledb/tx/recovery/LogRecordIterator.java:81-83 | the call always fails |

## Left out

- Synchronization: the buffer manager's methods are `synchronized`; the model is sequential.
- Disk I/O: reading a block into a page gives an empty page, and flushing only clears the modification mark. `Page`, `FileMgr`, `Buffer`, `BufferMgr`, `LogMgr`, `BasicLogRecord` and `RecoveryMgr` are not part of this model; their behaviour is modelled only as far as the core calls them.
- Pages are maps from offsets to integer or string values rather than byte arrays; values that overlap in bytes are not modelled.
- toString of the set-string record is not modelled.
- The checkpoint, start, commit, rollback and set-int record classes are not part of this model: `Decode` keeps their raw record positioned after the tag. The test's `getInt` assertion (redo of the committed set-int) is therefore not modelled.
- Buffers.BasicBufferMgr.Unpin requires the buffer to be pinned; unpinning an unpinned buffer is a caller error that would make the count wrong.
- Buffers.BasicBufferMgr.PinNew takes the new block's number and formatted page as parameters (the file layer appends and formats the block) and requires that block to be unmapped, which holds for a newly appended block.
- SetStringRecords.SetStringRecord.WriteToLog returns the values appended to the log instead of the LSN that the log manager assigns. A record whose new value was never set gives `None`, because SimpleDB would try to log a null string.
- SetStringRecords.SetStringRecord.Redo requires the new value to be set, because SimpleDB would write a null string otherwise.
- SetStringRecords.SetStringRecord.Undo works on the basic buffer manager directly. When no frame can be pinned it returns `false`, where `BufferMgr` would wait or abort. It gives the pin count of the record's buffer rather than the whole vector of pin counts (every other frame is stated unchanged, so their pin counts are kept).
- SetStringRecords.SetStringRecord.Redo: the same simplifications as `Undo` apply to its pin failure and pin count.
- SetStringRecords.PinSetUnpin: the same simplifications as `Undo` apply to its pin failure and pin count.
- The log iterator reads blocks by number from the given sequence of pages. The file name is kept but not used to choose pages, and the file size is the number of pages.
- Log.BackToStart: describes the traversal up to a step bound (`fuel`) of at least the number of records; the bound is a device of the model, not a limit of the iterator.
- Log.ForwardFromStart: the same step bound as `Log.BackToStart`.
- Log.ReadWholeLog: the same step bound as `Log.BackToStart`.
- Log.LogIterator.Next: called where no earlier record exists, it steps as SimpleDB does. The model states that step but nothing about the meaningless position it reaches.
- Log.LogIterator.NextForward: likewise, called where no later record exists.
- Log.LogIterator.Next: the returned record holds a snapshot of the current page. In SimpleDB it shares the iterator's own page object, which the iterator overwrites in place when it moves to another block, so a raw record kept across such a step would then read the new block. The record iterator decodes each record before the next step, so its results are the same either way.
- Log.LogIterator.NextForward: the same snapshot of the page, where SimpleDB shares the iterator's page object.
