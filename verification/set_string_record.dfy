/**
 * The log record of a string update: the transaction, the block and offset
 * written, the value before the update and the value after it. It is written
 * to the log as seven values, read back by the decoding constructor, and
 * undone or redone through the buffer pool.
 */
module SetStringRecords {
  import opened Wrappers
  import opened Storage
  import opened Log
  import opened Buffers
  import opened LogRecordKinds

  /**
   * A set-string record. The four-argument constructor of SimpleDB leaves
   * the new value unset (`None`); the five-argument and the decoding
   * constructors set it.
   */
  datatype SetStringRecord = SetStringRecord(txnum: int, blk: Block, offset: int, val: string, newval: Option<string>)
  {
    /** The operator tag of the record: a tag of the log, the one that opens its log form. */
    function Op(): (r: int)
      ensures IsTag(r) && r == SETSTRING
      ensures WriteToLog().Some? ==> WriteToLog().value[0] == IntVal(r)
    {
      SETSTRING
    }

    /** The transaction of the record: the value that follows the tag in its log form. */
    function TxNumber(): (r: int)
      ensures WriteToLog().Some? ==> WriteToLog().value[1] == IntVal(r)
    {
      txnum
    }

    /**
     * The values appended to the log: the operator, the transaction, the
     * block's file name and number, the offset, the old and the new value.
     * With the new value unset there is nothing the log can store.
     */
    function WriteToLog(): (r: Option<seq<Value>>)
      ensures r.Some? <==> newval.Some?
      ensures r.Some? ==> |r.value| == 7 && r.value[2] == StrVal(blk.fileName) && r.value[3] == IntVal(blk.number)
      ensures r.Some? ==> r.value[4] == IntVal(offset) && r.value[5] == StrVal(val) && r.value[6] == StrVal(newval.value)
    {
      if newval.None? then None
      else Some([IntVal(SETSTRING), IntVal(txnum), StrVal(blk.fileName), IntVal(blk.number),
                 IntVal(offset), StrVal(val), StrVal(newval.value)])
    }

    /** Restores the old value at the record's offset, as transaction `txnum`, with LSN -1, which keeps the buffer's LSN. */
    method Undo(mgr: BasicBufferMgr, txnum: int) returns (ok: bool)
      requires mgr.Valid()
      modifies mgr, mgr.Frames()
      ensures mgr.Valid()
      ensures ok == old(blk in mgr.poolMap || FirstUnpinned(mgr.fifo, mgr.pinCounts).Some?)
      ensures ok ==> blk in mgr.poolMap && mgr.poolMap[blk].modifiedBy == txnum
      ensures ok ==> mgr.poolMap[blk].contents
                     == (if old(blk in mgr.poolMap) then old(mgr.poolMap[blk].contents) else map[])[offset := StrVal(val)]
      ensures mgr.numAvailable == old(mgr.numAvailable)
      ensures ok ==> mgr.poolMap[blk].pins == (if old(blk in mgr.poolMap) then old(mgr.poolMap[blk].pins) else 0)
      ensures old(blk in mgr.poolMap) ==>
                && mgr.poolMap == old(mgr.poolMap) && mgr.fifo == old(mgr.fifo)
                && mgr.poolMap[blk].logSequenceNumber == old(mgr.poolMap[blk].logSequenceNumber)
      ensures !ok ==> mgr.poolMap == old(mgr.poolMap) && mgr.fifo == old(mgr.fifo)
      ensures ok && old(blk !in mgr.poolMap) ==>
                var k := old(FirstUnpinned(mgr.fifo, mgr.pinCounts)).value;
                var v := old(mgr.fifo)[k];
                && mgr.poolMap[blk] == mgr.pool[v]
                && mgr.fifo == MoveToBack(old(mgr.fifo), k)
                && mgr.poolMap == Unmap(old(mgr.poolMap), old(mgr.pool[v].blk))[blk := mgr.pool[v]]
                && mgr.pool[v].logSequenceNumber == old(mgr.pool[v].logSequenceNumber)
      ensures forall i :: 0 <= i < |mgr.pool| && !(ok && mgr.pool[i] == mgr.poolMap[blk]) ==> unchanged(mgr.pool[i])
    {
      ok := PinSetUnpin(mgr, blk, offset, val, txnum);
    }

    /** Writes the new value again at the record's offset, as transaction `txnum`, with LSN -1, which keeps the buffer's LSN. */
    method Redo(mgr: BasicBufferMgr, txnum: int) returns (ok: bool)
      requires mgr.Valid() && newval.Some?
      modifies mgr, mgr.Frames()
      ensures mgr.Valid()
      ensures ok == old(blk in mgr.poolMap || FirstUnpinned(mgr.fifo, mgr.pinCounts).Some?)
      ensures ok ==> blk in mgr.poolMap && mgr.poolMap[blk].modifiedBy == txnum
      ensures ok ==> mgr.poolMap[blk].contents
                     == (if old(blk in mgr.poolMap) then old(mgr.poolMap[blk].contents) else map[])[offset := StrVal(newval.value)]
      ensures mgr.numAvailable == old(mgr.numAvailable)
      ensures ok ==> mgr.poolMap[blk].pins == (if old(blk in mgr.poolMap) then old(mgr.poolMap[blk].pins) else 0)
      ensures old(blk in mgr.poolMap) ==>
                && mgr.poolMap == old(mgr.poolMap) && mgr.fifo == old(mgr.fifo)
                && mgr.poolMap[blk].logSequenceNumber == old(mgr.poolMap[blk].logSequenceNumber)
      ensures !ok ==> mgr.poolMap == old(mgr.poolMap) && mgr.fifo == old(mgr.fifo)
      ensures ok && old(blk !in mgr.poolMap) ==>
                var k := old(FirstUnpinned(mgr.fifo, mgr.pinCounts)).value;
                var v := old(mgr.fifo)[k];
                && mgr.poolMap[blk] == mgr.pool[v]
                && mgr.fifo == MoveToBack(old(mgr.fifo), k)
                && mgr.poolMap == Unmap(old(mgr.poolMap), old(mgr.pool[v].blk))[blk := mgr.pool[v]]
                && mgr.pool[v].logSequenceNumber == old(mgr.pool[v].logSequenceNumber)
      ensures forall i :: 0 <= i < |mgr.pool| && !(ok && mgr.pool[i] == mgr.poolMap[blk]) ==> unchanged(mgr.pool[i])
    {
      ok := PinSetUnpin(mgr, blk, offset, newval.value, txnum);
    }
  }

  /**
   * The decoding constructor: reads, after the operator, the transaction,
   * the file name, the block number, the offset, the old and the new value.
   */
  function FromLog(rec: BasicLogRecord): (r: SetStringRecord)
    ensures r.newval.Some? && r.WriteToLog().Some?
  {
    var (txnum, r1) := rec.NextInt();
    var (filename, r2) := r1.NextString();
    var (blknum, r3) := r2.NextInt();
    var (offset, r4) := r3.NextInt();
    var (val, r5) := r4.NextString();
    var (newval, _) := r5.NextString();
    SetStringRecord(txnum, Block(filename, blknum), offset, val, Some(newval))
  }

  /**
   * A record written to a page from `pos` opens with its operator, and the
   * decoding constructor reading on from there gives back the record.
   */
  lemma WriteThenRead(r: SetStringRecord, p: Page, pos: int)
    requires r.WriteToLog().Some?
    ensures BasicLogRecord(WriteValues(p, pos, r.WriteToLog().value), pos).NextInt().0 == r.Op()
    ensures FromLog(BasicLogRecord(WriteValues(p, pos, r.WriteToLog().value), pos + INT_SIZE)) == r
  {
    var t4 := [IntVal(r.blk.number), IntVal(r.offset), StrVal(r.val), StrVal(r.newval.value)];
    var t3 := [StrVal(r.blk.fileName)] + t4;
    var t2 := [IntVal(r.txnum)] + t3;
    assert r.WriteToLog().value == [IntVal(SETSTRING)] + t2;
    var q := WriteValues(p, pos, [IntVal(SETSTRING)] + t2);
    ReadLaidOut(q, p, pos, IntVal(SETSTRING), t2);
    var p1, o1 := p[pos := IntVal(SETSTRING)], pos + INT_SIZE;
    ReadLaidOut(q, p1, o1, IntVal(r.txnum), t3);
    var p2, o2 := p1[o1 := IntVal(r.txnum)], o1 + INT_SIZE;
    ReadLaidOut(q, p2, o2, StrVal(r.blk.fileName), t4);
    var p3, o3 := p2[o2 := StrVal(r.blk.fileName)], o2 + ValueSize(StrVal(r.blk.fileName));
    ReadTail(q, p3, o3, r.blk.number, r.offset, r.val, r.newval.value);
  }

  /** The last four fields of a written record read back in order. */
  lemma ReadTail(q: Page, p: Page, pos: int, number: int, offset: int, val: string, newval: string)
    requires q == WriteValues(p, pos, [IntVal(number), IntVal(offset), StrVal(val), StrVal(newval)])
    ensures BasicLogRecord(q, pos).NextInt().0 == number
    ensures BasicLogRecord(q, pos).NextInt().1.NextInt().0 == offset
    ensures BasicLogRecord(q, pos).NextInt().1.NextInt().1.NextString().0 == val
    ensures BasicLogRecord(q, pos).NextInt().1.NextInt().1.NextString().1.NextString().0 == newval
  {
    var t3 := [StrVal(newval)];
    var t2 := [StrVal(val)] + t3;
    var t1 := [IntVal(offset)] + t2;
    assert [IntVal(number), IntVal(offset), StrVal(val), StrVal(newval)] == [IntVal(number)] + t1;
    ReadLaidOut(q, p, pos, IntVal(number), t1);
    var p1, o1 := p[pos := IntVal(number)], pos + INT_SIZE;
    ReadLaidOut(q, p1, o1, IntVal(offset), t2);
    var p2, o2 := p1[o1 := IntVal(offset)], o1 + INT_SIZE;
    ReadLaidOut(q, p2, o2, StrVal(val), t3);
    var p3, o3 := p2[o2 := StrVal(val)], o2 + ValueSize(StrVal(val));
    assert t3 == [StrVal(newval)] + [];
    ReadLaidOut(q, p3, o3, StrVal(newval), []);
  }

  /**
   * Pins `b`, writes `s` at `offset` as transaction `txnum` with LSN -1, and
   * unpins it again; nothing happens when `b` cannot be pinned.
   */
  method PinSetUnpin(mgr: BasicBufferMgr, b: Block, offset: int, s: string, txnum: int) returns (ok: bool)
    requires mgr.Valid()
    modifies mgr, mgr.Frames()
    ensures mgr.Valid()
    ensures ok == old(b in mgr.poolMap || FirstUnpinned(mgr.fifo, mgr.pinCounts).Some?)
    ensures ok ==> b in mgr.poolMap && mgr.poolMap[b].modifiedBy == txnum
    ensures ok ==> mgr.poolMap[b].contents
                   == (if old(b in mgr.poolMap) then old(mgr.poolMap[b].contents) else map[])[offset := StrVal(s)]
    ensures mgr.numAvailable == old(mgr.numAvailable)
    ensures ok ==> mgr.poolMap[b].pins == (if old(b in mgr.poolMap) then old(mgr.poolMap[b].pins) else 0)
    ensures old(b in mgr.poolMap) ==>
              && mgr.poolMap == old(mgr.poolMap) && mgr.fifo == old(mgr.fifo)
              && mgr.poolMap[b].logSequenceNumber == old(mgr.poolMap[b].logSequenceNumber)
    ensures !ok ==> mgr.poolMap == old(mgr.poolMap) && mgr.fifo == old(mgr.fifo)
    ensures ok && old(b !in mgr.poolMap) ==>
              var k := old(FirstUnpinned(mgr.fifo, mgr.pinCounts)).value;
              var v := old(mgr.fifo)[k];
              && mgr.poolMap[b] == mgr.pool[v]
              && mgr.fifo == MoveToBack(old(mgr.fifo), k)
              && mgr.poolMap == Unmap(old(mgr.poolMap), old(mgr.pool[v].blk))[b := mgr.pool[v]]
              && mgr.pool[v].logSequenceNumber == old(mgr.pool[v].logSequenceNumber)
    ensures forall i :: 0 <= i < |mgr.pool| && !(ok && mgr.pool[i] == mgr.poolMap[b]) ==> unchanged(mgr.pool[i])
  {
    if b in mgr.poolMap {
      SetUnpinResident(mgr, b, offset, s, txnum);
      ok := true;
    } else {
      ok := SetUnpinBroughtIn(mgr, b, offset, s, txnum);
    }
  }

  /** `PinSetUnpin` for a resident block: only its buffer's page and modification mark change. */
  method SetUnpinResident(mgr: BasicBufferMgr, b: Block, offset: int, s: string, txnum: int)
    requires mgr.Valid() && b in mgr.poolMap
    modifies mgr, mgr.Frames()
    ensures mgr.Valid() && mgr.poolMap == old(mgr.poolMap) && mgr.fifo == old(mgr.fifo)
    ensures mgr.numAvailable == old(mgr.numAvailable)
    ensures mgr.poolMap[b].contents == old(mgr.poolMap[b].contents)[offset := StrVal(s)]
    ensures mgr.poolMap[b].modifiedBy == txnum && mgr.poolMap[b].pins == old(mgr.poolMap[b].pins)
    ensures mgr.poolMap[b].logSequenceNumber == old(mgr.poolMap[b].logSequenceNumber)
    ensures forall i :: 0 <= i < |mgr.pool| && mgr.pool[i] != mgr.poolMap[b] ==> unchanged(mgr.pool[i])
  {
    var buff := mgr.Pin(b);
    WriteAndUnpin(mgr, buff.value, offset, s, txnum);
  }

  /**
   * `PinSetUnpin` for a block that is not resident: the FIFO victim, if any,
   * takes the block over with an empty page that then holds `s`.
   */
  method SetUnpinBroughtIn(mgr: BasicBufferMgr, b: Block, offset: int, s: string, txnum: int) returns (ok: bool)
    requires mgr.Valid() && b !in mgr.poolMap
    modifies mgr, mgr.Frames()
    ensures mgr.Valid() && mgr.numAvailable == old(mgr.numAvailable)
    ensures ok == old(FirstUnpinned(mgr.fifo, mgr.pinCounts)).Some?
    ensures !ok ==> mgr.poolMap == old(mgr.poolMap) && mgr.fifo == old(mgr.fifo)
    ensures ok ==>
              var k := old(FirstUnpinned(mgr.fifo, mgr.pinCounts)).value;
              var v := old(mgr.fifo)[k];
              && mgr.poolMap == Unmap(old(mgr.poolMap), old(mgr.pool[v].blk))[b := mgr.pool[v]]
              && mgr.fifo == MoveToBack(old(mgr.fifo), k)
              && mgr.pool[v].contents == map[][offset := StrVal(s)]
              && mgr.pool[v].modifiedBy == txnum && mgr.pool[v].pins == 0
              && mgr.pool[v].logSequenceNumber == old(mgr.pool[v].logSequenceNumber)
    ensures forall i :: 0 <= i < |mgr.pool| && !(ok && mgr.pool[i] == mgr.poolMap[b]) ==> unchanged(mgr.pool[i])
  {
    var buff := mgr.Pin(b);
    if buff.None? {
      return false;
    }
    WriteAndUnpin(mgr, buff.value, offset, s, txnum);
    ok := true;
  }

  /** Writes `s` at `offset` of a pinned buffer as transaction `txnum` with LSN -1 (keeping its LSN), then unpins it. */
  method WriteAndUnpin(mgr: BasicBufferMgr, buff: Buffer, offset: int, s: string, txnum: int)
    requires mgr.Valid() && buff in mgr.Frames() && buff.pins > 0
    modifies mgr`numAvailable, mgr`pinCounts, buff
    ensures mgr.Valid()
    ensures buff.contents == old(buff.contents)[offset := StrVal(s)] && buff.modifiedBy == txnum
    ensures buff.pins == old(buff.pins) - 1 && buff.blk == old(buff.blk)
    ensures buff.logSequenceNumber == old(buff.logSequenceNumber)
    ensures mgr.numAvailable == old(mgr.numAvailable) + (if buff.pins == 0 then 1 else 0)
  {
    buff.SetString(offset, s, txnum, -1);
    mgr.Unpin(buff);
  }

  /** Undoing a record a second time leaves the page as the first undo left it. */
  method UndoTwice(rec: SetStringRecord, mgr: BasicBufferMgr, txnum: int) returns (first: bool, second: bool)
    requires mgr.Valid()
    modifies mgr, mgr.Frames()
    ensures mgr.Valid()
    ensures first ==> second && rec.blk in mgr.poolMap
    ensures first ==> mgr.poolMap[rec.blk].contents
                      == (if old(rec.blk in mgr.poolMap) then old(mgr.poolMap[rec.blk].contents) else map[])[rec.offset := StrVal(rec.val)]
  {
    first := rec.Undo(mgr, txnum);
    second := rec.Undo(mgr, txnum);
  }

  /** Redoing a record a second time leaves the page as the first redo left it. */
  method RedoTwice(rec: SetStringRecord, mgr: BasicBufferMgr, txnum: int) returns (first: bool, second: bool)
    requires mgr.Valid() && rec.newval.Some?
    modifies mgr, mgr.Frames()
    ensures mgr.Valid()
    ensures first ==> second && rec.blk in mgr.poolMap
    ensures first ==> mgr.poolMap[rec.blk].contents
                      == (if old(rec.blk in mgr.poolMap) then old(mgr.poolMap[rec.blk].contents) else map[])[rec.offset := StrVal(rec.newval.value)]
  {
    first := rec.Redo(mgr, txnum);
    second := rec.Redo(mgr, txnum);
  }

  /**
   * The recovery scenario for strings: transaction 200 pins block 111 of
   * "testblock" in a pool of eight frames, writes "Hello" at offset 40,
   * writes the record of its change of that value to "World" to a log page
   * and makes the change; undoing the record decoded from the log page puts
   * "Hello" back.
   */
  method UndoRestoresOldValue() returns (s: string)
    ensures s == "Hello"
  {
    var mgr := new BasicBufferMgr(8);
    assert mgr.pinCounts[mgr.fifo[0]] == 0;
    s := UndoInPool(mgr, Block("testblock", 111));
  }

  /** The same scenario in any pool where the block can be pinned. */
  method UndoInPool(mgr: BasicBufferMgr, block: Block) returns (s: string)
    requires mgr.Valid() && (block in mgr.poolMap || FirstUnpinned(mgr.fifo, mgr.pinCounts).Some?)
    modifies mgr, mgr.Frames()
    ensures s == "Hello"
  {
    var buff := PinResident(mgr, block);
    SetInPool(mgr, buff, 40, "Hello", 200, 888);
    s := ChangeAndUndo(mgr, block, buff);
  }

  /**
   * With "Hello" at offset 40 of the resident block's buffer, transaction 200
   * writes the record of its change to "World" to a log page and makes the
   * change; undoing the record read back from the log page, after its tag,
   * by the decoding constructor restores "Hello".
   */
  method ChangeAndUndo(mgr: BasicBufferMgr, block: Block, buff: Buffer) returns (s: string)
    requires mgr.Valid() && block in mgr.poolMap && mgr.poolMap[block] == buff && buff in mgr.Frames()
    requires GetString(buff.contents, 40) == "Hello"
    modifies mgr, mgr.Frames()
    ensures s == "Hello"
  {
    var rec := SetStringRecord(200, block, 40, GetString(buff.contents, 40), Some("World"));
    var logPage := WriteValues(map[], 0, rec.WriteToLog().value);
    WriteThenRead(rec, map[], 0);
    var logged := FromLog(BasicLogRecord(logPage, INT_SIZE));
    SetInPool(mgr, buff, 40, "World", 200, 889);
    UndoResident(logged, mgr, buff, 200);
    s := GetString(buff.contents, 40);
  }

  /** Pins a block that is resident or has a free frame to go to: the pin succeeds. */
  method PinResident(mgr: BasicBufferMgr, block: Block) returns (buff: Buffer)
    requires mgr.Valid() && (block in mgr.poolMap || FirstUnpinned(mgr.fifo, mgr.pinCounts).Some?)
    modifies mgr, mgr.Frames()
    ensures mgr.Valid() && buff in mgr.Frames() && block in mgr.poolMap && mgr.poolMap[block] == buff
  {
    var r := mgr.Pin(block);
    buff := r.value;
  }

  /** Undoing a record whose block is resident in `buff` restores the old value in `buff`. */
  method UndoResident(rec: SetStringRecord, mgr: BasicBufferMgr, buff: Buffer, txnum: int)
    requires mgr.Valid() && rec.blk in mgr.poolMap && mgr.poolMap[rec.blk] == buff
    modifies mgr, mgr.Frames()
    ensures buff.contents == old(buff.contents)[rec.offset := StrVal(rec.val)]
  {
    var ok := rec.Undo(mgr, txnum);
  }

  /** A transaction's write into a buffer of the pool: the pool's bookkeeping is unaffected. */
  method SetInPool(mgr: BasicBufferMgr, buff: Buffer, offset: int, s: string, txnum: int, lsn: int)
    requires mgr.Valid() && buff in mgr.Frames()
    modifies buff`contents, buff`modifiedBy, buff`logSequenceNumber
    ensures mgr.Valid() && buff.contents == old(buff.contents)[offset := StrVal(s)]
  {
    buff.SetString(offset, s, txnum, lsn);
  }
}
