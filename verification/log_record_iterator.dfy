/**
 * Reading the log as typed records: each raw record opens with an operator
 * tag that says which kind of record follows.
 */
module LogRecords {
  import opened Wrappers
  import opened Storage
  import opened Log
  import opened LogRecordKinds
  import opened SetStringRecords

  /**
   * The six kinds of log record. Only the set-string record is decoded
   * here; the other kinds keep the raw record positioned after their tag,
   * where their own decoding constructors would go on reading.
   */
  datatype LogRecord =
    | Checkpoint(rest: BasicLogRecord)
    | Start(rest: BasicLogRecord)
    | Commit(rest: BasicLogRecord)
    | Rollback(rest: BasicLogRecord)
    | SetInt(rest: BasicLogRecord)
    | SetString(record: SetStringRecord)
  {
    /** The operator tag of the kind: one of the six tags, SETSTRING exactly for a set-string record. */
    function Op(): (r: int)
      ensures IsTag(r)
      ensures r == SETSTRING <==> SetString?
    {
      match this
      case Checkpoint(_) => CHECKPOINT
      case Start(_) => START
      case Commit(_) => COMMIT
      case Rollback(_) => ROLLBACK
      case SetInt(_) => SETINT
      case SetString(r) => r.Op()
    }
  }

  /**
   * Reads the tag of a raw record and builds the record of that kind from
   * what follows; `None` for a tag of no kind.
   */
  function Decode(rec: BasicLogRecord): (r: Option<LogRecord>)
    ensures r.Some? <==> IsTag(rec.NextInt().0)
    ensures r.Some? ==> r.value.Op() == rec.NextInt().0
    ensures r.Some? && !r.value.SetString? ==> r.value.rest == rec.NextInt().1
    ensures r.Some? && r.value.SetString? ==> r.value.record == FromLog(rec.NextInt().1)
  {
    var (op, rest) := rec.NextInt();
    if op == CHECKPOINT then Some(Checkpoint(rest))
    else if op == START then Some(Start(rest))
    else if op == COMMIT then Some(Commit(rest))
    else if op == ROLLBACK then Some(Rollback(rest))
    else if op == SETINT then Some(SetInt(rest))
    else if op == SETSTRING then Some(SetString(FromLog(rest)))
    else None
  }

  /** A set-string record written to a page decodes to itself. */
  lemma DecodeWritten(r: SetStringRecord, p: Page, pos: int)
    requires r.WriteToLog().Some?
    ensures Decode(BasicLogRecord(WriteValues(p, pos, r.WriteToLog().value), pos)) == Some(SetString(r))
  {
    WriteThenRead(r, p, pos);
  }

  /**
   * In a well-formed log, the record a forward step returns and the record a
   * backward step from the new position returns decode alike.
   */
  lemma DecodeBothWays(log: seq<Page>, chains: seq<seq<int>>, n: nat, i: nat)
    requires WellFormed(log, chains) && n < |log| && i < |chains[n]|
    requires HasNextForwardAt(log, Cursor(n, chains[n][i]))
    ensures Decode(RecordAt(log, ForwardRecord(log, Cursor(n, chains[n][i]))))
         == Decode(RecordAt(log, BackRecord(log, Forward(log, Cursor(n, chains[n][i])))))
  {
    ForwardThenBack(log, chains, n, i);
  }

  /** Iterates over the log's records as typed records, through a raw log iterator. */
  class LogRecordIterator {
    const iter: LogIterator

    /** Starts at the last record of the log, whose current block is `current`. */
    constructor (log: seq<Page>, current: Block)
      ensures fresh(iter) && iter.log == log && iter.blk == current && iter.Valid()
      ensures iter.Position() == Cursor(current.number, LastRec(log, current.number))
    {
      iter := new LogIterator(log, current);
    }

    /** Whether there is an earlier record: the raw iterator's answer. */
    method HasNext() returns (r: bool)
      ensures r == HasNextAt(iter.Position())
    {
      r := iter.HasNext();
    }

    /** Whether there is a later record: the raw iterator's answer. */
    method HasNextForward() returns (r: bool)
      requires iter.Valid()
      ensures r == HasNextForwardAt(iter.log, iter.Position())
    {
      r := iter.HasNextForward();
    }

    /** Steps the raw iterator back one record and decodes that record. */
    method Next() returns (r: Option<LogRecord>)
      requires iter.Valid()
      modifies iter`blk, iter`pg, iter`currentrec
      ensures iter.Valid() && iter.blk.fileName == old(iter.blk.fileName)
      ensures iter.Position() == Back(iter.log, old(iter.Position()))
      ensures r == Decode(RecordAt(iter.log, BackRecord(iter.log, old(iter.Position()))))
    {
      var rec := iter.Next();
      r := Decode(rec);
    }

    /** Steps the raw iterator forward one record and decodes that record. */
    method NextForward() returns (r: Option<LogRecord>)
      requires iter.Valid()
      modifies iter`blk, iter`pg, iter`currentrec
      ensures iter.Valid() && iter.blk.fileName == old(iter.blk.fileName)
      ensures iter.Position() == Forward(iter.log, old(iter.Position()))
      ensures r == Decode(RecordAt(iter.log, ForwardRecord(iter.log, old(iter.Position()))))
    {
      var rec := iter.NextForward();
      r := Decode(rec);
    }

    /** Records are never removed through the iterator: the call always fails. */
    method Remove() returns (r: Outcome<string>)
      ensures r.Fail?
    {
      r := Fail("unsupported operation");
    }
  }
}
