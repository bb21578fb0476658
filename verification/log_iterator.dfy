/**
 * The log file and the iterator over its records. The log is a sequence of
 * block pages, by block number. Each block starts with the offset of its last
 * record's pointer pair at `LAST_POS`; each record's pointer pair is a
 * back-pointer (the previous pair of the block) followed by a forward pointer
 * (the next pair), and the record's values follow the pair.
 */
module Log {
  import opened Wrappers
  import opened Storage

  /** Offset of the header holding the last record's pointer pair. */
  const LAST_POS: int := 0

  /** The back- and forward pointers together. */
  const PTR_SIZE: int := 2 * INT_SIZE

  /** A log record as read from its page: the page and the offset of the next value to read. */
  datatype BasicLogRecord = BasicLogRecord(page: Page, pos: int)
  {
    /** The integer at the read position, and the record advanced past it. */
    function NextInt(): (int, BasicLogRecord)
    {
      (GetInt(page, pos), BasicLogRecord(page, pos + INT_SIZE))
    }

    /** The string at the read position, and the record advanced past its length and characters. */
    function NextString(): (string, BasicLogRecord)
    {
      var s := GetString(page, pos);
      (s, BasicLogRecord(page, pos + ValueSize(StrVal(s))))
    }
  }

  /**
   * Reading page `q`, where value `v` and then `rest` are laid out from
   * `pos`, returns `v` and moves past it; `q` is also `rest` laid out after
   * `v`.
   */
  lemma ReadLaidOut(q: Page, p: Page, pos: int, v: Value, rest: seq<Value>)
    requires q == WriteValues(p, pos, [v] + rest)
    ensures q == WriteValues(p[pos := v], pos + ValueSize(v), rest)
    ensures v.IntVal? ==> BasicLogRecord(q, pos).NextInt() == (v.i, BasicLogRecord(q, pos + ValueSize(v)))
    ensures v.StrVal? ==> BasicLogRecord(q, pos).NextString() == (v.s, BasicLogRecord(q, pos + ValueSize(v)))
  {
    assert ([v] + rest)[1..] == rest;
    WriteValuesFirst(p, pos, [v] + rest);
  }

  /** A position in the log: a block number and the offset of a pointer pair in that block. */
  datatype Cursor = Cursor(number: int, rec: int)

  /** Where a record's values start: a block number and an offset in that block. */
  datatype RecordLoc = RecordLoc(number: int, offset: int)

  /** The page of block `n`; a block outside the file reads as an empty page. */
  function ReadBlock(log: seq<Page>, n: int): Page
  {
    if 0 <= n < |log| then log[n] else map[]
  }

  /** The record at `r`, positioned at its first value. */
  function RecordAt(log: seq<Page>, r: RecordLoc): BasicLogRecord
  {
    BasicLogRecord(ReadBlock(log, r.number), r.offset)
  }

  /** The header of block `n`: the offset of its last pointer pair. */
  function LastRec(log: seq<Page>, n: int): int
  {
    GetInt(ReadBlock(log, n), LAST_POS)
  }

  /** Whether an earlier record exists: not at the first position of the first block. */
  predicate HasNextAt(c: Cursor)
  {
    c.rec > 0 || c.number > 0
  }

  /** Whether a later record exists: not at the last pair of the last block. */
  predicate HasNextForwardAt(log: seq<Page>, c: Cursor)
  {
    c.rec < LastRec(log, c.number) || c.number < |log| - 1
  }

  /**
   * One step back: from the first position of a block, first to the end of
   * the previous block; then to the pair the back-pointer names.
   */
  function Back(log: seq<Page>, c: Cursor): Cursor
  {
    var start := if c.rec == 0 then Cursor(c.number - 1, LastRec(log, c.number - 1)) else c;
    Cursor(start.number, GetInt(ReadBlock(log, start.number), start.rec))
  }

  /** The record a step back returns: the values after the pair it lands on. */
  function BackRecord(log: seq<Page>, c: Cursor): RecordLoc
  {
    var b := Back(log, c);
    RecordLoc(b.number, b.rec + PTR_SIZE)
  }

  /** The forward pointer of the pair at `rec`: the integer after its back-pointer. */
  function ForwardPointer(p: Page, rec: int): int
  {
    GetInt(p, rec + INT_SIZE)
  }

  /**
   * One step forward: from the last pair of a block, first to the start of
   * the next block; then to the pair the forward pointer names.
   */
  function Forward(log: seq<Page>, c: Cursor): Cursor
  {
    var start := if c.rec == LastRec(log, c.number) then Cursor(c.number + 1, LAST_POS) else c;
    Cursor(start.number, ForwardPointer(ReadBlock(log, start.number), start.rec))
  }

  /** The record a step forward returns: the values after the pair that the new pair points back to. */
  function ForwardRecord(log: seq<Page>, c: Cursor): RecordLoc
  {
    var f := Forward(log, c);
    RecordLoc(f.number, GetInt(ReadBlock(log, f.number), f.rec) + PTR_SIZE)
  }

  /**
   * Iterates over a log file through the cursor (`blk`, `currentrec`), with
   * `pg` the page of `blk`. The file's pages are `log`; the iterator never
   * changes them.
   */
  class LogIterator {
    const log: seq<Page>
    var blk: Block
    var pg: Page
    var currentrec: int

    /** The position of the cursor. */
    function Position(): Cursor
      reads this`blk, this`currentrec
    {
      Cursor(blk.number, currentrec)
    }

    /** `pg` is the page of the current block. */
    ghost predicate Valid()
      reads this`blk, this`pg
    {
      pg == ReadBlock(log, blk.number)
    }

    /** Positioned at the last record of `blk`: at the pair its header names. */
    constructor (log: seq<Page>, blk: Block)
      ensures this.log == log && this.blk == blk && Valid()
      ensures Position() == Cursor(blk.number, LastRec(log, blk.number))
    {
      this.log := log;
      this.blk := blk;
      pg := ReadBlock(log, blk.number);
      currentrec := GetInt(ReadBlock(log, blk.number), LAST_POS);
    }

    /** Whether there is an earlier record. */
    method HasNext() returns (r: bool)
      ensures r == HasNextAt(Position())
      ensures r <==> currentrec > 0 || blk.number > 0
    {
      r := currentrec > 0 || blk.number > 0;
    }

    /** Moves one record back and returns it. */
    method Next() returns (r: BasicLogRecord)
      requires Valid()
      modifies this`blk, this`pg, this`currentrec
      ensures Valid() && blk.fileName == old(blk.fileName)
      ensures Position() == Back(log, old(Position())) && r == RecordAt(log, BackRecord(log, old(Position())))
      ensures old(HasNextAt(Position())) && old(blk.number) >= 0 ==> blk.number >= 0
    {
      if currentrec == 0 {
        MoveToNextBlock();
      }
      currentrec := GetInt(pg, currentrec);
      r := BasicLogRecord(pg, currentrec + PTR_SIZE);
    }

    /** The iterator never removes a record: the call always fails and changes nothing. */
    method Remove() returns (r: Outcome<string>)
      ensures r.Fail?
    {
      r := Fail("unsupported operation");
    }

    /** Moves to the end of the previous block: its page is read and the cursor is at its header's pair. */
    method MoveToNextBlock()
      modifies this`blk, this`pg, this`currentrec
      ensures blk == Block(old(blk.fileName), old(blk.number) - 1) && Valid()
      ensures currentrec == LastRec(log, blk.number)
    {
      blk := Block(blk.fileName, blk.number - 1);
      pg := ReadBlock(log, blk.number);
      currentrec := GetInt(pg, LAST_POS);
    }

    /** Moves one record forward and returns it. */
    method NextForward() returns (r: BasicLogRecord)
      requires Valid()
      modifies this`blk, this`pg, this`currentrec
      ensures Valid() && blk.fileName == old(blk.fileName)
      ensures Position() == Forward(log, old(Position())) && r == RecordAt(log, ForwardRecord(log, old(Position())))
    {
      if currentrec == GetInt(pg, LAST_POS) {
        MoveToNextForwardBlock();
      }
      currentrec := GetInt(pg, currentrec + INT_SIZE);
      r := BasicLogRecord(pg, GetInt(pg, currentrec) + PTR_SIZE);
    }

    /** Moves to the start of the next block: its page is read and the cursor is at `LAST_POS`. */
    method MoveToNextForwardBlock()
      modifies this`blk, this`pg, this`currentrec
      ensures blk == Block(old(blk.fileName), old(blk.number) + 1) && Valid()
      ensures currentrec == LAST_POS
    {
      blk := Block(blk.fileName, blk.number + 1);
      pg := ReadBlock(log, blk.number);
      currentrec := LAST_POS;
    }

    /** Whether there is a later record; the file size is the number of pages of the log. */
    method HasNextForward() returns (r: bool)
      requires Valid()
      ensures r == HasNextForwardAt(log, Position())
    {
      r := currentrec < GetInt(pg, LAST_POS) || blk.number < |log| - 1;
    }
  }
  /**
   * Block page `p` chains pointer pairs at the offsets `ps`: the first at
   * `LAST_POS`, the header naming the last, every other pair strictly after
   * the first and strictly before the last, each later pair's back-pointer
   * naming the pair before it, and each pair but the last holding a forward
   * pointer to the pair after it. Each pair but the last is followed by a
   * record.
   */
  ghost predicate Chained(p: Page, ps: seq<int>)
  {
    && |ps| > 0 && ps[0] == LAST_POS
    && GetInt(p, LAST_POS) == ps[|ps| - 1]
    && (forall i :: 0 < i < |ps| ==> ps[0] < ps[i])
    && (forall i :: 0 <= i < |ps| - 1 ==> ps[i] < ps[|ps| - 1])
    && (forall i {:trigger GetInt(p, ps[i])} :: 0 < i < |ps| ==> GetInt(p, ps[i]) == ps[i - 1])
    && (forall i {:trigger ForwardPointer(p, ps[i])} :: 0 <= i < |ps| - 1 ==> ForwardPointer(p, ps[i]) == ps[i + 1])
  }

  /** Every block of the log is chained by its entry of `chains` and holds at least one record. */
  ghost predicate WellFormed(log: seq<Page>, chains: seq<seq<int>>)
  {
    && |log| > 0 && |chains| == |log|
    && (forall n :: 0 <= n < |chains| ==> |chains[n]| > 1)
    && (forall n {:trigger Chained(log[n], chains[n])} :: 0 <= n < |log| ==> Chained(log[n], chains[n]))
  }

  /** The records of a chained block in log order: the values after each pair but the last. */
  function BlockRecords(n: int, ps: seq<int>): (r: seq<RecordLoc>)
    requires |ps| > 0
    ensures |r| == |ps| - 1
    ensures forall i :: 0 <= i < |r| ==> r[i] == RecordLoc(n, ps[i] + PTR_SIZE)
  {
    seq(|ps| - 1, i requires 0 <= i < |ps| - 1 => RecordLoc(n, ps[i] + PTR_SIZE))
  }

  /** The records of blocks 0 .. n-1, in log order. */
  function RecordsUpTo(chains: seq<seq<int>>, n: nat): seq<RecordLoc>
    requires n <= |chains|
    requires forall m :: 0 <= m < |chains| ==> |chains[m]| > 0
  {
    if n == 0 then [] else RecordsUpTo(chains, n - 1) + BlockRecords(n - 1, chains[n - 1])
  }

  /** `s` last element first. */
  function Reverse<T>(s: seq<T>): (r: seq<T>)
    ensures |r| == |s|
  {
    if s == [] then [] else [s[|s| - 1]] + Reverse(s[..|s| - 1])
  }

  /** Reversing a concatenation reverses and swaps its parts. */
  lemma {:induction false} ReverseAppend<T>(a: seq<T>, b: seq<T>)
    ensures Reverse(a + b) == Reverse(b) + Reverse(a)
  {
    if b == [] {
      assert a + b == a;
    } else {
      assert (a + b)[..|a + b| - 1] == a + b[..|b| - 1];
      ReverseAppend(a, b[..|b| - 1]);
    }
  }

  /** `rs` followed by the records of `rest`, ending where `rest` ends. */
  function Then(rs: seq<RecordLoc>, rest: (seq<RecordLoc>, Cursor)): (seq<RecordLoc>, Cursor)
  {
    (rs + rest.0, rest.1)
  }

  /**
   * The records returned by stepping back from `c` while there is an earlier
   * record, at most `fuel` times, and the position where that stops.
   */
  function BackDrain(log: seq<Page>, c: Cursor, fuel: nat): (seq<RecordLoc>, Cursor)
    decreases fuel
  {
    if fuel == 0 || !HasNextAt(c) then ([], c)
    else Then([BackRecord(log, c)], BackDrain(log, Back(log, c), fuel - 1))
  }

  /**
   * The records returned by stepping forward from `c` while there is a later
   * record, at most `fuel` times, and the position where that stops.
   */
  function ForwardDrain(log: seq<Page>, c: Cursor, fuel: nat): (seq<RecordLoc>, Cursor)
    decreases fuel
  {
    if fuel == 0 || !HasNextForwardAt(log, c) then ([], c)
    else Then([ForwardRecord(log, c)], ForwardDrain(log, Forward(log, c), fuel - 1))
  }

  /** Prefixing records to a drain and then more records is prefixing their concatenation. */
  lemma ThenAssoc(a: seq<RecordLoc>, b: seq<RecordLoc>, d: (seq<RecordLoc>, Cursor))
    ensures Then(a, Then(b, d)) == Then(a + b, d)
  {
    assert a + (b + d.0) == (a + b) + d.0;
  }

  /** One step back inside a chained block moves to the previous pair and returns the record after it. */
  lemma BackStep(log: seq<Page>, chains: seq<seq<int>>, n: nat, i: nat, fuel: nat)
    requires WellFormed(log, chains) && n < |log| && 0 < i < |chains[n]| && 0 < fuel
    ensures BackDrain(log, Cursor(n, chains[n][i]), fuel)
         == Then([BlockRecords(n, chains[n])[i - 1]], BackDrain(log, Cursor(n, chains[n][i - 1]), fuel - 1))
  {
    var ps := chains[n];
    assert Chained(log[n], ps);
    assert ps[i] > ps[0];
  }

  /** Stepping back from the `i`-th pair of a block returns its first `i` records, last first, and reaches its start. */
  lemma {:induction false} BackInBlock(log: seq<Page>, chains: seq<seq<int>>, n: nat, i: nat, fuel: nat)
    requires WellFormed(log, chains) && n < |log| && i < |chains[n]| && i <= fuel
    ensures BackDrain(log, Cursor(n, chains[n][i]), fuel)
         == Then(Reverse(BlockRecords(n, chains[n])[..i]), BackDrain(log, Cursor(n, LAST_POS), fuel - i))
  {
    var rs := BlockRecords(n, chains[n]);
    var rest := BackDrain(log, Cursor(n, LAST_POS), fuel - i);
    if i > 0 {
      BackStep(log, chains, n, i, fuel);
      BackInBlock(log, chains, n, i - 1, fuel - 1);
      ThenAssoc([rs[i - 1]], Reverse(rs[..i - 1]), rest);
      assert rs[..i][..i - 1] == rs[..i - 1];
    } else {
      assert Chained(log[n], chains[n]);
      assert Reverse(rs[..0]) + rest.0 == rest.0;
    }
  }

  /** The start of a block and the end of the block before it step back alike. */
  lemma BackSeam(log: seq<Page>, chains: seq<seq<int>>, n: nat, fuel: nat)
    requires WellFormed(log, chains) && 0 < n < |log| && fuel > 0
    ensures BackDrain(log, Cursor(n, LAST_POS), fuel) == BackDrain(log, Cursor(n - 1, LastRec(log, n - 1)), fuel)
  {
    var ps := chains[n - 1];
    assert Chained(log[n - 1], ps);
    assert ps[|ps| - 1] > ps[0];
  }

  /** Stepping back from the last pair of a block returns all its records, last first, and reaches its start. */
  lemma BackThroughBlock(log: seq<Page>, chains: seq<seq<int>>, n: nat, fuel: nat)
    requires WellFormed(log, chains) && n < |log| && |chains[n]| - 1 <= fuel
    ensures BackDrain(log, Cursor(n, LastRec(log, n)), fuel)
         == Then(Reverse(BlockRecords(n, chains[n])), BackDrain(log, Cursor(n, LAST_POS), fuel - (|chains[n]| - 1)))
  {
    var last := |chains[n]| - 1;
    assert Chained(log[n], chains[n]);
    BackInBlock(log, chains, n, last, fuel);
    assert BlockRecords(n, chains[n])[..last] == BlockRecords(n, chains[n]);
  }

  /** A drain that returns `rs` reversed and then `before` reversed returns `before + rs` reversed. */
  lemma JoinBack(whole: (seq<RecordLoc>, Cursor), rs: seq<RecordLoc>, rest: (seq<RecordLoc>, Cursor), before: seq<RecordLoc>)
    requires whole == Then(Reverse(rs), rest) && rest.0 == Reverse(before)
    ensures whole == (Reverse(before + rs), rest.1)
  {
    ReverseAppend(before, rs);
  }

  /** From the last pair of block 0, stepping back returns its records, last first, and stops at its start. */
  lemma BackFirstBlock(log: seq<Page>, chains: seq<seq<int>>, fuel: nat)
    requires WellFormed(log, chains) && fuel >= |RecordsUpTo(chains, 1)|
    ensures BackDrain(log, Cursor(0, LastRec(log, 0)), fuel)
         == (Reverse(RecordsUpTo(chains, 1)), Cursor(0, LAST_POS))
  {
    var rs := BlockRecords(0, chains[0]);
    assert RecordsUpTo(chains, 1) == rs;
    BackThroughBlock(log, chains, 0, fuel);
    assert BackDrain(log, Cursor(0, LAST_POS), fuel - |rs|) == ([], Cursor(0, LAST_POS));
    assert Reverse(rs) + [] == Reverse(rs);
  }

  /**
   * From the last pair of block `n`, stepping back while there is an earlier
   * record returns every record of blocks 0 .. n, newest first, and stops at
   * the start of block 0.
   */
  lemma {:induction false} BackToStart(log: seq<Page>, chains: seq<seq<int>>, n: nat, fuel: nat)
    requires WellFormed(log, chains) && n < |log| && fuel >= |RecordsUpTo(chains, n + 1)|
    ensures BackDrain(log, Cursor(n, LastRec(log, n)), fuel)
         == (Reverse(RecordsUpTo(chains, n + 1)), Cursor(0, LAST_POS))
  {
    if n == 0 {
      BackFirstBlock(log, chains, fuel);
    } else {
      var rs := BlockRecords(n, chains[n]);
      var before := RecordsUpTo(chains, n);
      var rest := fuel - |rs|;
      BackThroughBlock(log, chains, n, fuel);
      assert |before| >= |BlockRecords(n - 1, chains[n - 1])| > 0;
      BackSeam(log, chains, n, rest);
      BackToStart(log, chains, n - 1, rest);
      JoinBack(BackDrain(log, Cursor(n, LastRec(log, n)), fuel), rs, BackDrain(log, Cursor(n, LAST_POS), rest), before);
    }
  }

  /** One step forward inside a chained block moves to the next pair and returns the record before it. */
  lemma ForwardStep(log: seq<Page>, chains: seq<seq<int>>, n: nat, i: nat, fuel: nat)
    requires WellFormed(log, chains) && n < |log| && i < |chains[n]| - 1 && 0 < fuel
    ensures ForwardDrain(log, Cursor(n, chains[n][i]), fuel)
         == Then([BlockRecords(n, chains[n])[i]], ForwardDrain(log, Cursor(n, chains[n][i + 1]), fuel - 1))
  {
    var ps := chains[n];
    assert Chained(log[n], ps);
    assert ps[i] < ps[|ps| - 1];
  }

  /** Stepping forward from the `i`-th pair of a block returns its records from the `i`-th on and reaches its last pair. */
  lemma {:induction false} ForwardInBlock(log: seq<Page>, chains: seq<seq<int>>, n: nat, i: nat, fuel: nat)
    requires WellFormed(log, chains) && n < |log| && i < |chains[n]| && |chains[n]| - 1 - i <= fuel
    ensures ForwardDrain(log, Cursor(n, chains[n][i]), fuel)
         == Then(BlockRecords(n, chains[n])[i..],
                 ForwardDrain(log, Cursor(n, LastRec(log, n)), fuel - (|chains[n]| - 1 - i)))
    decreases |chains[n]| - i
  {
    var ps := chains[n];
    var rs := BlockRecords(n, ps);
    var rest := ForwardDrain(log, Cursor(n, LastRec(log, n)), fuel - (|ps| - 1 - i));
    if i < |ps| - 1 {
      ForwardStep(log, chains, n, i, fuel);
      ForwardInBlock(log, chains, n, i + 1, fuel - 1);
      ThenAssoc([rs[i]], rs[i + 1..], rest);
      assert rs[i..] == [rs[i]] + rs[i + 1..];
    } else {
      assert Chained(log[n], ps);
      assert rs[i..] + rest.0 == rest.0;
    }
  }

  /** The end of a block and the start of the block after it step forward alike. */
  lemma ForwardSeam(log: seq<Page>, chains: seq<seq<int>>, n: nat, fuel: nat)
    requires WellFormed(log, chains) && n + 1 < |log| && fuel > 0
    ensures ForwardDrain(log, Cursor(n, LastRec(log, n)), fuel) == ForwardDrain(log, Cursor(n + 1, LAST_POS), fuel)
  {
    var ps := chains[n + 1];
    assert Chained(log[n + 1], ps);
    assert ps[|ps| - 1] > ps[0];
  }

  /** Stepping forward from the start of a block returns all its records and reaches its last pair. */
  lemma ForwardThroughBlock(log: seq<Page>, chains: seq<seq<int>>, n: nat, fuel: nat)
    requires WellFormed(log, chains) && n < |log| && |chains[n]| - 1 <= fuel
    ensures ForwardDrain(log, Cursor(n, LAST_POS), fuel)
         == Then(BlockRecords(n, chains[n]), ForwardDrain(log, Cursor(n, LastRec(log, n)), fuel - (|chains[n]| - 1)))
  {
    assert Chained(log[n], chains[n]);
    ForwardInBlock(log, chains, n, 0, fuel);
    assert BlockRecords(n, chains[n])[0..] == BlockRecords(n, chains[n]);
  }

  /** From the start of block 0, stepping forward returns its records and goes on from its last pair. */
  lemma ForwardFirstBlock(log: seq<Page>, chains: seq<seq<int>>, fuel: nat)
    requires WellFormed(log, chains) && fuel >= |RecordsUpTo(chains, 1)|
    ensures ForwardDrain(log, Cursor(0, LAST_POS), fuel)
         == Then(RecordsUpTo(chains, 1), ForwardDrain(log, Cursor(0, LastRec(log, 0)), fuel - |RecordsUpTo(chains, 1)|))
  {
    assert RecordsUpTo(chains, 1) == BlockRecords(0, chains[0]);
    ForwardThroughBlock(log, chains, 0, fuel);
  }

  /**
   * From the start of block 0, stepping forward returns the records of
   * blocks 0 .. n in log order and then goes on from the last pair of block n.
   */
  lemma {:induction false} ForwardFromStart(log: seq<Page>, chains: seq<seq<int>>, n: nat, fuel: nat)
    requires WellFormed(log, chains) && n < |log| && fuel >= |RecordsUpTo(chains, n + 1)|
    ensures ForwardDrain(log, Cursor(0, LAST_POS), fuel)
         == Then(RecordsUpTo(chains, n + 1),
                 ForwardDrain(log, Cursor(n, LastRec(log, n)), fuel - |RecordsUpTo(chains, n + 1)|))
  {
    if n == 0 {
      ForwardFirstBlock(log, chains, fuel);
    } else {
      var rs := BlockRecords(n, chains[n]);
      var before := RecordsUpTo(chains, n);
      ForwardFromStart(log, chains, n - 1, fuel);
      var rest := fuel - |before|;
      ForwardSeam(log, chains, n - 1, rest);
      ForwardThroughBlock(log, chains, n, rest);
      ThenAssoc(before, rs, ForwardDrain(log, Cursor(n, LastRec(log, n)), rest - |rs|));
    }
  }

  /**
   * In a well-formed log, the record a step forward returns is the record a
   * step back from the new position returns, and that step back lands where
   * the forward step started (or, across a block boundary, at the start of
   * the new block).
   */
  lemma ForwardThenBack(log: seq<Page>, chains: seq<seq<int>>, n: nat, i: nat)
    requires WellFormed(log, chains) && n < |log| && i < |chains[n]|
    requires HasNextForwardAt(log, Cursor(n, chains[n][i]))
    ensures ForwardRecord(log, Cursor(n, chains[n][i])) == BackRecord(log, Forward(log, Cursor(n, chains[n][i])))
    ensures Back(log, Forward(log, Cursor(n, chains[n][i])))
         == if i < |chains[n]| - 1 then Cursor(n, chains[n][i]) else Cursor(n + 1, LAST_POS)
  {
    var ps := chains[n];
    assert Chained(log[n], ps);
    if i < |ps| - 1 {
      assert ps[i] < ps[|ps| - 1] && ps[i + 1] > ps[0];
    } else {
      var qs := chains[n + 1];
      assert Chained(log[n + 1], qs);
      assert qs[1] > qs[0];
    }
  }

  /**
   * A well-formed log read backwards from the end of its last block, while
   * there is an earlier record, yields every record newest first and stops
   * at the start of block 0; read forwards from there, while there is a
   * later record, it yields every record in log order and stops at the last.
   */
  lemma ReadWholeLog(log: seq<Page>, chains: seq<seq<int>>, fuel: nat)
    requires WellFormed(log, chains) && fuel >= |RecordsUpTo(chains, |log|)|
    ensures BackDrain(log, Cursor(|log| - 1, LastRec(log, |log| - 1)), fuel)
         == (Reverse(RecordsUpTo(chains, |log|)), Cursor(0, LAST_POS))
    ensures ForwardDrain(log, Cursor(0, LAST_POS), fuel)
         == (RecordsUpTo(chains, |log|), Cursor(|log| - 1, LastRec(log, |log| - 1)))
  {
    var all := RecordsUpTo(chains, |log|);
    var end := Cursor(|log| - 1, LastRec(log, |log| - 1));
    BackToStart(log, chains, |log| - 1, fuel);
    ForwardFromStart(log, chains, |log| - 1, fuel);
    assert !HasNextForwardAt(log, end);
    assert ForwardDrain(log, end, fuel - |all|) == ([], end);
    assert all + [] == all;
  }
}
