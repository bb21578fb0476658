/**
 * The buffer pool manager: a fixed array of frames, a block-to-buffer map,
 * the count of unpinned frames and the FIFO order in which frames are
 * considered as replacement victims.
 */
module Buffers {
  import opened Wrappers
  import opened Storage

  /**
   * One frame of the pool. Only the state the pool manager and the log
   * records touch is kept; each operation is the field update it performs.
   */
  class Buffer {
    var contents: Page
    var blk: Option<Block>
    var pins: int
    var modifiedBy: int
    var logSequenceNumber: int

    /** A fresh frame: no block, not pinned, not modified. */
    constructor ()
      ensures contents == map[] && blk == None && pins == 0
      ensures modifiedBy == -1 && logSequenceNumber == -1
    {
      contents := map[];
      blk := None;
      pins := 0;
      modifiedBy := -1;
      logSequenceNumber := -1;
    }

    predicate IsPinned()
      reads this
    {
      pins > 0
    }

    predicate IsModifiedBy(txnum: int)
      reads this
    {
      txnum == modifiedBy
    }

    method Pin()
      modifies this`pins
      ensures pins == old(pins) + 1
    {
      pins := pins + 1;
    }

    method Unpin()
      modifies this`pins
      ensures pins == old(pins) - 1
    {
      pins := pins - 1;
    }

    /** Writes a string into the page, recording the modifying transaction and, unless negative, the LSN. */
    method SetString(offset: int, val: string, txnum: int, lsn: int)
      modifies this`contents, this`modifiedBy, this`logSequenceNumber
      ensures contents == old(contents)[offset := StrVal(val)]
      ensures modifiedBy == txnum
      ensures logSequenceNumber == if lsn >= 0 then lsn else old(logSequenceNumber)
    {
      modifiedBy := txnum;
      if lsn >= 0 {
        logSequenceNumber := lsn;
      }
      contents := contents[offset := StrVal(val)];
    }

    /** Writes the page back to its block (the write itself is I/O) and clears the modification mark. */
    method Flush()
      modifies this`modifiedBy
      ensures modifiedBy == -1
    {
      modifiedBy := -1;
    }

    /** Flushes, then takes `b` over with a freshly read page and no pins. */
    method AssignToBlock(b: Block)
      modifies this`modifiedBy, this`blk, this`contents, this`pins
      ensures blk == Some(b) && contents == map[] && pins == 0 && modifiedBy == -1
    {
      Flush();
      blk := Some(b);
      contents := map[];
      pins := 0;
    }

    /** Flushes, then takes a newly allocated block over, its page formatted as `formatted`. */
    method AssignToNew(b: Block, formatted: Page)
      modifies this`modifiedBy, this`blk, this`contents, this`pins
      ensures blk == Some(b) && contents == formatted && pins == 0 && modifiedBy == -1
    {
      Flush();
      blk := Some(b);
      contents := formatted;
      pins := 0;
    }
  }

  /** The number of unpinned entries (pin count not above zero) in a sequence of pin counts. */
  function CountUnpinned(pins: seq<int>): (n: nat)
    ensures n <= |pins|
  {
    if pins == [] then 0 else (if pins[0] > 0 then 0 else 1) + CountUnpinned(pins[1..])
  }

  /** Changing one pin count moves the unpinned count by the change in that entry's status only. */
  lemma {:induction false} CountUnpinnedUpdate(pins: seq<int>, i: int, v: int)
    requires 0 <= i < |pins|
    ensures CountUnpinned(pins[i := v])
         == CountUnpinned(pins) - (if pins[i] > 0 then 0 else 1) + (if v > 0 then 0 else 1)
  {
    if i == 0 {
      assert pins[i := v][1..] == pins[1..];
    } else {
      assert pins[i := v][1..] == pins[1..][i - 1 := v];
      CountUnpinnedUpdate(pins[1..], i - 1, v);
    }
  }

  /** No frame is unpinned exactly when the unpinned count is zero. */
  lemma {:induction false} CountUnpinnedZero(pins: seq<int>)
    ensures CountUnpinned(pins) == 0 <==> forall i :: 0 <= i < |pins| ==> pins[i] > 0
  {
    if pins != [] {
      CountUnpinnedZero(pins[1..]);
      assert forall i :: 1 <= i < |pins| ==> pins[i] == pins[1..][i - 1];
    }
  }

  /** Every frame is unpinned exactly when the unpinned count is the pool size. */
  lemma {:induction false} CountUnpinnedAll(pins: seq<int>)
    ensures CountUnpinned(pins) == |pins| <==> forall i :: 0 <= i < |pins| ==> pins[i] <= 0
  {
    if pins != [] {
      CountUnpinnedAll(pins[1..]);
      assert forall i :: 1 <= i < |pins| ==> pins[i] == pins[1..][i - 1];
    }
  }

  /** The frame indices in allocation order, 0 first. */
  function Indices(n: nat): seq<nat>
  {
    seq(n, i => i)
  }

  /**
   * The position in `order` of the first frame that is not pinned, if any:
   * the victim of the FIFO replacement policy.
   */
  function FirstUnpinned(order: seq<nat>, pins: seq<int>): (r: Option<nat>)
    requires forall j :: 0 <= j < |order| ==> order[j] < |pins|
    ensures r.Some? ==> r.value < |order| && pins[order[r.value]] <= 0
    ensures r.Some? ==> forall j :: 0 <= j < r.value ==> pins[order[j]] > 0
    ensures r.None? <==> forall j :: 0 <= j < |order| ==> pins[order[j]] > 0
  {
    if order == [] then None
    else if pins[order[0]] <= 0 then Some(0)
    else
      match FirstUnpinned(order[1..], pins)
      case None => None
      case Some(k) => Some(k + 1)
  }

  /**
   * `order` with the entry at position `k` moved to the back: the entries
   * before and after it keep their relative order.
   */
  function MoveToBack(order: seq<nat>, k: nat): (r: seq<nat>)
    requires k < |order|
    ensures |r| == |order| && r[|r| - 1] == order[k]
    ensures forall j :: 0 <= j < k ==> r[j] == order[j]
    ensures forall j :: k <= j < |order| - 1 ==> r[j] == order[j + 1]
  {
    order[..k] + order[k + 1..] + [order[k]]
  }

  /** Moving an entry to the back permutes the order. */
  lemma MoveToBackPermutes(order: seq<nat>, k: nat)
    requires k < |order|
    ensures multiset(MoveToBack(order, k)) == multiset(order)
  {
    assert order == order[..k] + [order[k]] + order[k + 1..];
  }

  /** No entry of `s` occurs twice. */
  ghost predicate NoDuplicates(s: seq<nat>)
  {
    |s| == 0 || (s[0] !in s[1..] && NoDuplicates(s[1..]))
  }

  /** `NoDuplicates` says that distinct positions hold distinct entries. */
  lemma {:induction false} NoDuplicatesIff(s: seq<nat>)
    ensures NoDuplicates(s) <==> forall j, j' :: 0 <= j < j' < |s| ==> s[j] != s[j']
  {
    if |s| > 0 {
      NoDuplicatesIff(s[1..]);
      assert forall j :: 1 <= j < |s| ==> s[j] == s[1..][j - 1];
    }
  }

  /** `order` lists each frame index 0 .. n-1 exactly once. */
  ghost predicate IsOrdering(order: seq<nat>, n: nat)
  {
    && |order| == n
    && (forall j :: 0 <= j < |order| ==> order[j] < n)
    && NoDuplicates(order)
  }

  /** Allocation order is an ordering. */
  lemma IndicesOrdering(n: nat)
    ensures IsOrdering(Indices(n), n)
  {
    NoDuplicatesIff(Indices(n));
  }

  /** Moving one entry to the back keeps an ordering an ordering. */
  lemma {:induction false} MoveToBackKeepsOrder(order: seq<nat>, k: nat, n: nat)
    requires k < |order| && IsOrdering(order, n)
    ensures IsOrdering(MoveToBack(order, k), n)
  {
    var r := MoveToBack(order, k);
    NoDuplicatesIff(order);
    forall j, j' | 0 <= j < j' < |r| ensures r[j] != r[j'] {
      var oj := if j < k then j else j + 1;
      var oj' := if j' == |r| - 1 then k else if j' < k then j' else j' + 1;
      assert r[j] == order[oj] && r[j'] == order[oj'];
    }
    NoDuplicatesIff(r);
  }

  /** Pin counts are never negative and `n` is the number of unpinned frames. */
  ghost predicate CountConsistent(n: int, pins: seq<int>)
  {
    && (forall i :: 0 <= i < |pins| ==> pins[i] >= 0)
    && n == CountUnpinned(pins)
  }

  /**
   * The block map `m` agrees with the frames: each key `b` maps to the frame
   * at index `slots[b]`, which holds `b`, and each frame holding a block is
   * that block's entry.
   */
  ghost predicate MapConsistent(m: map<Block, Buffer>, slots: map<Block, nat>, frames: seq<Buffer>, blocks: seq<Option<Block>>)
  {
    && |frames| == |blocks|
    && m.Keys == slots.Keys
    && (forall b :: b in slots ==> slots[b] < |frames| && m[b] == frames[slots[b]] && blocks[slots[b]] == Some(b))
    && (forall i :: 0 <= i < |blocks| && blocks[i].Some? ==> blocks[i].value in slots && slots[blocks[i].value] == i)
  }

  /** `m` without the entry for `key`; with no key (a frame holding no block) `m` itself. */
  function Unmap<V>(m: map<Block, V>, key: Option<Block>): map<Block, V>
  {
    if key.Some? then m - {key.value} else m
  }

  /** Moving frame `v` from its block (if any) to the unmapped block `b` keeps the map consistent. */
  lemma RemapConsistent(m: map<Block, Buffer>, slots: map<Block, nat>, frames: seq<Buffer>,
                        blocks: seq<Option<Block>>, v: nat, b: Block)
    requires MapConsistent(m, slots, frames, blocks) && v < |frames| && b !in m
    ensures MapConsistent(Unmap(m, blocks[v])[b := frames[v]], Unmap(slots, blocks[v])[b := v],
                          frames, blocks[v := Some(b)])
  {
  }

  /** SimpleDB's basic buffer manager: the pool, its block map, its count of available frames and its FIFO order. */
  class BasicBufferMgr {
    const pool: seq<Buffer>
    var poolMap: map<Block, Buffer>
    var numAvailable: int
    var fifo: seq<nat>
    /** The index of each frame object in the pool. */
    ghost const frameIndex: map<Buffer, nat>
    /** The frame index of each mapped block. */
    ghost var slots: map<Block, nat>
    /** The pin count of each frame, by frame index. */
    ghost var pinCounts: seq<int>
    /** The block held by each frame, by frame index. */
    ghost var blocks: seq<Option<Block>>

    /** The frame objects of the pool. */
    ghost function Frames(): set<Buffer>
    {
      frameIndex.Keys
    }

    /** `frameIndex` is a bijection between the pool's frames and their positions, so frames are distinct. */
    ghost predicate FramesIndexed()
    {
      && (forall i :: 0 <= i < |pool| ==> pool[i] in frameIndex && frameIndex[pool[i]] == i)
      && (forall x :: x in frameIndex ==> frameIndex[x] < |pool| && pool[frameIndex[x]] == x)
    }

    /** `pinCounts` and `blocks` record every frame's pin count and block. */
    ghost predicate Mirrored()
      reads this`pinCounts, this`blocks, Frames()`pins, Frames()`blk
    {
      && FramesIndexed()
      && |pinCounts| == |pool| && |blocks| == |pool|
      && forall i :: 0 <= i < |pool| ==> pool[i].pins == pinCounts[i] && pool[i].blk == blocks[i]
    }

    /** The FIFO order lists every frame index exactly once. */
    ghost predicate OrderValid()
      reads this`fifo
    {
      IsOrdering(fifo, |pool|)
    }

    /** Pin counts are never negative and `numAvailable` counts the unpinned frames. */
    ghost predicate CountValid()
      reads this`numAvailable, this`pinCounts
    {
      CountConsistent(numAvailable, pinCounts)
    }

    /**
     * Every key maps to the frame (at index `slots[b]`) that holds that block,
     * and every assigned frame is the map's entry for its block.
     */
    ghost predicate MapValid()
      reads this`poolMap, this`slots, this`blocks
    {
      MapConsistent(poolMap, slots, pool, blocks)
    }

    /** The pool's invariant. */
    ghost predicate Valid()
      reads this, Frames()`pins, Frames()`blk
    {
      Mirrored() && OrderValid() && CountValid() && MapValid()
    }

    /** Two map keys never share a buffer, and two frames never hold the same block. */
    lemma Unique()
      requires Valid()
      ensures forall b, c :: b in poolMap && c in poolMap && b != c ==> poolMap[b] != poolMap[c]
      ensures forall i, j :: 0 <= i < |pool| && 0 <= j < |pool| && i != j && pool[i].blk.Some? ==>
                pool[i].blk != pool[j].blk
    {
    }

    /** A pool of `numbuffs` fresh frames, all available, in allocation order, with no mapping. */
    constructor (numbuffs: nat)
      ensures Valid() && fresh(Frames())
      ensures |pool| == numbuffs && numAvailable == numbuffs
      ensures fifo == Indices(numbuffs) && poolMap == map[]
      ensures forall i :: 0 <= i < numbuffs ==>
                pool[i].blk == None && pool[i].pins == 0 && pool[i].modifiedBy == -1 && pool[i].contents == map[]
    {
      var frames: seq<Buffer> := [];
      ghost var index: map<Buffer, nat> := map[];
      var order: seq<nat> := [];
      var i := 0;
      while i < numbuffs
        invariant 0 <= i <= numbuffs
        invariant |frames| == i && order == Indices(i)
        invariant forall j :: 0 <= j < i ==> fresh(frames[j])
        invariant forall j :: 0 <= j < i ==>
                    frames[j].blk == None && frames[j].pins == 0 && frames[j].modifiedBy == -1 && frames[j].contents == map[]
        invariant forall j :: 0 <= j < i ==> frames[j] in index && index[frames[j]] == j
        invariant forall x :: x in index ==> index[x] < i && frames[index[x]] == x
      {
        var b := new Buffer();
        frames := frames + [b];
        index := index[b := i];
        order := order + [i];
        i := i + 1;
      }
      pool := frames;
      frameIndex := index;
      numAvailable := numbuffs;
      fifo := order;
      poolMap := map[];
      slots := map[];
      pinCounts := seq(numbuffs, _ => 0);
      blocks := seq(numbuffs, _ => None);
      new;
      IndicesOrdering(numbuffs);
      CountUnpinnedAll(pinCounts);
    }

    /** The number of unpinned frames. */
    method Available() returns (n: int)
      requires Valid()
      ensures n == CountUnpinned(pinCounts)
      ensures n == 0 <==> forall i :: 0 <= i < |pool| ==> pool[i].IsPinned()
    {
      CountUnpinnedZero(pinCounts);
      n := numAvailable;
    }

    /** Whether some buffer is mapped to `b`: exactly when some frame holds `b`. */
    method ContainsMapping(b: Block) returns (r: bool)
      requires Valid()
      ensures r == (b in poolMap)
      ensures r <==> exists i :: 0 <= i < |pool| && pool[i].blk == Some(b)
    {
      r := b in poolMap;
      if r {
        assert pool[slots[b]].blk == Some(b);
      }
    }

    /** The buffer mapped to `b`, which is the frame holding `b`; `None` when no frame holds it. */
    method GetMapping(b: Block) returns (r: Option<Buffer>)
      requires Valid()
      ensures r.Some? <==> b in poolMap
      ensures r.Some? ==> r.value in Frames() && r.value.blk == Some(b) && r.value == poolMap[b]
      ensures r.None? ==> forall i :: 0 <= i < |pool| ==> pool[i].blk != Some(b)
    {
      if b in poolMap {
        r := Some(poolMap[b]);
      } else {
        r := None;
      }
    }

    /** The buffer already assigned to `b`, if any. */
    method FindExistingBuffer(b: Block) returns (r: Option<Buffer>)
      requires Valid()
      ensures r.Some? <==> b in poolMap
      ensures r.Some? ==> r.value in Frames() && r.value.blk == Some(b) && r.value == poolMap[b]
      ensures r.None? ==> forall i :: 0 <= i < |pool| ==> pool[i].blk != Some(b)
    {
      var present := ContainsMapping(b);
      if present {
        r := Some(poolMap[b]);
      } else {
        r := None;
      }
    }

    /**
     * FIFO victim choice: the first frame in `fifo` that is not pinned, whose
     * index then moves to the back; with no such frame, `None` and `fifo` as it was.
     */
    method ChooseUnpinnedBuffer() returns (r: Option<Buffer>)
      requires Valid()
      modifies this`fifo
      ensures Valid()
      ensures FirstUnpinned(old(fifo), pinCounts).None? ==> r == None && fifo == old(fifo)
      ensures FirstUnpinned(old(fifo), pinCounts).Some? ==>
                var k := FirstUnpinned(old(fifo), pinCounts).value;
                r == Some(pool[old(fifo)[k]]) && fifo == MoveToBack(old(fifo), k)
    {
      var k := 0;
      while k < |fifo|
        invariant 0 <= k <= |fifo|
        invariant forall j :: 0 <= j < k ==> pool[fifo[j]].pins > 0
      {
        var id := fifo[k];
        if !pool[id].IsPinned() {
          Requeue(k);
          return Some(pool[id]);
        }
        k := k + 1;
      }
      return None;
    }

    /** Moves the FIFO entry at position `k` to the back, keeping the invariant. */
    method Requeue(k: nat)
      requires Valid() && k < |fifo|
      modifies this`fifo
      ensures Valid() && fifo == MoveToBack(old(fifo), k)
    {
      MoveToBackKeepsOrder(fifo, k, |pool|);
      fifo := MoveToBack(fifo, k);
    }

    /**
     * Re-assigns the unpinned frame `buff` (at index `v`) to the unmapped block
     * `b`: its previous block leaves the map and `b` maps to it. The page is
     * read from disk when `formatted` is `None` and is the formatted page of a
     * newly allocated block otherwise.
     */
    method Reassign(buff: Buffer, ghost v: nat, b: Block, formatted: Option<Page>)
      requires Valid() && v < |pool| && pool[v] == buff && buff.pins == 0 && b !in poolMap
      modifies this`poolMap, this`slots, this`blocks, buff
      ensures Valid()
      ensures poolMap == Unmap(old(poolMap), old(buff.blk))[b := buff]
      ensures blocks == old(blocks)[v := Some(b)]
      ensures buff.blk == Some(b) && buff.pins == 0 && buff.modifiedBy == -1
      ensures buff.contents == (if formatted.Some? then formatted.value else map[])
      ensures buff.logSequenceNumber == old(buff.logSequenceNumber)
    {
      RemapConsistent(poolMap, slots, pool, blocks, v, b);
      assert forall i :: 0 <= i < |pool| && i != v ==> pool[i] != buff;
      var m := Unmap(poolMap, buff.blk);
      ghost var sl := Unmap(slots, buff.blk);
      match formatted {
        case None => buff.AssignToBlock(b);
        case Some(page) => buff.AssignToNew(b, page);
      }
      poolMap, slots, blocks := m[b := buff], sl[b := v], blocks[v := Some(b)];
    }

    /** Adds a pin to the frame `buff` (at index `i`); it stops being available if it was unpinned. */
    method PinFrame(buff: Buffer, ghost i: nat)
      requires Valid() && i < |pool| && pool[i] == buff
      modifies this`numAvailable, this`pinCounts, buff`pins
      ensures Valid()
      ensures buff.pins == old(buff.pins) + 1 && pinCounts == old(pinCounts)[i := old(pinCounts)[i] + 1]
      ensures numAvailable == old(numAvailable) - (if old(buff.pins) == 0 then 1 else 0)
    {
      CountUnpinnedUpdate(pinCounts, i, pinCounts[i] + 1);
      if !buff.IsPinned() {
        numAvailable := numAvailable - 1;
      }
      buff.Pin();
      pinCounts := pinCounts[i := pinCounts[i] + 1];
    }

    /**
     * Pins the FIFO victim to the unmapped block `b` (read from disk when
     * `formatted` is `None`, formatted as given otherwise); `None` when every
     * frame is pinned.
     */
    method PinVictim(b: Block, formatted: Option<Page>) returns (r: Option<Buffer>)
      requires Valid() && b !in poolMap
      modifies this, Frames()
      ensures Valid()
      ensures old(FirstUnpinned(fifo, pinCounts)).None? ==>
                && r == None && poolMap == old(poolMap) && fifo == old(fifo) && numAvailable == old(numAvailable)
                && pinCounts == old(pinCounts) && blocks == old(blocks)
      ensures old(FirstUnpinned(fifo, pinCounts)).Some? ==>
                var k := old(FirstUnpinned(fifo, pinCounts)).value;
                && r == Some(pool[old(fifo)[k]])
                && fifo == MoveToBack(old(fifo), k)
                && poolMap == Unmap(old(poolMap), old(r.value.blk))[b := r.value]
                && r.value.blk == Some(b) && r.value.pins == 1 && r.value.modifiedBy == -1
                && r.value.contents == (if formatted.Some? then formatted.value else map[])
                && r.value.logSequenceNumber == old(r.value.logSequenceNumber)
                && numAvailable == old(numAvailable) - 1
                && pinCounts == old(pinCounts)[old(fifo)[k] := 1]
                && blocks == old(blocks)[old(fifo)[k] := Some(b)]
      ensures forall i :: 0 <= i < |pool| && r != Some(pool[i]) ==> unchanged(pool[i])
    {
      ghost var first := FirstUnpinned(fifo, pinCounts);
      var chosen := ChooseUnpinnedBuffer();
      assert pinCounts == old(pinCounts);
      if chosen.None? {
        return None;
      }
      assert first.Some?;
      var buff := chosen.value;
      ghost var v := old(fifo)[first.value];
      assert buff.blk == old(buff.blk) && pinCounts[v] == 0;
      Reassign(buff, v, b, formatted);
      PinFrame(buff, v);
      r := Some(buff);
    }

    /**
     * Pins a buffer to `b`: the buffer already holding `b` if there is one,
     * otherwise the FIFO victim, re-assigned to `b`; `None` when `b` is not
     * resident and every frame is pinned.
     */
    method Pin(b: Block) returns (r: Option<Buffer>)
      requires Valid()
      modifies this, Frames()
      ensures Valid()
      ensures r.Some? ==> r.value in Frames() && r.value.blk == Some(b) && b in poolMap && poolMap[b] == r.value
      ensures r.Some? ==> r.value.logSequenceNumber == old(r.value.logSequenceNumber)
      ensures old(b in poolMap) ==>
                && r == Some(old(poolMap[b])) && poolMap == old(poolMap) && fifo == old(fifo)
                && r.value.contents == old(r.value.contents) && r.value.modifiedBy == old(r.value.modifiedBy)
                && r.value.pins == old(r.value.pins) + 1
                && numAvailable == old(numAvailable) - (if old(r.value.pins) == 0 then 1 else 0)
                && pinCounts == old(pinCounts)[old(slots[b]) := old(pinCounts[slots[b]]) + 1]
                && blocks == old(blocks)
      ensures old(b !in poolMap) && old(FirstUnpinned(fifo, pinCounts)).None? ==>
                && r == None && poolMap == old(poolMap) && fifo == old(fifo) && numAvailable == old(numAvailable)
                && pinCounts == old(pinCounts) && blocks == old(blocks)
      ensures old(b !in poolMap) && old(FirstUnpinned(fifo, pinCounts)).Some? ==>
                var k := old(FirstUnpinned(fifo, pinCounts)).value;
                && r == Some(pool[old(fifo)[k]])
                && fifo == MoveToBack(old(fifo), k)
                && poolMap == Unmap(old(poolMap), old(r.value.blk))[b := r.value]
                && r.value.contents == map[] && r.value.modifiedBy == -1 && r.value.pins == 1
                && numAvailable == old(numAvailable) - 1
                && pinCounts == old(pinCounts)[old(fifo)[k] := 1]
                && blocks == old(blocks)[old(fifo)[k] := Some(b)]
      ensures forall i :: 0 <= i < |pool| && r != Some(pool[i]) ==> unchanged(pool[i])
    {
      var existing := FindExistingBuffer(b);
      if existing.Some? {
        var buff := PinMapped(b);
        return Some(buff);
      }
      r := PinVictim(b, None);
    }

    /** Adds a pin to the buffer already assigned to `b`; nothing else about the pool changes. */
    method PinMapped(b: Block) returns (r: Buffer)
      requires Valid() && b in poolMap
      modifies this`numAvailable, this`pinCounts, Frames()`pins
      ensures Valid() && r == poolMap[b] && r.pins == old(r.pins) + 1
      ensures numAvailable == old(numAvailable) - (if old(r.pins) == 0 then 1 else 0)
      ensures pinCounts == old(pinCounts)[slots[b] := old(pinCounts[slots[b]]) + 1]
    {
      r := poolMap[b];
      PinFrame(r, slots[b]);
    }

    /**
     * Allocates a new block (its number and formatted page come from the file
     * layer) and pins the FIFO victim to it; `None` when every frame is pinned.
     */
    method PinNew(filename: string, newNumber: int, formatted: Page) returns (r: Option<Buffer>)
      requires Valid()
      requires Block(filename, newNumber) !in poolMap
      modifies this, Frames()
      ensures Valid()
      ensures old(FirstUnpinned(fifo, pinCounts)).None? ==>
                r == None && poolMap == old(poolMap) && fifo == old(fifo) && numAvailable == old(numAvailable)
      ensures old(FirstUnpinned(fifo, pinCounts)).Some? ==>
                var k := old(FirstUnpinned(fifo, pinCounts)).value;
                && r == Some(pool[old(fifo)[k]])
                && fifo == MoveToBack(old(fifo), k)
                && poolMap == Unmap(old(poolMap), old(r.value.blk))[Block(filename, newNumber) := r.value]
                && r.value.blk == Some(Block(filename, newNumber))
                && r.value.contents == formatted && r.value.modifiedBy == -1 && r.value.pins == 1
                && r.value.logSequenceNumber == old(r.value.logSequenceNumber)
                && numAvailable == old(numAvailable) - 1
      ensures forall i :: 0 <= i < |pool| && r != Some(pool[i]) ==> unchanged(pool[i])
    {
      r := PinVictim(Block(filename, newNumber), Some(formatted));
    }

    /** Releases one pin on a pinned frame; the frame becomes available when its count reaches zero. */
    method Unpin(buff: Buffer)
      requires Valid() && buff in Frames() && buff.pins > 0
      modifies this`numAvailable, this`pinCounts, buff`pins
      ensures Valid()
      ensures buff.pins == old(buff.pins) - 1
      ensures numAvailable == old(numAvailable) + (if buff.pins == 0 then 1 else 0)
      ensures pinCounts == old(pinCounts)[frameIndex[buff] := old(pinCounts[frameIndex[buff]]) - 1]
    {
      ghost var i := frameIndex[buff];
      CountUnpinnedUpdate(pinCounts, i, pinCounts[i] - 1);
      buff.Unpin();
      if !buff.IsPinned() {
        numAvailable := numAvailable + 1;
      }
      pinCounts := pinCounts[i := pinCounts[i] - 1];
    }

    /** Flushes exactly the frames last modified by `txnum`; nothing else changes. */
    method FlushAll(txnum: int)
      requires Valid()
      modifies Frames()
      ensures Valid()
      ensures forall i :: 0 <= i < |pool| ==>
                pool[i].modifiedBy == (if old(pool[i].modifiedBy) == txnum then -1 else old(pool[i].modifiedBy))
      ensures forall i :: 0 <= i < |pool| ==>
                && pool[i].pins == old(pool[i].pins) && pool[i].blk == old(pool[i].blk)
                && pool[i].contents == old(pool[i].contents)
                && pool[i].logSequenceNumber == old(pool[i].logSequenceNumber)
    {
      var i := 0;
      while i < |pool|
        invariant 0 <= i <= |pool|
        invariant forall j :: 0 <= j < i ==>
                    pool[j].modifiedBy == (if old(pool[j].modifiedBy) == txnum then -1 else old(pool[j].modifiedBy))
        invariant forall j :: i <= j < |pool| ==> pool[j].modifiedBy == old(pool[j].modifiedBy)
        invariant forall j :: 0 <= j < |pool| ==>
                    && pool[j].pins == old(pool[j].pins) && pool[j].blk == old(pool[j].blk)
                    && pool[j].contents == old(pool[j].contents)
                    && pool[j].logSequenceNumber == old(pool[j].logSequenceNumber)
      {
        if pool[i].IsModifiedBy(txnum) {
          pool[i].Flush();
        }
        i := i + 1;
      }
    }
  }
  /** `order` rotated left by `t` places. */
  function Rotated(order: seq<nat>, t: nat): (r: seq<nat>)
    requires t <= |order|
    ensures |r| == |order|
  {
    order[t..] + order[..t]
  }

  /** Rotating the allocation order starts it at `t`; moving that entry to the back rotates it once more. */
  lemma RotatedStep(n: nat, t: nat)
    requires t < n
    ensures Rotated(Indices(n), t)[0] == t
    ensures MoveToBack(Rotated(Indices(n), t), 0) == Rotated(Indices(n), t + 1)
  {
    var o := Indices(n);
    assert Rotated(o, t)[1..] + [t] == o[t + 1..] + o[..t + 1];
  }

  /** The pin counts of the scenario's frames once the first `i` blocks are pinned. */
  function StagePins(i: nat): seq<int>
  {
    seq(8, j => if j < i then 1 else 0)
  }

  /** The blocks of the scenario's frames once the first `i` blocks of `names` are pinned. */
  function StageBlocks(names: seq<string>, i: nat): seq<Option<Block>>
  {
    seq(8, j => if 0 <= j < i && j < |names| then Some(Block(names[j], j + 1)) else None)
  }

  /** Pinning block `i` of the scenario advances both stage sequences by one. */
  lemma StageStep(names: seq<string>, i: nat)
    requires i < 8 == |names|
    ensures StagePins(i)[i := 1] == StagePins(i + 1)
    ensures StageBlocks(names, i)[i := Some(Block(names[i], i + 1))] == StageBlocks(names, i + 1)
  {
  }

  /** The state of the replacement scenario once the first `i` of the eight blocks `names` are pinned. */
  ghost predicate Stage(mgr: BasicBufferMgr, names: seq<string>, i: nat)
    reads mgr, mgr.Frames()
  {
    && i <= 8 && |names| == 8 && mgr.Valid()
    && mgr.fifo == Rotated(Indices(8), i)
    && mgr.pinCounts == StagePins(i)
    && mgr.blocks == StageBlocks(names, i)
  }

  /** Pinning the next block of the scenario takes the next frame in allocation order. */
  method PinStep(mgr: BasicBufferMgr, names: seq<string>, i: nat)
    requires Stage(mgr, names, i) && i < 8
    modifies mgr, mgr.Frames()
    ensures Stage(mgr, names, i + 1)
  {
    var b := Block(names[i], i + 1);
    RotatedStep(8, i);
    assert FirstUnpinned(mgr.fifo, mgr.pinCounts) == Some(0);
    StageStep(names, i);
    var r := mgr.Pin(b);
  }

  /** With the second and third frames unpinned, the FIFO victim in allocation order is the second. */
  lemma SecondIsVictim()
    ensures FirstUnpinned(Indices(8), StagePins(8)[2 := 0][1 := 0]) == Some(1)
  {
    var order := Indices(8);
    var pins := StagePins(8)[2 := 0][1 := 0];
    assert order[1..][1..] == Indices(8)[2..];
    assert pins[order[0]] == 1 && pins[order[1]] == 0;
  }

  /**
   * After all eight blocks are pinned no frame is available; the third and
   * then the second pinned buffer are unpinned.
   */
  method UnpinStep(mgr: BasicBufferMgr, names: seq<string>) returns (buff2: Buffer, buff3: Buffer, avail: int)
    requires Stage(mgr, names, 8)
    modifies mgr, mgr.Frames()
    ensures mgr.Valid() && avail == 0
    ensures buff2 == mgr.pool[1] && buff3 == mgr.pool[2] && buff2 != buff3
    ensures mgr.fifo == Indices(8) && mgr.pinCounts == StagePins(8)[2 := 0][1 := 0]
    ensures mgr.blocks == StageBlocks(names, 8)
  {
    CountUnpinnedZero(mgr.pinCounts);
    avail := mgr.Available();
    buff2 := mgr.pool[1];
    buff3 := mgr.pool[2];
    mgr.Unpin(buff3);
    mgr.Unpin(buff2);
  }

  /** Pinning a ninth block re-assigns the second buffer, the first unpinned one in FIFO order. */
  method ReplaceStep(mgr: BasicBufferMgr, names: seq<string>) returns (mapped: Option<Buffer>)
    requires mgr.Valid() && |mgr.pool| == 8 && |names| == 8
    requires mgr.fifo == Indices(8) && mgr.pinCounts == StagePins(8)[2 := 0][1 := 0]
    requires mgr.blocks == StageBlocks(names, 8)
    modifies mgr, mgr.Frames()
    ensures mapped == Some(mgr.pool[1])
  {
    SecondIsVictim();
    var b := Block("filename9", 9);
    var r := mgr.Pin(b);
    mapped := mgr.GetMapping(b);
  }

  /**
   * The replacement scenario of the FIFO policy: a pool of eight frames gets
   * eight distinct blocks pinned, the third and then the second pinned
   * buffers are unpinned, and a ninth block is pinned. The ninth block
   * replaces the second buffer, the one that entered the pool first, not
   * the third, the one unpinned first.
   */
  method FifoReplacement() returns (buff2: Buffer, buff3: Buffer, mapped: Option<Buffer>, avail: int)
    ensures avail == 0
    ensures mapped == Some(buff2) && buff2 != buff3
  {
    var names := ["filename1", "filename2", "filename3", "filename4",
                  "filename5", "filename6", "filename7", "filename8"];
    var mgr := new BasicBufferMgr(8);
    assert mgr.fifo == Rotated(Indices(8), 0);
    var i := 0;
    while i < 8
      invariant 0 <= i <= 8 && Stage(mgr, names, i) && fresh(mgr) && fresh(mgr.Frames())
    {
      PinStep(mgr, names, i);
      i := i + 1;
    }
    buff2, buff3, avail := UnpinStep(mgr, names);
    mapped := ReplaceStep(mgr, names);
  }
}
