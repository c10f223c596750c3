/**
 * The LRU MMU of the template copy, PythonP2/template/lrummu.py: each
 * resident page carries its frame index, the logical time of its last use
 * and its dirty flag; `frame_list` mirrors the dictionary's key order.
 */
module TemplateLru {

  /** The record `[frame index, last_used, dirty]` of one resident page. */
  datatype Slot = Slot(frame: nat, lastUsed: nat, dirty: bool)

  /** Two records name the same frame index. */
  ghost predicate SameFrame(a: Slot, b: Slot)
  {
    a.frame == b.frame
  }

  /** Two records carry the same time of last use. */
  ghost predicate SameStamp(a: Slot, b: Slot)
  {
    a.lastUsed == b.lastUsed
  }

  /** Frame indices are below the number of resident pages and no two pages share one. */
  ghost predicate FramesDense(table: map<nat, Slot>)
  {
    (forall p :: p in table ==> table[p].frame < |table|)
    && (forall p, q {:trigger SameFrame(table[p], table[q])} ::
          p in table && q in table && p != q ==> !SameFrame(table[p], table[q]))
  }

  /** No two resident pages were last used at the same time, and none after `time`. */
  ghost predicate StampsDistinct(table: map<nat, Slot>, time: nat)
  {
    (forall p :: p in table ==> table[p].lastUsed <= time)
    && (forall p, q {:trigger SameStamp(table[p], table[q])} ::
          p in table && q in table && p != q ==> !SameStamp(table[p], table[q]))
  }

  /** `list` holds each key of `table` exactly once. */
  ghost predicate ListsKeys(list: seq<nat>, table: map<nat, Slot>)
  {
    |list| == |table| && (forall i :: 0 <= i < |list| ==> list[i] in table)
    && (forall i, j :: 0 <= i < j < |list| ==> list[i] != list[j])
  }

  /**
   * `min(frame_table.items(), key=last_used)`: the first page in key order
   * whose last use is earliest.
   */
  function LeastRecent(keys: seq<nat>, table: map<nat, Slot>): (p: nat)
    requires keys != [] && forall i :: 0 <= i < |keys| ==> keys[i] in table
    ensures p in keys
    ensures forall q :: q in keys ==> table[p].lastUsed <= table[q].lastUsed
  {
    if |keys| == 1 then keys[0]
    else
      var rest := LeastRecent(keys[1..], table);
      if table[keys[0]].lastUsed <= table[rest].lastUsed then keys[0] else rest
  }

  /** Where `x` first occurs in `list`. */
  function Position(list: seq<nat>, x: nat): (i: nat)
    requires x in list
    ensures i < |list| && list[i] == x && x !in list[..i]
  {
    if list[0] == x then 0
    else
      var i := Position(list[1..], x) + 1;
      assert list[..i] == [list[0]] + list[1..][..i - 1];
      i
  }

  /** `list.remove(x)`: drop the first occurrence of `x`. */
  function RemoveFirst(list: seq<nat>, x: nat): (r: seq<nat>)
    requires x in list
    ensures |r| == |list| - 1
    ensures forall y :: y in r ==> y in list
    ensures forall y :: y in list && y != x ==> y in r
  {
    list[..Position(list, x)] + list[Position(list, x) + 1..]
  }

  /**
   * What `_replace_page(page, is_write)` makes of the table, the list and the
   * write count at logical time `time`: the next unused frame index while
   * fewer than `frames` pages are resident, otherwise the frame of the least
   * recently used page, which is written back when dirty.
   */
  function AfterReplace(frames: nat, time: nat, table: map<nat, Slot>, list: seq<nat>, writes: nat,
                        page: nat, isWrite: bool): (r: (map<nat, Slot>, seq<nat>, nat))
    requires frames >= 1 && |table| <= frames && ListsKeys(list, table)
    ensures page in r.0 && r.0[page].lastUsed == time && r.0[page].dirty == isWrite
    ensures r.1 != [] && r.1[|r.1| - 1] == page
    ensures r.2 == writes || r.2 == writes + 1
  {
    if |table| < frames then
      (table[page := Slot(|table|, time, isWrite)], list + [page], writes)
    else
      var lru := LeastRecent(list, table);
      ((table - {lru})[page := Slot(table[lru].frame, time, isWrite)],
       RemoveFirst(list, lru) + [page],
       writes + (if table[lru].dirty then 1 else 0))
  }

  /**
   * `lru` was used strictly earlier than every other page of `table`, and
   * `table'` is `table` without it, every other page untouched, and with
   * `page` in the frame `lru` held.
   */
  ghost predicate IsEvicted(table: map<nat, Slot>, table': map<nat, Slot>, lru: nat, page: nat)
  {
    lru in table && lru !in table' && page in table' && table'[page].frame == table[lru].frame
    && forall q :: q in table && q != lru ==>
         table[lru].lastUsed < table[q].lastUsed && q in table' && table'[q] == table[q]
  }

  class LruMMU {
    const frames: nat
    var frameTable: map<nat, Slot>
    var frameList: seq<nat>
    var diskReads: nat
    var diskWrites: nat
    var pageFaults: nat
    var time: nat

    /** The bookkeeping of resident pages is consistent, without the counters. */
    ghost predicate Wellformed()
      reads this
    {
      frames >= 1 && |frameTable| <= frames
      && FramesDense(frameTable) && StampsDistinct(frameTable, time) && ListsKeys(frameList, frameTable)
    }

    /** Wellformed, every fault read one page, and each dirty eviction followed a fault on a full table. */
    ghost predicate Valid()
      reads this
    {
      Wellformed() && diskReads == pageFaults && diskWrites + |frameTable| <= pageFaults
    }

    constructor (frames: nat)
      requires frames >= 1
      ensures Valid() && this.frames == frames && frameTable == map[] && frameList == []
      ensures diskReads == 0 && diskWrites == 0 && pageFaults == 0 && time == 0
    {
      this.frames := frames;
      frameTable := map[];
      frameList := [];
      diskReads, diskWrites, pageFaults := 0, 0, 0;
      time := 0;
    }

    method ReadMemory(page: nat)
      requires Valid()
      modifies this
      ensures Valid() && time == old(time) + 1
      ensures page in old(frameTable) ==>
        frameTable == old(frameTable)[page := old(frameTable[page]).(lastUsed := time)]
        && frameList == old(frameList)
        && diskReads == old(diskReads) && diskWrites == old(diskWrites) && pageFaults == old(pageFaults)
      ensures page !in old(frameTable) ==>
        pageFaults == old(pageFaults) + 1 && diskReads == old(diskReads) + 1 && (frameTable, frameList, diskWrites)
          == AfterReplace(frames, time, old(frameTable), old(frameList), old(diskWrites), page, false)
    {
      time := time + 1;
      if page in frameTable {
        Touch(frameTable, frameList, time, page, frameTable[page].(lastUsed := time));
        frameTable := frameTable[page := frameTable[page].(lastUsed := time)];
        return;
      }
      pageFaults := pageFaults + 1;
      diskReads := diskReads + 1;
      ReplacePage(page, false);
    }

    method WriteMemory(page: nat)
      requires Valid()
      modifies this
      ensures Valid() && time == old(time) + 1
      ensures page in old(frameTable) ==>
        frameTable == old(frameTable)[page := old(frameTable[page]).(lastUsed := time, dirty := true)]
        && frameList == old(frameList)
        && diskReads == old(diskReads) && diskWrites == old(diskWrites) && pageFaults == old(pageFaults)
      ensures page !in old(frameTable) ==>
        pageFaults == old(pageFaults) + 1 && diskReads == old(diskReads) + 1 && (frameTable, frameList, diskWrites)
          == AfterReplace(frames, time, old(frameTable), old(frameList), old(diskWrites), page, true)
    {
      time := time + 1;
      if page in frameTable {
        Touch(frameTable, frameList, time, page, frameTable[page].(lastUsed := time, dirty := true));
        frameTable := frameTable[page := frameTable[page].(lastUsed := time, dirty := true)];
        return;
      }
      pageFaults := pageFaults + 1;
      diskReads := diskReads + 1;
      ReplacePage(page, true);
    }

    /** Gives a missing page the next unused frame index, or the frame of the least recently used page. */
    method ReplacePage(page: nat, isWrite: bool)
      requires frames >= 1 && |frameTable| <= frames && FramesDense(frameTable) && ListsKeys(frameList, frameTable)
      requires time >= 1 && StampsDistinct(frameTable, time - 1) && page !in frameTable
      modifies this`frameTable, this`frameList, this`diskWrites
      ensures Wellformed()
      ensures (frameTable, frameList, diskWrites)
        == AfterReplace(frames, time, old(frameTable), old(frameList), old(diskWrites), page, isWrite)
    {
      if |frameTable| < frames {
        LoadFree(frameTable, frameList, time, page, isWrite);
        frameTable := frameTable[page := Slot(|frameTable|, time, isWrite)];
        frameList := frameList + [page];
        return;
      }
      var lru := LeastRecent(frameList, frameTable);
      var info := frameTable[lru];
      if info.dirty {
        diskWrites := diskWrites + 1;
      }
      LoadVictim(frameTable, frameList, time, lru, page, isWrite);
      frameTable := frameTable - {lru};
      frameList := RemoveFirst(frameList, lru);
      frameTable := frameTable[page := Slot(info.frame, time, isWrite)];
      frameList := frameList + [page];
    }

    method GetTotalDiskReads() returns (r: nat)
      ensures r == diskReads
    {
      return diskReads;
    }

    method GetTotalDiskWrites() returns (r: nat)
      ensures r == diskWrites
    {
      return diskWrites;
    }

    method GetTotalPageFaults() returns (r: nat)
      ensures r == pageFaults
    {
      return pageFaults;
    }
  }

  /** A list of distinct members of `keys` as long as `keys` names every member. */
  lemma {:induction false} ListCovers(list: seq<nat>, keys: set<nat>)
    requires |list| == |keys| && forall i :: 0 <= i < |list| ==> list[i] in keys
    requires forall i, j :: 0 <= i < j < |list| ==> list[i] != list[j]
    ensures forall p :: p in keys ==> p in list
  {
    if list != [] {
      var rest := keys - {list[0]};
      assert |rest| == |keys| - 1;
      assert forall i :: 0 <= i < |list| - 1 ==> list[1..][i] == list[i + 1];
      ListCovers(list[1..], rest);
      forall p | p in keys ensures p in list {
        if p != list[0] {
          assert p in list[1..];
        }
      }
    }
  }

  /**
   * The page `min` picks was used strictly earlier than every other resident
   * page: the first minimum in key order is the only one.
   */
  lemma LeastRecentOfAll(list: seq<nat>, table: map<nat, Slot>, time: nat)
    requires ListsKeys(list, table) && StampsDistinct(table, time) && list != []
    ensures var lru := LeastRecent(list, table);
      forall q :: q in table && q != lru ==> table[lru].lastUsed < table[q].lastUsed
  {
    ListCovers(list, table.Keys);
    var lru := LeastRecent(list, table);
    forall q | q in table && q != lru ensures table[lru].lastUsed < table[q].lastUsed {
      assert !SameStamp(table[lru], table[q]);
    }
  }

  /**
   * On a full table the page `_replace_page` evicts is the one used longest
   * ago, its frame goes to the new page, every other page stays as it was,
   * and a write-back is counted exactly when the evicted page was dirty.
   */
  lemma ReplaceEvictsLeastRecent(frames: nat, time: nat, table: map<nat, Slot>, list: seq<nat>, writes: nat,
                                 page: nat, isWrite: bool)
    requires frames >= 1 && |table| == frames && ListsKeys(list, table) && StampsDistinct(table, time)
    requires page !in table
    ensures var r := AfterReplace(frames, time, table, list, writes, page, isWrite);
      |r.0| == |table| && r.1 == RemoveFirst(list, LeastRecent(list, table)) + [page]
      && exists lru :: IsEvicted(table, r.0, lru, page) && r.2 == writes + (if table[lru].dirty then 1 else 0)
  {
    var lru := LeastRecent(list, table);
    LeastRecentOfAll(list, table, time);
    var r := AfterReplace(frames, time, table, list, writes, page, isWrite);
    assert (table - {lru}).Keys == table.Keys - {lru};
    assert IsEvicted(table, r.0, lru, page);
  }

  /** A hit restamps one resident page with the current time and keeps its frame. */
  lemma Touch(table: map<nat, Slot>, list: seq<nat>, time: nat, page: nat, s: Slot)
    requires time >= 1 && StampsDistinct(table, time - 1) && FramesDense(table) && ListsKeys(list, table)
    requires page in table && s.frame == table[page].frame && s.lastUsed == time
    ensures StampsDistinct(table[page := s], time) && FramesDense(table[page := s])
    ensures ListsKeys(list, table[page := s]) && |table[page := s]| == |table|
  {
    var table' := table[page := s];
    assert |table'| == |table|;
    forall p, q | p in table' && q in table' && p != q
      ensures !SameFrame(table'[p], table'[q]) && !SameStamp(table'[p], table'[q])
    {
      assert !SameFrame(table[p], table[q]);
      if p != page && q != page {
        assert !SameStamp(table[p], table[q]);
      }
    }
  }

  /** Loading into the next unused frame index keeps the indices dense and the stamps distinct. */
  lemma LoadFree(table: map<nat, Slot>, list: seq<nat>, time: nat, page: nat, isWrite: bool)
    requires time >= 1 && StampsDistinct(table, time - 1) && FramesDense(table) && ListsKeys(list, table)
    requires page !in table
    ensures var table' := table[page := Slot(|table|, time, isWrite)];
      StampsDistinct(table', time) && FramesDense(table') && ListsKeys(list + [page], table')
  {
  }

  /** Giving the least recently used page's frame to the new page keeps the bookkeeping consistent. */
  lemma LoadVictim(table: map<nat, Slot>, list: seq<nat>, time: nat, lru: nat, page: nat, isWrite: bool)
    requires time >= 1 && StampsDistinct(table, time - 1) && FramesDense(table) && ListsKeys(list, table)
    requires lru in list && page !in table
    ensures var table' := (table - {lru})[page := Slot(table[lru].frame, time, isWrite)];
      StampsDistinct(table', time) && FramesDense(table') && ListsKeys(RemoveFirst(list, lru) + [page], table')
      && |table'| == |table|
  {
    RemoveFirstOfDistinct(list, lru);
    var table' := (table - {lru})[page := Slot(table[lru].frame, time, isWrite)];
    assert (table - {lru}).Keys == table.Keys - {lru};
    assert |table'| == |table|;
    forall p, q | p in table' && q in table' && p != q
      ensures !SameFrame(table'[p], table'[q]) && !SameStamp(table'[p], table'[q])
    {
      var p' := if p == page then lru else p;
      var q' := if q == page then lru else q;
      assert !SameFrame(table[p'], table[q']);
      if p != page && q != page {
        assert !SameStamp(table[p], table[q]);
      }
    }
  }

  /** Removing a key from a list without repeats leaves every other key, still without repeats. */
  lemma RemoveFirstOfDistinct(list: seq<nat>, x: nat)
    requires x in list && forall i, j :: 0 <= i < j < |list| ==> list[i] != list[j]
    ensures |RemoveFirst(list, x)| == |list| - 1
    ensures forall y :: y in RemoveFirst(list, x) <==> y in list && y != x
    ensures forall i, j :: 0 <= i < j < |RemoveFirst(list, x)| ==> RemoveFirst(list, x)[i] != RemoveFirst(list, x)[j]
  {
    var k := Position(list, x);
    var r := RemoveFirst(list, x);
    assert |r| == |list| - 1;
    assert forall i :: 0 <= i < |r| ==> r[i] == list[if i < k then i else i + 1];
    forall y ensures y in r <==> y in list && y != x {
      if y in list && y != x {
        var j :| 0 <= j < |list| && list[j] == y;
        assert r[if j < k then j else j - 1] == y;
      }
    }
  }
}
