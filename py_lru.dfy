/**
 * The LRU MMU of the alternate copy, py/lrummu.py: a dictionary from each
 * resident page to its frame, dirty flag and time of last use, a frame table
 * naming the page held by each frame, and a logical clock.
 */
module PyLru {
  import opened Frames

  /** The record `{frame, dirty, last_used}` of one resident page. */
  datatype Record = Record(frame: nat, dirty: bool, lastUsed: nat)

  /** Each resident page sits in the frame its record names, and each occupied frame holds a resident page. */
  ghost predicate Consistent(table: seq<Option<nat>>, memory: map<nat, Record>)
  {
    (forall p :: p in memory ==> memory[p].frame < |table| && table[memory[p].frame] == Some(p))
    && (forall i :: 0 <= i < |table| && table[i].Some? ==>
          table[i].value in memory && memory[table[i].value].frame == i)
  }

  /** Two records carry the same time of last use. */
  ghost predicate SameStamp(a: Record, b: Record)
  {
    a.lastUsed == b.lastUsed
  }

  /** No two resident pages were last used at the same time, and none after `time`. */
  ghost predicate StampsDistinct(memory: map<nat, Record>, time: nat)
  {
    (forall p :: p in memory ==> memory[p].lastUsed <= time)
    && (forall p, q {:trigger SameStamp(memory[p], memory[q])} ::
          p in memory && q in memory && p != q ==> !SameStamp(memory[p], memory[q]))
  }

  /** `p` is resident and was used strictly earlier than every other resident page. */
  ghost predicate IsLeastRecent(memory: map<nat, Record>, p: nat)
  {
    p in memory && forall q :: q in memory && q != p ==> memory[p].lastUsed < memory[q].lastUsed
  }

  /** The page `min(memory, key=last_used)` names; with distinct stamps there is exactly one. */
  ghost function LeastRecentPage(memory: map<nat, Record>, time: nat): (p: nat)
    requires memory != map[] && StampsDistinct(memory, time)
    ensures IsLeastRecent(memory, p)
  {
    var p := EarliestOf(memory, memory.Keys);
    MinIsLeastRecent(memory, time, p);
    p
  }

  /**
   * What `_load_page(page, dirty)` leaves behind at logical time `time`: the
   * frame table, the records and the write count once `page` is in the first
   * empty frame, or in the frame of the least recently used page when none is empty.
   */
  ghost function AfterLoad(t: seq<Option<nat>>, m: map<nat, Record>, w: nat, time: nat, page: nat, dirty: bool)
    : (r: (seq<Option<nat>>, map<nat, Record>, nat))
    requires |t| >= 1 && Consistent(t, m) && |m| == Occupied(t) && StampsDistinct(m, time)
    ensures |r.0| == |t| && page in r.1
    ensures r.1[page].frame < |t| && r.0[r.1[page].frame] == Some(page)
    ensures r.1[page].dirty == dirty && r.1[page].lastUsed == time
  {
    if |m| < |t| then
      var f := FirstFree(t).value;
      (t[f := Some(page)], m[page := Record(f, dirty, time)], w)
    else
      var p := LeastRecentPage(m, time);
      var f := m[p].frame;
      (t[f := Some(page)], (m - {p})[page := Record(f, dirty, time)], w + (if m[p].dirty then 1 else 0))
  }

  class LruMMU {
    const frames: nat
    const frameTable: array<Option<nat>>
    var memory: map<nat, Record>
    var time: nat
    var diskReads: nat
    var diskWrites: nat
    var pageFaults: nat

    /** The records and the frame table agree, and the times of last use are distinct and not in the future. */
    ghost predicate Wellformed()
      reads this, frameTable
    {
      frames >= 1 && frameTable.Length == frames
      && Consistent(frameTable[..], memory)
      && |memory| == Occupied(frameTable[..])
      && StampsDistinct(memory, time)
    }

    /** Wellformed, every fault read one page, and each dirty eviction followed a fault on a full table. */
    ghost predicate Valid()
      reads this, frameTable
    {
      Wellformed() && diskReads == pageFaults && diskWrites + |memory| <= pageFaults
    }

    constructor (frames: nat)
      requires frames >= 1
      ensures Valid() && this.frames == frames && fresh(frameTable)
      ensures frameTable[..] == seq(frames, _ => None) && memory == map[] && time == 0
      ensures diskReads == 0 && diskWrites == 0 && pageFaults == 0
    {
      this.frames := frames;
      frameTable := new Option<nat>[frames](_ => None);
      memory := map[];
      time := 0;
      diskReads, diskWrites, pageFaults := 0, 0, 0;
      new;
      OccupiedNone(frameTable[..]);
    }

    method ReadMemory(page: nat)
      requires Valid()
      modifies this, frameTable
      ensures Valid() && time == old(time) + 1
      ensures page in old(memory) ==>
        memory == old(memory)[page := old(memory[page]).(lastUsed := time)]
        && frameTable[..] == old(frameTable[..])
        && diskReads == old(diskReads) && diskWrites == old(diskWrites) && pageFaults == old(pageFaults)
      ensures page !in old(memory) ==>
        pageFaults == old(pageFaults) + 1 && diskReads == old(diskReads) + 1
        && (frameTable[..], memory, diskWrites)
           == AfterLoad(old(frameTable[..]), old(memory), old(diskWrites), time, page, false)
    {
      time := time + 1;
      if page in memory {
        Restamp(frameTable[..], memory, time, page, memory[page].(lastUsed := time));
        memory := memory[page := memory[page].(lastUsed := time)];
        return;
      }
      var frame := LoadPage(page, false);
    }

    method WriteMemory(page: nat)
      requires Valid()
      modifies this, frameTable
      ensures Valid() && time == old(time) + 1
      ensures page in old(memory) ==>
        memory == old(memory)[page := old(memory[page]).(dirty := true, lastUsed := time)]
        && frameTable[..] == old(frameTable[..])
        && diskReads == old(diskReads) && diskWrites == old(diskWrites) && pageFaults == old(pageFaults)
      ensures page !in old(memory) ==>
        pageFaults == old(pageFaults) + 1 && diskReads == old(diskReads) + 1
        && (frameTable[..], memory, diskWrites)
           == AfterLoad(old(frameTable[..]), old(memory), old(diskWrites), time, page, true)
    {
      time := time + 1;
      if page in memory {
        Restamp(frameTable[..], memory, time, page, memory[page].(dirty := true, lastUsed := time));
        memory := memory[page := memory[page].(dirty := true, lastUsed := time)];
        return;
      }
      var frame := LoadPage(page, true);
    }

    /**
     * Brings a missing page in, stamped with the current time: into the
     * lowest empty frame while one is left, otherwise into the frame `_evict` frees.
     */
    method LoadPage(page: nat, dirty: bool) returns (frame: nat)
      requires frames >= 1 && frameTable.Length == frames
      requires Consistent(frameTable[..], memory) && |memory| == Occupied(frameTable[..])
      requires time >= 1 && StampsDistinct(memory, time - 1) && page !in memory
      modifies this`memory, this`diskReads, this`diskWrites, this`pageFaults, frameTable
      ensures Wellformed()
      ensures (frameTable[..], memory, diskWrites)
        == AfterLoad(old(frameTable[..]), old(memory), old(diskWrites), time, page, dirty)
      ensures diskReads == old(diskReads) + 1 && pageFaults == old(pageFaults) + 1
      ensures diskWrites + |memory| <= old(diskWrites) + old(|memory|) + 1
      ensures page in memory && frame == memory[page].frame
    {
      ghost var t0, m0 := frameTable[..], memory;
      assert StampsDistinct(m0, time);
      if |memory| < frames {
        var free := FindFree(frameTable);
        frame := free.value;
        LoadFree(t0, m0, time, frame, page, dirty);
      } else {
        frame := Evict();
        LoadVictim(t0, m0, time, page, dirty);
      }
      diskReads := diskReads + 1;
      pageFaults := pageFaults + 1;
      frameTable[frame] := Some(page);
      assert frameTable[..] == t0[frame := Some(page)];
      memory := memory[page := Record(frame, dirty, time)];
    }

    /**
     * `_evict`: drop the page `min` picks by time of last use, write it back
     * when dirty, and return its frame.
     */
    method Evict() returns (victimFrame: nat)
      requires memory != map[] && StampsDistinct(memory, time)
      modifies this`memory, this`diskWrites
      ensures var p := LeastRecentPage(old(memory), time);
        victimFrame == old(memory)[p].frame && memory == old(memory) - {p}
        && diskWrites == old(diskWrites) + (if old(memory)[p].dirty then 1 else 0)
    {
      ghost var earliest := EarliestOf(memory, memory.Keys);
      var victimPage :| victimPage in memory
        && forall q :: q in memory ==> memory[victimPage].lastUsed <= memory[q].lastUsed;
      MinIsLeastRecent(memory, time, victimPage);
      assert victimPage == LeastRecentPage(memory, time);
      var frame := memory[victimPage].frame;
      if memory[victimPage].dirty {
        diskWrites := diskWrites + 1;
      }
      memory := memory - {victimPage};
      return frame;
    }

    method GetTotalDiskReads() returns (r: nat)
      ensures r == diskReads
    {
      return diskReads;
    }

    method GetTotalDiskWrites() returns (r: nat)
      ensures r == diskWrites
    {
      return diskWrites;
    }

    method GetTotalPageFaults() returns (r: nat)
      ensures r == pageFaults
    {
      return pageFaults;
    }
  }

  /** A page among `keys` whose time of last use is smallest. */
  ghost function EarliestOf(memory: map<nat, Record>, keys: set<nat>): (p: nat)
    requires keys != {} && keys <= memory.Keys
    ensures p in keys && forall q :: q in keys ==> memory[p].lastUsed <= memory[q].lastUsed
    decreases keys
  {
    var x :| x in keys;
    if keys == {x} then x
    else
      var p := EarliestOf(memory, keys - {x});
      if memory[x].lastUsed <= memory[p].lastUsed then x else p
  }

  /** With distinct stamps, a page with the smallest stamp is used strictly earlier than every other. */
  lemma MinIsLeastRecent(memory: map<nat, Record>, time: nat, p: nat)
    requires StampsDistinct(memory, time)
    requires p in memory && forall q :: q in memory ==> memory[p].lastUsed <= memory[q].lastUsed
    ensures IsLeastRecent(memory, p)
  {
    forall q | q in memory && q != p ensures memory[p].lastUsed < memory[q].lastUsed {
      assert !SameStamp(memory[p], memory[q]);
    }
  }

  /** A hit restamps one resident page with the current time and keeps its frame. */
  lemma Restamp(t: seq<Option<nat>>, memory: map<nat, Record>, time: nat, page: nat, r: Record)
    requires time >= 1 && StampsDistinct(memory, time - 1) && Consistent(t, memory)
    requires page in memory && r.frame == memory[page].frame && r.lastUsed == time
    ensures StampsDistinct(memory[page := r], time) && Consistent(t, memory[page := r])
    ensures |memory[page := r]| == |memory|
  {
    var m' := memory[page := r];
    assert m'.Keys == memory.Keys;
    forall p, q | p in m' && q in m' && p != q ensures !SameStamp(m'[p], m'[q]) {
      if p != page && q != page {
        assert !SameStamp(memory[p], memory[q]);
      }
    }
  }

  /** Loading a page stamped `time` into an empty frame keeps everything in step. */
  lemma LoadFree(t: seq<Option<nat>>, m: map<nat, Record>, time: nat, f: nat, page: nat, dirty: bool)
    requires Consistent(t, m) && |m| == Occupied(t) && time >= 1 && StampsDistinct(m, time - 1)
    requires f < |t| && t[f].None? && page !in m
    ensures var t', m' := t[f := Some(page)], m[page := Record(f, dirty, time)];
      Consistent(t', m') && |m'| == Occupied(t') && StampsDistinct(m', time) && |m'| == |m| + 1
  {
    OccupiedStore(t, f, page);
    var m' := m[page := Record(f, dirty, time)];
    forall p, q | p in m' && q in m' && p != q ensures !SameStamp(m'[p], m'[q]) {
      if p != page && q != page {
        assert !SameStamp(m[p], m[q]);
      }
    }
  }

  /** Loading a page stamped `time` into the frame of the least recently used page keeps everything in step. */
  lemma LoadVictim(t: seq<Option<nat>>, m: map<nat, Record>, time: nat, page: nat, dirty: bool)
    requires |t| >= 1 && Consistent(t, m) && |m| == Occupied(t) && |m| >= |t|
    requires time >= 1 && StampsDistinct(m, time - 1) && StampsDistinct(m, time) && page !in m
    ensures var p := LeastRecentPage(m, time);
      var f := m[p].frame;
      var t', m' := t[f := Some(page)], (m - {p})[page := Record(f, dirty, time)];
      Consistent(t', m') && |m'| == Occupied(t') && StampsDistinct(m', time) && |m'| == |m|
  {
    var p := LeastRecentPage(m, time);
    var f := m[p].frame;
    var m' := (m - {p})[page := Record(f, dirty, time)];
    ReplaceKeySize(m, p, page, Record(f, dirty, time));
    OccupiedStore(t, f, page);
    forall q, r | q in m' && r in m' && q != r ensures !SameStamp(m'[q], m'[r]) {
      if q != page && r != page {
        assert !SameStamp(m[q], m[r]);
      }
    }
  }

  /**
   * A load on a table with an empty frame stamps the new page with the current
   * time in the lowest empty frame, keeps every other record and writes nothing back.
   */
  lemma LoadTakesFreeFrame(t: seq<Option<nat>>, m: map<nat, Record>, w: nat, time: nat, page: nat, dirty: bool)
    requires |t| >= 1 && Consistent(t, m) && |m| == Occupied(t) && |m| < |t|
    requires time >= 1 && StampsDistinct(m, time - 1) && page !in m
    ensures StampsDistinct(m, time)
    ensures var (t', m', w') := AfterLoad(t, m, w, time, page, dirty);
      m' == m[page := Record(FirstFree(t).value, dirty, time)] && w' == w
      && t'[m'[page].frame] == Some(page) && t[m'[page].frame].None?
      && Consistent(t', m') && |m'| <= |t'| == |t|
  {
    assert StampsDistinct(m, time);
    LoadFree(t, m, time, FirstFree(t).value, page, dirty);
    var (t', m', w') := AfterLoad(t, m, w, time, page, dirty);
    assert |m'| == Occupied(t');
  }

  /**
   * A load on a full table removes exactly the least recently used page,
   * writes it back iff it was dirty, and stamps the new page with the current
   * time in the frame it freed; the other records are kept.
   */
  lemma LoadEvictsLeastRecent(t: seq<Option<nat>>, m: map<nat, Record>, w: nat, time: nat, page: nat, dirty: bool)
    requires |t| >= 1 && Consistent(t, m) && |m| == Occupied(t) && |m| >= |t|
    requires time >= 1 && StampsDistinct(m, time - 1) && page !in m
    ensures StampsDistinct(m, time)
    ensures var (t', m', w') := AfterLoad(t, m, w, time, page, dirty);
      var p := LeastRecentPage(m, time);
      IsLeastRecent(m, p) && m' == (m - {p})[page := Record(m[p].frame, dirty, time)]
      && w' == w + (if m[p].dirty then 1 else 0)
      && t'[m[p].frame] == Some(page) && Consistent(t', m') && |m'| == |t'| == |t|
  {
    assert StampsDistinct(m, time);
    LoadVictim(t, m, time, page, dirty);
    var (t', m', w') := AfterLoad(t, m, w, time, page, dirty);
    assert |m'| == Occupied(t');
  }
}
