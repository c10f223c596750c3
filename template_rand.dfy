/** The random-replacement MMU of the template copy, PythonP2/template/randmmu.py. */
module TemplateRand {
  import opened Frames

  /** One occupied frame: the page it holds and its dirty bit. */
  datatype Entry = Entry(page: nat, dirty: bool)

  /** `page_map[p] == i` exactly when frame `i` holds page `p`. */
  ghost predicate Consistent(table: seq<Option<Entry>>, pageMap: map<nat, nat>)
  {
    (forall p :: p in pageMap ==>
       pageMap[p] < |table| && table[pageMap[p]].Some? && table[pageMap[p]].value.page == p)
    && (forall i :: 0 <= i < |table| && table[i].Some? ==>
          table[i].value.page in pageMap && pageMap[table[i].value.page] == i)
  }

  /**
   * What `_replace_page(page, is_write)` leaves behind: the frame table, the
   * page map and the write count once `page` is in the lowest empty frame,
   * or, when every frame is taken, in frame `victim` (the random draw) in
   * place of the page held there.
   */
  function AfterReplace(t: seq<Option<Entry>>, pageMap: map<nat, nat>, w: nat, victim: nat, page: nat, isWrite: bool)
    : (r: (seq<Option<Entry>>, map<nat, nat>, nat))
    requires victim < |t| && Consistent(t, pageMap) && |pageMap| == Occupied(t)
    ensures |r.0| == |t| && page in r.1
    ensures r.1[page] < |t| && r.0[r.1[page]] == Some(Entry(page, isWrite))
    ensures r.2 == w || r.2 == w + 1
  {
    var installed := Some(Entry(page, isWrite));
    match FirstFree(t)
    case Some(i) => (t[i := installed], pageMap[page := i], w)
    case None =>
      (t[victim := installed], (pageMap - {t[victim].value.page})[page := victim],
       w + (if t[victim].value.dirty then 1 else 0))
  }

  class RandMMU {
    const frames: nat
    const frameTable: array<Option<Entry>>
    var pageMap: map<nat, nat>
    var diskReads: nat
    var diskWrites: nat
    var pageFaults: nat

    /** The frame table and the page map agree. */
    ghost predicate Wellformed()
      reads this, frameTable
    {
      frames >= 1 && frameTable.Length == frames
      && Consistent(frameTable[..], pageMap)
      && |pageMap| == Occupied(frameTable[..])
    }

    /** Wellformed, every fault read one page, and each dirty eviction followed a fault on a full table. */
    ghost predicate Valid()
      reads this, frameTable
    {
      Wellformed() && diskReads == pageFaults && diskWrites + |pageMap| <= pageFaults
    }

    constructor (frames: nat)
      requires frames >= 1
      ensures Valid() && this.frames == frames && fresh(frameTable)
      ensures frameTable[..] == seq(frames, _ => None) && pageMap == map[]
      ensures diskReads == 0 && diskWrites == 0 && pageFaults == 0
    {
      this.frames := frames;
      frameTable := new Option<Entry>[frames](_ => None);
      pageMap := map[];
      diskReads, diskWrites, pageFaults := 0, 0, 0;
      new;
      OccupiedNone(frameTable[..]);
    }

    /** A read; `victim` is the frame the random draw would pick if the table is full. */
    method ReadMemory(page: nat, victim: nat)
      requires Valid() && victim < frames
      modifies this, frameTable
      ensures Valid()
      ensures page in old(pageMap) ==>
        frameTable[..] == old(frameTable[..]) && pageMap == old(pageMap)
        && diskReads == old(diskReads) && diskWrites == old(diskWrites) && pageFaults == old(pageFaults)
      ensures page !in old(pageMap) ==>
        pageFaults == old(pageFaults) + 1 && diskReads == old(diskReads) + 1
        && (frameTable[..], pageMap, diskWrites)
           == AfterReplace(old(frameTable[..]), old(pageMap), old(diskWrites), victim, page, false)
    {
      if page in pageMap {
        return;
      }
      pageFaults := pageFaults + 1;
      diskReads := diskReads + 1;
      ReplacePage(page, false, victim);
    }

    /** A write; `victim` is the frame the random draw would pick if the table is full. */
    method WriteMemory(page: nat, victim: nat)
      requires Valid() && victim < frames
      modifies this, frameTable
      ensures Valid()
      ensures page in old(pageMap) ==>
        var i := old(pageMap[page]);
        frameTable[..] == old(frameTable[..])[i := Some(old(frameTable[i].value).(dirty := true))]
        && pageMap == old(pageMap)
        && diskReads == old(diskReads) && diskWrites == old(diskWrites) && pageFaults == old(pageFaults)
      ensures page !in old(pageMap) ==>
        pageFaults == old(pageFaults) + 1 && diskReads == old(diskReads) + 1
        && (frameTable[..], pageMap, diskWrites)
           == AfterReplace(old(frameTable[..]), old(pageMap), old(diskWrites), victim, page, true)
    {
      if page in pageMap {
        var idx := pageMap[page];
        frameTable[idx] := Some(frameTable[idx].value.(dirty := true));
        OccupiedStore(old(frameTable[..]), idx, frameTable[idx].value);
        return;
      }
      pageFaults := pageFaults + 1;
      diskReads := diskReads + 1;
      ReplacePage(page, true, victim);
    }

    /** Puts a missing page into the lowest empty frame, or into frame `victim` when every frame is taken. */
    method ReplacePage(page: nat, isWrite: bool, victim: nat)
      requires Wellformed() && page !in pageMap && victim < frames
      modifies this`pageMap, this`diskWrites, frameTable
      ensures Wellformed()
      ensures (frameTable[..], pageMap, diskWrites)
        == AfterReplace(old(frameTable[..]), old(pageMap), old(diskWrites), victim, page, isWrite)
      ensures diskWrites + |pageMap| <= old(diskWrites) + old(|pageMap|) + 1
    {
      ghost var t0, m0 := frameTable[..], pageMap;
      var installed := Entry(page, isWrite);
      var free := FindFree(frameTable);
      if free.Some? {
        var i := free.value;
        InstallFree(t0, m0, i, installed);
        frameTable[i] := Some(installed);
        assert frameTable[..] == t0[i := Some(installed)];
        pageMap := pageMap[page := i];
        return;
      }
      EvictStep(t0, m0, victim, installed);
      var evicted := frameTable[victim].value;
      if evicted.dirty {
        diskWrites := diskWrites + 1;
      }
      pageMap := (pageMap - {evicted.page})[page := victim];
      frameTable[victim] := Some(installed);
      assert frameTable[..] == t0[victim := Some(installed)];
    }

    method GetTotalDiskReads() returns (r: nat)
      ensures r == diskReads
    {
      return diskReads;
    }

    method GetTotalDiskWrites() returns (r: nat)
      ensures r == diskWrites
    {
      return diskWrites;
    }

    method GetTotalPageFaults() returns (r: nat)
      ensures r == pageFaults
    {
      return pageFaults;
    }
  }

  /** Installing a page in an empty frame leaves the page map and the frame table in step. */
  lemma InstallFree(table: seq<Option<Entry>>, pageMap: map<nat, nat>, i: nat, e: Entry)
    requires Consistent(table, pageMap) && |pageMap| == Occupied(table)
    requires i < |table| && table[i].None? && e.page !in pageMap
    ensures var table', pageMap' := table[i := Some(e)], pageMap[e.page := i];
      Consistent(table', pageMap') && |pageMap'| == Occupied(table') && |pageMap'| == |pageMap| + 1
  {
    OccupiedStore(table, i, e);
  }

  /** Replacing the page of a frame in a full table leaves the page map and the frame table in step. */
  lemma EvictStep(table: seq<Option<Entry>>, pageMap: map<nat, nat>, v: nat, e: Entry)
    requires Consistent(table, pageMap) && |pageMap| == Occupied(table)
    requires v < |table| && FirstFree(table).None? && e.page !in pageMap
    ensures table[v].Some? && table[v].value.page in pageMap
    ensures var table' := table[v := Some(e)];
      var pageMap' := (pageMap - {table[v].value.page})[e.page := v];
      Consistent(table', pageMap') && |pageMap'| == Occupied(table') && |pageMap'| == |pageMap|
  {
    ReplaceKeySize(pageMap, table[v].value.page, e.page, v);
    OccupiedStore(table, v, e);
  }

  /**
   * A miss on a table with an empty frame installs the page, with its dirty
   * bit set iff the access is a write, in the lowest empty frame, maps the
   * page to that frame, keeps every other frame and writes nothing back.
   */
  lemma ReplaceTakesFreeFrame(t: seq<Option<Entry>>, pageMap: map<nat, nat>, w: nat, victim: nat, page: nat, isWrite: bool)
    requires victim < |t| && Consistent(t, pageMap) && |pageMap| == Occupied(t) && |pageMap| < |t| && page !in pageMap
    ensures FirstFree(t).Some?
    ensures var (t', m', w') := AfterReplace(t, pageMap, w, victim, page, isWrite);
      var i := FirstFree(t).value;
      t[i].None? && (forall j :: 0 <= j < i ==> t[j].Some?)
      && t'[i] == Some(Entry(page, isWrite)) && (forall j :: 0 <= j < |t| && j != i ==> t'[j] == t[j])
      && m' == pageMap[page := i] && w' == w
      && Consistent(t', m') && |m'| <= |t'| == |t|
  {
    InstallFree(t, pageMap, FirstFree(t).value, Entry(page, isWrite));
    var (t', m', w') := AfterReplace(t, pageMap, w, victim, page, isWrite);
    assert |m'| == Occupied(t');
  }

  /**
   * A miss on a full table evicts the page in frame `victim`, writes it back
   * iff it was dirty, installs the new page in that frame and maps it there;
   * the other frames and mappings are kept and the table stays full.
   */
  lemma ReplaceEvictsVictim(t: seq<Option<Entry>>, pageMap: map<nat, nat>, w: nat, victim: nat, page: nat, isWrite: bool)
    requires victim < |t| && Consistent(t, pageMap) && |pageMap| == Occupied(t) && |pageMap| >= |t| && page !in pageMap
    ensures t[victim].Some? && t[victim].value.page in pageMap
    ensures var (t', m', w') := AfterReplace(t, pageMap, w, victim, page, isWrite);
      var gone := t[victim].value;
      gone.page !in m' && m' == (pageMap - {gone.page})[page := victim]
      && t'[victim] == Some(Entry(page, isWrite)) && (forall j :: 0 <= j < |t| && j != victim ==> t'[j] == t[j])
      && w' == w + (if gone.dirty then 1 else 0)
      && Consistent(t', m') && |m'| == |t'| == |t|
  {
    EvictStep(t, pageMap, victim, Entry(page, isWrite));
    var (t', m', w') := AfterReplace(t, pageMap, w, victim, page, isWrite);
    assert |m'| == Occupied(t');
  }
}
