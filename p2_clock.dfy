/** The clock (second-chance) MMU of the working copy, PythonP2/clockmmu.py. */
module P2Clock {
  import opened Frames
  import opened ClockSweep

  /** One occupied frame: the page it holds, its reference bit and its dirty bit. */
  datatype Entry = Entry(page: nat, ref: bool, dirty: bool)

  /** `page_map[p] == i` exactly when frame `i` holds page `p`. */
  ghost predicate Consistent(table: seq<Option<Entry>>, pageMap: map<nat, nat>)
  {
    (forall p :: p in pageMap ==>
       pageMap[p] < |table| && table[pageMap[p]].Some? && table[pageMap[p]].value.page == p)
    && (forall i :: 0 <= i < |table| && table[i].Some? ==>
          table[i].value.page in pageMap && pageMap[table[i].value.page] == i)
  }

  /** The bits the sweep passes over: the reference bits of a full table. */
  function RefBits(table: seq<Option<Entry>>): (bits: seq<bool>)
    ensures |bits| == |table|
  {
    seq(|table|, i requires 0 <= i < |table| => table[i].Some? && table[i].value.ref)
  }

  /** The table after the hand has moved `k` frames on from `hand`, clearing each reference bit it passed. */
  function Swept(table: seq<Option<Entry>>, hand: nat, k: nat): (r: seq<Option<Entry>>)
    requires hand < |table|
    ensures |r| == |table|
    ensures forall i :: 0 <= i < |table| ==> (r[i].Some? <==> table[i].Some?)
    ensures forall i :: 0 <= i < |table| && table[i].Some? ==>
      r[i].value.page == table[i].value.page && r[i].value.dirty == table[i].value.dirty
  {
    seq(|table|, i requires 0 <= i < |table| =>
      if table[i].Some? && Offset(i, hand, |table|) < k then Some(table[i].value.(ref := false)) else table[i])
  }

  class ClockMMU {
    const frames: nat
    const frameTable: array<Option<Entry>>
    var pageMap: map<nat, nat>
    var pointer: nat
    var diskReads: nat
    var diskWrites: nat
    var pageFaults: nat

    /** The frame table and the page map agree, and the hand is on a frame. */
    ghost predicate Wellformed()
      reads this, frameTable
    {
      frames >= 1 && frameTable.Length == frames && pointer < frames
      && Consistent(frameTable[..], pageMap)
      && |pageMap| == Occupied(frameTable[..])
    }

    /** Wellformed, every fault read one page, and each dirty eviction followed a fault on a full table. */
    ghost predicate Valid()
      reads this, frameTable
    {
      Wellformed() && diskReads == pageFaults && diskWrites + |pageMap| <= pageFaults
    }

    /** What `_replace_page(page, is_write)` does to a wellformed state. */
    twostate predicate Loaded(page: nat, isWrite: bool): (r: bool)
      reads this, frameTable
      ensures r ==> (page in pageMap && pageMap[page] < frameTable.Length
                     && frameTable[pageMap[page]] == Some(Entry(page, true, isWrite)))
    {
      var t0, h := old(frameTable[..]), old(pointer);
      var installed := Some(Entry(page, true, isWrite));
      |t0| == frames == frameTable.Length && h < frames
      && match FirstFree(t0)
        case Some(i) =>
          frameTable[..] == t0[i := installed] && pageMap == old(pageMap)[page := i]
          && pointer == h && diskWrites == old(diskWrites)
        case None =>
          var d := ClearDistance(RefBits(t0), h, 0);
          var v := Advance(h, d, frames);
          frameTable[..] == Swept(t0, h, d)[v := installed]
          && pageMap == (old(pageMap) - {t0[v].value.page})[page := v]
          && pointer == Advance(v, 1, frames)
          && diskWrites == old(diskWrites) + (if t0[v].value.dirty then 1 else 0)
    }

    constructor (frames: nat)
      requires frames >= 1
      ensures Valid() && this.frames == frames && fresh(frameTable)
      ensures frameTable[..] == seq(frames, _ => None) && pageMap == map[] && pointer == 0
      ensures diskReads == 0 && diskWrites == 0 && pageFaults == 0
    {
      this.frames := frames;
      frameTable := new Option<Entry>[frames](_ => None);
      pageMap := map[];
      pointer := 0;
      diskReads, diskWrites, pageFaults := 0, 0, 0;
      new;
      OccupiedNone(frameTable[..]);
    }

    method ReadMemory(page: nat)
      requires Valid()
      modifies this, frameTable
      ensures Valid()
      ensures page in old(pageMap) ==>
        var i := old(pageMap[page]);
        frameTable[..] == old(frameTable[..])[i := Some(old(frameTable[i].value).(ref := true))]
        && pageMap == old(pageMap) && pointer == old(pointer)
        && diskReads == old(diskReads) && diskWrites == old(diskWrites) && pageFaults == old(pageFaults)
      ensures page !in old(pageMap) ==>
        pageFaults == old(pageFaults) + 1 && diskReads == old(diskReads) + 1 && Loaded(page, false)
    {
      if page in pageMap {
        var idx := pageMap[page];
        frameTable[idx] := Some(frameTable[idx].value.(ref := true));
        HitKeepsWellformed(old(frameTable[..]), pageMap, idx, frameTable[idx].value);
        return;
      }
      pageFaults := pageFaults + 1;
      diskReads := diskReads + 1;
      ReplacePage(page, false);
    }

    method WriteMemory(page: nat)
      requires Valid()
      modifies this, frameTable
      ensures Valid()
      ensures page in old(pageMap) ==>
        var i := old(pageMap[page]);
        frameTable[..] == old(frameTable[..])[i := Some(old(frameTable[i].value).(ref := true, dirty := true))]
        && pageMap == old(pageMap) && pointer == old(pointer)
        && diskReads == old(diskReads) && diskWrites == old(diskWrites) && pageFaults == old(pageFaults)
      ensures page !in old(pageMap) ==>
        pageFaults == old(pageFaults) + 1 && diskReads == old(diskReads) + 1 && Loaded(page, true)
    {
      if page in pageMap {
        var idx := pageMap[page];
        frameTable[idx] := Some(frameTable[idx].value.(ref := true, dirty := true));
        HitKeepsWellformed(old(frameTable[..]), pageMap, idx, frameTable[idx].value);
        return;
      }
      pageFaults := pageFaults + 1;
      diskReads := diskReads + 1;
      ReplacePage(page, true);
    }

    /** Puts a missing page into the lowest empty frame, or into the frame the clock sweep picks. */
    method ReplacePage(page: nat, isWrite: bool)
      requires Wellformed() && page !in pageMap
      modifies this`pageMap, this`pointer, this`diskWrites, frameTable
      ensures Wellformed() && Loaded(page, isWrite)
      ensures diskWrites + |pageMap| <= old(diskWrites) + old(|pageMap|) + 1
    {
      var installed := Entry(page, true, isWrite);
      var free := FindFree(frameTable);
      if free.Some? {
        var i := free.value;
        OccupiedStore(frameTable[..], i, installed);
        InstallFree(frameTable[..], pageMap, i, installed);
        frameTable[i] := Some(installed);
        pageMap := pageMap[page := i];
        assert FirstFree(old(frameTable[..])) == Some(i);
        return;
      }
      ClockReplace(installed);
    }

    /** The clock half of `_replace_page`: sweep for a victim, evict it and load the page into its frame. */
    method ClockReplace(installed: Entry)
      requires Wellformed() && installed.page !in pageMap && FirstFree(frameTable[..]).None?
      modifies this`pageMap, this`pointer, this`diskWrites, frameTable
      ensures Wellformed()
      ensures var t0, h := old(frameTable[..]), old(pointer);
        var d := ClearDistance(RefBits(t0), h, 0);
        var v := Advance(h, d, frames);
        frameTable[..] == Swept(t0, h, d)[v := Some(installed)]
        && pageMap == (old(pageMap) - {t0[v].value.page})[installed.page := v]
        && pointer == Advance(v, 1, frames)
        && diskWrites == old(diskWrites) + (if t0[v].value.dirty then 1 else 0)
    {
      ghost var t0, h := frameTable[..], pointer;
      EvictStep(t0, h, pageMap, installed);
      SweepHand();
      var v := pointer;
      var victim := frameTable[v].value;
      if victim.dirty {
        diskWrites := diskWrites + 1;
      }
      pageMap := (pageMap - {victim.page})[installed.page := v];
      frameTable[v] := Some(installed);
      NextFrame(v, frames);
      pointer := (v + 1) % frames;
    }

    /** The second-chance sweep: clear the reference bit of each frame the hand passes until one is clear. */
    method SweepHand()
      requires frames >= 1 && frameTable.Length == frames && pointer < frames
      requires forall i :: 0 <= i < frames ==> frameTable[i].Some?
      modifies this`pointer, frameTable
      ensures var d := ClearDistance(RefBits(old(frameTable[..])), old(pointer), 0);
        frameTable[..] == Swept(old(frameTable[..]), old(pointer), d)
        && pointer == Advance(old(pointer), d, frames)
      ensures frameTable[pointer].Some? && !frameTable[pointer].value.ref
    {
      ghost var t0 := frameTable[..];
      ghost var h := pointer;
      ghost var d := ClearDistance(RefBits(t0), h, 0);
      ghost var k := 0;
      while frameTable[pointer].value.ref
        invariant 0 <= k <= d <= frames
        invariant pointer == Advance(h, k, frames)
        invariant frameTable[..] == Swept(t0, h, k)
        decreases d - k
      {
        assert Offset(pointer, h, frames) == k;
        frameTable[pointer] := Some(frameTable[pointer].value.(ref := false));
        NextFrame(pointer, frames);
        pointer := (pointer + 1) % frames;
        k := k + 1;
        assert frameTable[..] == Swept(t0, h, k) by {
          forall i | 0 <= i < frames ensures frameTable[i] == Swept(t0, h, k)[i] {
            assert i == Advance(h, k - 1, frames) <==> Offset(i, h, frames) == k - 1;
          }
        }
      }
    }

    method GetTotalDiskReads() returns (r: nat)
      ensures r == diskReads
    {
      return diskReads;
    }

    method GetTotalDiskWrites() returns (r: nat)
      ensures r == diskWrites
    {
      return diskWrites;
    }

    method GetTotalPageFaults() returns (r: nat)
      ensures r == pageFaults
    {
      return pageFaults;
    }
  }

  /** A hit only changes the bits of an occupied frame, so the page map and occupancy still fit. */
  lemma HitKeepsWellformed(table: seq<Option<Entry>>, pageMap: map<nat, nat>, i: nat, e: Entry)
    requires Consistent(table, pageMap) && |pageMap| == Occupied(table)
    requires i < |table| && table[i].Some? && e.page == table[i].value.page
    ensures Consistent(table[i := Some(e)], pageMap) && |pageMap| == Occupied(table[i := Some(e)])
  {
    OccupiedStore(table, i, e);
  }

  /** Loading a page into an empty frame keeps the page map and the frame table in step. */
  lemma InstallFree(table: seq<Option<Entry>>, pageMap: map<nat, nat>, i: nat, e: Entry)
    requires Consistent(table, pageMap) && i < |table| && table[i].None? && e.page !in pageMap
    ensures Consistent(table[i := Some(e)], pageMap[e.page := i])
  {
  }

  /** Replacing the page of an occupied frame keeps the page map and the frame table in step. */
  lemma InstallVictim(table: seq<Option<Entry>>, pageMap: map<nat, nat>, v: nat, e: Entry)
    requires Consistent(table, pageMap) && v < |table| && table[v].Some? && e.page !in pageMap
    ensures Consistent(table[v := Some(e)], (pageMap - {table[v].value.page})[e.page := v])
  {
  }

  /** The sweep and the replacement of its victim leave the page map and the frame table in step. */
  lemma EvictStep(table: seq<Option<Entry>>, hand: nat, pageMap: map<nat, nat>, e: Entry)
    requires Consistent(table, pageMap) && |pageMap| == Occupied(table)
    requires hand < |table| && FirstFree(table).None? && e.page !in pageMap
    ensures var d := ClearDistance(RefBits(table), hand, 0);
      var v := Advance(hand, d, |table|);
      var swept := Swept(table, hand, d);
      var table' := swept[v := Some(e)];
      var pageMap' := (pageMap - {table[v].value.page})[e.page := v];
      swept[v].Some? && swept[v].value.page == table[v].value.page && swept[v].value.dirty == table[v].value.dirty
      && Consistent(table', pageMap') && |pageMap'| == Occupied(table')
  {
    var d := ClearDistance(RefBits(table), hand, 0);
    var v := Advance(hand, d, |table|);
    SweepKeepsPages(table, hand, d, pageMap);
    InstallVictim(Swept(table, hand, d), pageMap, v, e);
    ReplaceKeySize(pageMap, table[v].value.page, e.page, v);
  }

  /** Clearing reference bits moves no page, so the page map still describes the swept table. */
  lemma SweepKeepsPages(table: seq<Option<Entry>>, hand: nat, k: nat, pageMap: map<nat, nat>)
    requires hand < |table| && Consistent(table, pageMap)
    ensures Consistent(Swept(table, hand, k), pageMap)
    ensures forall i :: 0 <= i < |table| ==>
      (Swept(table, hand, k)[i].Some? <==> table[i].Some?)
      && (table[i].Some? ==> Swept(table, hand, k)[i].value.page == table[i].value.page
                             && Swept(table, hand, k)[i].value.dirty == table[i].value.dirty)
  {
  }

  /**
   * On a full table the sweep evicts the first frame from the pointer whose
   * reference bit is clear, after clearing the bit of every frame it passed;
   * when every bit was set it comes round to the frame it started on.
   */
  lemma {:induction false} SweepGivesSecondChance(table: seq<Option<Entry>>, hand: nat)
    requires hand < |table| && forall i :: 0 <= i < |table| ==> table[i].Some?
    ensures var n := |table|;
      var d := ClearDistance(RefBits(table), hand, 0);
      var v := Advance(hand, d, n);
      var swept := Swept(table, hand, d);
      ((!table[v].value.ref && forall j :: 0 <= j < Offset(v, hand, n) ==> table[Advance(hand, j, n)].value.ref)
       || (v == hand && forall i :: 0 <= i < n ==> table[i].value.ref))
      && (forall j :: 0 <= j < d ==> swept[Advance(hand, j, n)].Some? && !swept[Advance(hand, j, n)].value.ref)
  {
    var n := |table|;
    var d := ClearDistance(RefBits(table), hand, 0);
    VictimFrame(RefBits(table), hand);
    assert forall i :: 0 <= i < n ==> RefBits(table)[i] == table[i].value.ref;
    forall j | 0 <= j < d ensures Offset(Advance(hand, j, n), hand, n) == j {
    }
  }
}
