/**
 * The random-replacement MMU of the alternate copy, py/randmmu.py: a
 * dictionary from each resident page to its frame and dirty flag, and a frame
 * table naming the page held by each frame. The random draw of `_evict` is a
 * parameter `draw`, the frame `random.randint(0, frames - 1)` returned.
 */
module PyRand {
  import opened Frames

  /** The record `{frame, dirty}` of one resident page. */
  datatype Record = Record(frame: nat, dirty: bool)

  /** Each resident page sits in the frame its record names, and each occupied frame holds a resident page. */
  ghost predicate Consistent(table: seq<Option<nat>>, memory: map<nat, Record>)
  {
    (forall p :: p in memory ==> memory[p].frame < |table| && table[memory[p].frame] == Some(p))
    && (forall i :: 0 <= i < |table| && table[i].Some? ==>
          table[i].value in memory && memory[table[i].value].frame == i)
  }

  /**
   * What `_load_page(page, dirty)` leaves behind: the frame table, the records
   * and the write count once `page` is in the first empty frame, or, when
   * none is empty, in frame `draw` in place of the page held there.
   */
  function AfterLoad(t: seq<Option<nat>>, m: map<nat, Record>, w: nat, draw: nat, page: nat, dirty: bool)
    : (r: (seq<Option<nat>>, map<nat, Record>, nat))
    requires draw < |t| && Consistent(t, m) && |m| == Occupied(t)
    ensures |r.0| == |t| && page in r.1
    ensures r.1[page].frame < |t| && r.0[r.1[page].frame] == Some(page) && r.1[page].dirty == dirty
  {
    if |m| < |t| then
      var f := FirstFree(t).value;
      (t[f := Some(page)], m[page := Record(f, dirty)], w)
    else
      var p := t[draw].value;
      (t[draw := Some(page)], (m - {p})[page := Record(draw, dirty)], w + (if m[p].dirty then 1 else 0))
  }

  class RandMMU {
    const frames: nat
    const frameTable: array<Option<nat>>
    var memory: map<nat, Record>
    var diskReads: nat
    var diskWrites: nat
    var pageFaults: nat

    /** The records and the frame table agree. */
    ghost predicate Wellformed()
      reads this, frameTable
    {
      frames >= 1 && frameTable.Length == frames
      && Consistent(frameTable[..], memory)
      && |memory| == Occupied(frameTable[..])
    }

    /** Wellformed, every fault read one page, and each dirty eviction followed a fault on a full table. */
    ghost predicate Valid()
      reads this, frameTable
    {
      Wellformed() && diskReads == pageFaults && diskWrites + |memory| <= pageFaults
    }

    constructor (frames: nat)
      requires frames >= 1
      ensures Valid() && this.frames == frames && fresh(frameTable)
      ensures frameTable[..] == seq(frames, _ => None) && memory == map[]
      ensures diskReads == 0 && diskWrites == 0 && pageFaults == 0
    {
      this.frames := frames;
      frameTable := new Option<nat>[frames](_ => None);
      memory := map[];
      diskReads, diskWrites, pageFaults := 0, 0, 0;
      new;
      OccupiedNone(frameTable[..]);
    }

    /** A read; `draw` is the frame the random draw would pick if a miss finds the table full. */
    method ReadMemory(page: nat, draw: nat)
      requires Valid() && draw < frames
      modifies this, frameTable
      ensures Valid()
      ensures page in old(memory) ==>
        frameTable[..] == old(frameTable[..]) && memory == old(memory)
        && diskReads == old(diskReads) && diskWrites == old(diskWrites) && pageFaults == old(pageFaults)
      ensures page !in old(memory) ==>
        pageFaults == old(pageFaults) + 1 && diskReads == old(diskReads) + 1
        && (frameTable[..], memory, diskWrites)
           == AfterLoad(old(frameTable[..]), old(memory), old(diskWrites), draw, page, false)
    {
      if page in memory {
        return;
      }
      var frame := LoadPage(page, false, draw);
    }

    /** A write; `draw` is the frame the random draw would pick if a miss finds the table full. */
    method WriteMemory(page: nat, draw: nat)
      requires Valid() && draw < frames
      modifies this, frameTable
      ensures Valid()
      ensures page in old(memory) ==>
        memory == old(memory)[page := old(memory[page]).(dirty := true)]
        && frameTable[..] == old(frameTable[..])
        && diskReads == old(diskReads) && diskWrites == old(diskWrites) && pageFaults == old(pageFaults)
      ensures page !in old(memory) ==>
        pageFaults == old(pageFaults) + 1 && diskReads == old(diskReads) + 1
        && (frameTable[..], memory, diskWrites)
           == AfterLoad(old(frameTable[..]), old(memory), old(diskWrites), draw, page, true)
    {
      if page in memory {
        assert memory[page := memory[page].(dirty := true)].Keys == memory.Keys;
        memory := memory[page := memory[page].(dirty := true)];
        return;
      }
      var frame := LoadPage(page, true, draw);
    }

    /** Brings a missing page in: into the lowest empty frame while one is left, otherwise into the frame `_evict` frees. */
    method LoadPage(page: nat, dirty: bool, draw: nat) returns (frame: nat)
      requires Wellformed() && page !in memory && draw < frames
      modifies this`memory, this`diskReads, this`diskWrites, this`pageFaults, frameTable
      ensures Wellformed()
      ensures (frameTable[..], memory, diskWrites)
        == AfterLoad(old(frameTable[..]), old(memory), old(diskWrites), draw, page, dirty)
      ensures page in memory && frame == memory[page].frame
      ensures diskReads == old(diskReads) + 1 && pageFaults == old(pageFaults) + 1
      ensures diskWrites + |memory| <= old(diskWrites) + old(|memory|) + 1
    {
      ghost var t0, m0 := frameTable[..], memory;
      if |memory| < frames {
        var free := FindFree(frameTable);
        frame := free.value;
        LoadFree(t0, m0, frame, page, dirty);
      } else {
        frame := Evict(draw);
        LoadVictim(t0, m0, draw, page, dirty);
      }
      diskReads := diskReads + 1;
      pageFaults := pageFaults + 1;
      frameTable[frame] := Some(page);
      assert frameTable[..] == t0[frame := Some(page)];
      memory := memory[page := Record(frame, dirty)];
    }

    /** `_evict`: drop the page held in frame `draw`, write it back when dirty, and return that frame. */
    method Evict(draw: nat) returns (victimFrame: nat)
      requires Wellformed() && |memory| >= frames && draw < frames
      modifies this`memory, this`diskWrites
      ensures var p := frameTable[draw].value;
        p in old(memory) && victimFrame == draw && memory == old(memory) - {p}
        && diskWrites == old(diskWrites) + (if old(memory)[p].dirty then 1 else 0)
    {
      var victimPage := frameTable[draw].value;
      if memory[victimPage].dirty {
        diskWrites := diskWrites + 1;
      }
      memory := memory - {victimPage};
      return draw;
    }

    method GetTotalDiskReads() returns (r: nat)
      ensures r == diskReads
    {
      return diskReads;
    }

    method GetTotalDiskWrites() returns (r: nat)
      ensures r == diskWrites
    {
      return diskWrites;
    }

    method GetTotalPageFaults() returns (r: nat)
      ensures r == pageFaults
    {
      return pageFaults;
    }
  }

  /** Loading a page into an empty frame keeps the records and the frame table in step. */
  lemma LoadFree(t: seq<Option<nat>>, m: map<nat, Record>, f: nat, page: nat, dirty: bool)
    requires Consistent(t, m) && |m| == Occupied(t) && f < |t| && t[f].None? && page !in m
    ensures var t', m' := t[f := Some(page)], m[page := Record(f, dirty)];
      Consistent(t', m') && |m'| == Occupied(t') && |m'| == |m| + 1
  {
    OccupiedStore(t, f, page);
  }

  /** Loading a page into frame `draw` of a full table, in place of the page there, keeps everything in step. */
  lemma LoadVictim(t: seq<Option<nat>>, m: map<nat, Record>, draw: nat, page: nat, dirty: bool)
    requires Consistent(t, m) && |m| == Occupied(t) && |m| >= |t| && draw < |t| && page !in m
    ensures t[draw].Some? && t[draw].value in m
    ensures var t', m' := t[draw := Some(page)], (m - {t[draw].value})[page := Record(draw, dirty)];
      Consistent(t', m') && |m'| == Occupied(t') && |m'| == |m|
  {
    ReplaceKeySize(m, t[draw].value, page, Record(draw, dirty));
    OccupiedStore(t, draw, page);
  }

  /**
   * A load on a table with an empty frame puts the page, with the given dirty
   * flag, into the lowest empty frame, keeps every other record and writes nothing back.
   */
  lemma LoadTakesFreeFrame(t: seq<Option<nat>>, m: map<nat, Record>, w: nat, draw: nat, page: nat, dirty: bool)
    requires draw < |t| && Consistent(t, m) && |m| == Occupied(t) && |m| < |t| && page !in m
    ensures var (t', m', w') := AfterLoad(t, m, w, draw, page, dirty);
      var f := FirstFree(t).value;
      t[f].None? && (forall i :: 0 <= i < f ==> t[i].Some?)
      && m' == m[page := Record(f, dirty)] && t'[f] == Some(page) && w' == w
      && Consistent(t', m') && |m'| <= |t'| == |t|
  {
    LoadFree(t, m, FirstFree(t).value, page, dirty);
    var (t', m', w') := AfterLoad(t, m, w, draw, page, dirty);
    assert |m'| == Occupied(t');
  }

  /**
   * A load on a full table evicts the page held in frame `draw`, writes it
   * back iff it was dirty, and puts the new page in that frame; the other
   * records are kept and the table stays full.
   */
  lemma LoadEvictsDrawn(t: seq<Option<nat>>, m: map<nat, Record>, w: nat, draw: nat, page: nat, dirty: bool)
    requires draw < |t| && Consistent(t, m) && |m| == Occupied(t) && |m| >= |t| && page !in m
    ensures t[draw].Some? && t[draw].value in m
    ensures var (t', m', w') := AfterLoad(t, m, w, draw, page, dirty);
      var p := t[draw].value;
      p !in m' && m' == (m - {p})[page := Record(draw, dirty)] && t'[draw] == Some(page)
      && w' == w + (if m[p].dirty then 1 else 0)
      && Consistent(t', m') && |m'| == |t'| == |t|
  {
    LoadVictim(t, m, draw, page, dirty);
    var (t', m', w') := AfterLoad(t, m, w, draw, page, dirty);
    assert |m'| == Occupied(t');
  }
}
