/**
 * Short access traces run through the models, with the counters and the
 * resident pages they end with.
 */
module Scenarios {
  import opened Frames
  import ClockSweep
  import P2Clock
  import PyClock
  import P2Lru
  import TemplateLru
  import PyLru
  import TemplateRand
  import PyRand
  import P2Rand

  /** The working clock with two frames after `read 1, read 2, read 1`: both frames full, both bits set. */
  method WorkingClockFilled() returns (mmu: P2Clock.ClockMMU)
    ensures fresh(mmu) && fresh(mmu.frameTable) && mmu.Valid() && mmu.frames == 2
    ensures mmu.frameTable[..] == [Some(P2Clock.Entry(1, true, false)), Some(P2Clock.Entry(2, true, false))]
    ensures mmu.pointer == 0 && mmu.pageFaults == 2 && mmu.diskReads == 2 && mmu.diskWrites == 0
  {
    mmu := new P2Clock.ClockMMU(2);
    mmu.ReadMemory(1);
    assert mmu.frameTable[..] == [Some(P2Clock.Entry(1, true, false)), None];
    assert mmu.pageMap == map[1 := 0] && mmu.pageFaults == 1;
    mmu.ReadMemory(2);
    assert mmu.pageMap == map[1 := 0, 2 := 1];
    mmu.ReadMemory(1);
  }

  /**
   * Clock with two frames, `read 1, read 2, read 1, write 3`: both reference
   * bits are set when page 3 faults, so the sweep clears both, comes back to
   * frame 0 and evicts page 1; page 2 stays with its bit cleared.
   */
  method WorkingClockTrace() returns (faults: nat, readCount: nat, writeCount: nat, table: seq<Option<P2Clock.Entry>>)
    ensures faults == 3 && readCount == 3 && writeCount == 0
    ensures table == [Some(P2Clock.Entry(3, true, true)), Some(P2Clock.Entry(2, false, false))]
  {
    var mmu := WorkingClockFilled();
    ghost var t := mmu.frameTable[..];
    assert FirstFree(t).None?;
    assert P2Clock.RefBits(t) == [true, true];
    assert ClockSweep.ClearDistance([true, true], 0, 0) == 2;
    mmu.WriteMemory(3);
    faults := mmu.GetTotalPageFaults();
    readCount := mmu.GetTotalDiskReads();
    writeCount := mmu.GetTotalDiskWrites();
    table := mmu.frameTable[..];
  }

  /**
   * LRU on the ordered dictionary with two frames, `read 1, read 2, read 1,
   * read 3`: page 1 was used last, so page 3 evicts page 2.
   */
  method WorkingLruTrace() returns (faults: nat, readCount: nat, writeCount: nat, order: seq<P2Lru.Entry>)
    ensures faults == 3 && readCount == 3 && writeCount == 0
    ensures order == [P2Lru.Entry(1, false), P2Lru.Entry(3, false)]
  {
    var mmu := new P2Lru.LruMMU(2);
    mmu.ReadMemory(1);
    mmu.ReadMemory(2);
    assert mmu.memory == [P2Lru.Entry(1, false), P2Lru.Entry(2, false)];
    assert P2Lru.Pages(mmu.memory) == [1, 2];
    mmu.ReadMemory(1);
    assert mmu.memory == [P2Lru.Entry(2, false), P2Lru.Entry(1, false)];
    assert P2Lru.Pages(mmu.memory) == [2, 1];
    mmu.ReadMemory(3);
    faults := mmu.GetTotalPageFaults();
    readCount := mmu.GetTotalDiskReads();
    writeCount := mmu.GetTotalDiskWrites();
    order := mmu.memory;
  }

  /** The alternate clock with two frames after `read 1, read 2, read 1`: both frames full, both bits set. */
  method AlternateClockFilled() returns (mmu: PyClock.ClockMMU)
    ensures fresh(mmu) && fresh(mmu.frameTable) && mmu.Valid() && mmu.frames == 2
    ensures mmu.frameTable[..] == [Some(1), Some(2)]
    ensures mmu.memory == map[1 := PyClock.Record(0, false, true), 2 := PyClock.Record(1, false, true)]
    ensures mmu.clockHand == 0 && mmu.pageFaults == 2 && mmu.diskReads == 2 && mmu.diskWrites == 0
  {
    mmu := new PyClock.ClockMMU(2);
    assert FirstFree(mmu.frameTable[..]) == Some(0);
    mmu.ReadMemory(1);
    assert mmu.frameTable[..] == [Some(1), None];
    assert FirstFree(mmu.frameTable[..]) == Some(1);
    mmu.ReadMemory(2);
    assert mmu.frameTable[..] == [Some(1), Some(2)];
    mmu.ReadMemory(1);
  }

  /**
   * The alternate clock on the same trace, `read 1, read 2, read 1, write 3`:
   * the sweep clears both bits, evicts page 1 from frame 0 and leaves the
   * hand on frame 1.
   */
  method AlternateClockTrace() returns (faults: nat, readCount: nat, writeCount: nat, table: seq<Option<nat>>, hand: nat)
    ensures faults == 3 && readCount == 3 && writeCount == 0
    ensures table == [Some(3), Some(2)] && hand == 1
  {
    var mmu := AlternateClockFilled();
    ghost var t := mmu.frameTable[..];
    assert FirstFree(t).None?;
    assert PyClock.PassBits(t, mmu.memory) == [true, true];
    assert ClockSweep.ClearDistance([true, true], 0, 0) == 2;
    mmu.WriteMemory(3);
    faults := mmu.GetTotalPageFaults();
    readCount := mmu.GetTotalDiskReads();
    writeCount := mmu.GetTotalDiskWrites();
    table := mmu.frameTable[..];
    hand := mmu.clockHand;
  }

  /** The timestamped LRU with two frames after `read 1, read 2`. */
  method TemplateLruLoaded() returns (mmu: TemplateLru.LruMMU)
    ensures fresh(mmu) && mmu.Valid() && mmu.frames == 2 && mmu.time == 2
    ensures mmu.frameTable == map[1 := TemplateLru.Slot(0, 1, false), 2 := TemplateLru.Slot(1, 2, false)]
    ensures mmu.frameList == [1, 2] && mmu.pageFaults == 2 && mmu.diskReads == 2 && mmu.diskWrites == 0
  {
    mmu := new TemplateLru.LruMMU(2);
    mmu.ReadMemory(1);
    mmu.ReadMemory(2);
  }

  /** The timestamped LRU with two frames after `read 1, read 2, read 1`. */
  method TemplateLruFilled() returns (mmu: TemplateLru.LruMMU)
    ensures fresh(mmu) && mmu.Valid() && mmu.frames == 2 && mmu.time == 3
    ensures mmu.frameTable == map[1 := TemplateLru.Slot(0, 3, false), 2 := TemplateLru.Slot(1, 2, false)]
    ensures mmu.frameList == [1, 2] && mmu.pageFaults == 2 && mmu.diskReads == 2 && mmu.diskWrites == 0
  {
    mmu := TemplateLruLoaded();
    mmu.ReadMemory(1);
  }

  /**
   * LRU with timestamps, `read 1, read 2, read 1, read 3` with two frames:
   * page 2 holds the smallest stamp, so page 3 takes its frame.
   */
  method TemplateLruTrace() returns (faults: nat, readCount: nat, writeCount: nat, resident: seq<nat>)
    ensures faults == 3 && readCount == 3 && writeCount == 0
    ensures resident == [1, 3]
  {
    var mmu := TemplateLruFilled();
    assert TemplateLru.LeastRecent(mmu.frameList, mmu.frameTable) == 2;
    mmu.ReadMemory(3);
    faults := mmu.GetTotalPageFaults();
    readCount := mmu.GetTotalDiskReads();
    writeCount := mmu.GetTotalDiskWrites();
    resident := mmu.frameList;
  }

  /** The alternate LRU with two frames after `read 1, read 2`. */
  method AlternateLruLoaded() returns (mmu: PyLru.LruMMU)
    ensures fresh(mmu) && fresh(mmu.frameTable) && mmu.Valid() && mmu.frames == 2 && mmu.time == 2
    ensures mmu.frameTable[..] == [Some(1), Some(2)]
    ensures mmu.memory == map[1 := PyLru.Record(0, false, 1), 2 := PyLru.Record(1, false, 2)]
    ensures mmu.pageFaults == 2 && mmu.diskReads == 2 && mmu.diskWrites == 0
  {
    mmu := new PyLru.LruMMU(2);
    assert FirstFree(mmu.frameTable[..]) == Some(0);
    mmu.ReadMemory(1);
    assert mmu.frameTable[..] == [Some(1), None];
    assert FirstFree(mmu.frameTable[..]) == Some(1);
    mmu.ReadMemory(2);
  }

  /** The alternate LRU with two frames after `read 1, read 2, read 1`. */
  method AlternateLruFilled() returns (mmu: PyLru.LruMMU)
    ensures fresh(mmu) && fresh(mmu.frameTable) && mmu.Valid() && mmu.frames == 2 && mmu.time == 3
    ensures mmu.frameTable[..] == [Some(1), Some(2)]
    ensures mmu.memory == map[1 := PyLru.Record(0, false, 3), 2 := PyLru.Record(1, false, 2)]
    ensures mmu.pageFaults == 2 && mmu.diskReads == 2 && mmu.diskWrites == 0
  {
    mmu := AlternateLruLoaded();
    mmu.ReadMemory(1);
  }

  /**
   * The alternate LRU on `read 1, read 2, read 1, read 3` with two frames:
   * page 2 was used at time 2 and page 1 at time 3, so page 3 takes frame 1.
   */
  method AlternateLruTrace() returns (faults: nat, readCount: nat, writeCount: nat, table: seq<Option<nat>>)
    ensures faults == 3 && readCount == 3 && writeCount == 0
    ensures table == [Some(1), Some(3)]
  {
    var mmu := AlternateLruFilled();
    assert PyLru.IsLeastRecent(mmu.memory, 2);
    mmu.ReadMemory(3);
    faults := mmu.GetTotalPageFaults();
    readCount := mmu.GetTotalDiskReads();
    writeCount := mmu.GetTotalDiskWrites();
    table := mmu.frameTable[..];
  }

  /**
   * Random replacement with one frame, `write 5, read 6`: the only frame is
   * the one drawn, and page 5 was dirty, so it is written back.
   */
  method TemplateRandTrace() returns (faults: nat, readCount: nat, writeCount: nat, table: seq<Option<TemplateRand.Entry>>)
    ensures faults == 2 && readCount == 2 && writeCount == 1
    ensures table == [Some(TemplateRand.Entry(6, false))]
  {
    var mmu := new TemplateRand.RandMMU(1);
    mmu.WriteMemory(5, 0);
    assert mmu.frameTable[..] == [Some(TemplateRand.Entry(5, true))];
    mmu.ReadMemory(6, 0);
    faults := mmu.GetTotalPageFaults();
    readCount := mmu.GetTotalDiskReads();
    writeCount := mmu.GetTotalDiskWrites();
    table := mmu.frameTable[..];
  }

  /** The alternate random MMU on `write 5, read 6` with one frame: page 5 is written back. */
  method AlternateRandTrace() returns (faults: nat, readCount: nat, writeCount: nat, table: seq<Option<nat>>)
    ensures faults == 2 && readCount == 2 && writeCount == 1
    ensures table == [Some(6)]
  {
    var mmu := new PyRand.RandMMU(1);
    mmu.WriteMemory(5, 0);
    assert mmu.frameTable[..] == [Some(5)];
    mmu.ReadMemory(6, 0);
    faults := mmu.GetTotalPageFaults();
    readCount := mmu.GetTotalDiskReads();
    writeCount := mmu.GetTotalDiskWrites();
    table := mmu.frameTable[..];
  }

  /** The working random MMU on `write 5, read 6` with one slot: the overwrite counts one disk write. */
  method WorkingRandTrace() returns (faults: nat, readCount: nat, writeCount: nat, table: seq<nat>)
    ensures faults == 2 && readCount == 2 && writeCount == 1
    ensures table == [6]
  {
    var mmu := new P2Rand.RandMMU(1);
    mmu.WriteMemory(5, 0);
    mmu.ReadMemory(6, 0);
    faults := mmu.GetTotalPageFaults();
    readCount := mmu.GetTotalDiskReads();
    writeCount := mmu.GetTotalDiskWrites();
    table := mmu.table;
  }

  /**
   * The working random MMU on `read 5, read 6` with one slot: page 5 was
   * never written, yet the overwrite still counts a disk write.
   */
  method WorkingRandCleanTrace() returns (faults: nat, readCount: nat, writeCount: nat, table: seq<nat>)
    ensures faults == 2 && readCount == 2 && writeCount == 1
    ensures table == [6]
  {
    var mmu := new P2Rand.RandMMU(1);
    mmu.ReadMemory(5, 0);
    mmu.ReadMemory(6, 0);
    faults := mmu.GetTotalPageFaults();
    readCount := mmu.GetTotalDiskReads();
    writeCount := mmu.GetTotalDiskWrites();
    table := mmu.table;
  }
}
