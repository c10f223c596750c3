/**
 * The LRU MMU of the working copy, PythonP2/lrummu.py. Its `OrderedDict`
 * is a sequence of (page, dirty) entries, least recently used first.
 */
module P2Lru {

  /** One entry of the ordered dictionary: a resident page and its dirty flag. */
  datatype Entry = Entry(page: nat, dirty: bool)

  /** The resident pages in recency order. */
  function Pages(memory: seq<Entry>): (pages: seq<nat>)
    ensures |pages| == |memory|
    ensures forall i :: 0 <= i < |memory| ==> pages[i] == memory[i].page
  {
    if memory == [] then [] else [memory[0].page] + Pages(memory[1..])
  }

  /** No page has two entries. */
  ghost predicate Distinct(memory: seq<Entry>)
  {
    forall i, j :: 0 <= i < j < |memory| ==> memory[i].page != memory[j].page
  }

  /** Where `page` sits in the recency order. */
  function IndexOf(memory: seq<Entry>, page: nat): (i: nat)
    requires page in Pages(memory)
    ensures i < |memory| && memory[i].page == page
    ensures forall j :: 0 <= j < i ==> memory[j].page != page
  {
    if memory[0].page == page then 0 else IndexOf(memory[1..], page) + 1
  }

  /** `memory.pop(page)` followed by re-inserting `e` last. */
  function MoveToEnd(memory: seq<Entry>, i: nat, e: Entry): (r: seq<Entry>)
    requires i < |memory|
    ensures |r| == |memory| && r[|r| - 1] == e
    ensures forall j :: 0 <= j < i ==> r[j] == memory[j]
    ensures forall j :: i <= j < |memory| - 1 ==> r[j] == memory[j + 1]
  {
    memory[..i] + memory[i + 1..] + [e]
  }

  /** The recency order after a miss: the front entry is popped when memory is full, then `e` goes last. */
  function Admitted(memory: seq<Entry>, frames: nat, e: Entry): (r: seq<Entry>)
    ensures 1 <= |r| <= |memory| + 1 && r[|r| - 1] == e
    ensures forall x :: x in r[..|r| - 1] ==> x in memory
  {
    (if |memory| >= frames && |memory| > 0 then memory[1..] else memory) + [e]
  }

  class LruMMU {
    const frames: nat
    var memory: seq<Entry>
    var diskReads: nat
    var diskWrites: nat
    var pageFaults: nat

    /** At most `frames` distinct resident pages; every fault read one page; write-backs only after a fault on a full memory. */
    ghost predicate Valid()
      reads this
    {
      frames >= 1 && |memory| <= frames && Distinct(memory)
      && diskReads == pageFaults && diskWrites + |memory| <= pageFaults
    }

    /** What a miss on `page` does: evict the least recently used entry when full, then append `page` last. */
    twostate predicate Missed(page: nat, dirty: bool): (r: bool)
      reads this
      ensures r ==> (memory != [] && memory[|memory| - 1] == Entry(page, dirty)
                     && pageFaults == old(pageFaults) + 1 && diskReads == old(diskReads) + 1)
    {
      pageFaults == old(pageFaults) + 1 && diskReads == old(diskReads) + 1
      && memory == Admitted(old(memory), frames, Entry(page, dirty))
      && diskWrites == old(diskWrites) + (if |old(memory)| >= frames && |old(memory)| > 0 && old(memory)[0].dirty then 1 else 0)
    }

    constructor (frames: nat)
      requires frames >= 1
      ensures Valid() && this.frames == frames && memory == []
      ensures diskReads == 0 && diskWrites == 0 && pageFaults == 0
    {
      this.frames := frames;
      memory := [];
      diskReads, diskWrites, pageFaults := 0, 0, 0;
    }

    method ReadMemory(page: nat)
      requires Valid()
      modifies this
      ensures Valid()
      ensures page in Pages(old(memory)) ==>
        var i := IndexOf(old(memory), page);
        memory == MoveToEnd(old(memory), i, old(memory)[i])
        && diskReads == old(diskReads) && diskWrites == old(diskWrites) && pageFaults == old(pageFaults)
      ensures page !in Pages(old(memory)) ==> Missed(page, false)
    {
      if page in Pages(memory) {
        var i := IndexOf(memory, page);
        MoveKeepsDistinct(memory, i, memory[i]);
        memory := MoveToEnd(memory, i, memory[i]);
      } else {
        AdmitKeepsDistinct(memory, frames, Entry(page, false));
        pageFaults := pageFaults + 1;
        diskReads := diskReads + 1;
        if |memory| >= frames {
          var evicted := memory[0];
          memory := memory[1..];
          if evicted.dirty {
            diskWrites := diskWrites + 1;
          }
        }
        memory := memory + [Entry(page, false)];
      }
    }

    method WriteMemory(page: nat)
      requires Valid()
      modifies this
      ensures Valid()
      ensures page in Pages(old(memory)) ==>
        var i := IndexOf(old(memory), page);
        memory == MoveToEnd(old(memory), i, Entry(page, true))
        && diskReads == old(diskReads) && diskWrites == old(diskWrites) && pageFaults == old(pageFaults)
      ensures page !in Pages(old(memory)) ==> Missed(page, true)
    {
      if page in Pages(memory) {
        var i := IndexOf(memory, page);
        MoveKeepsDistinct(memory, i, Entry(page, true));
        memory := MoveToEnd(memory, i, Entry(page, true));
      } else {
        AdmitKeepsDistinct(memory, frames, Entry(page, true));
        pageFaults := pageFaults + 1;
        diskReads := diskReads + 1;
        if |memory| >= frames {
          var evicted := memory[0];
          memory := memory[1..];
          if evicted.dirty {
            diskWrites := diskWrites + 1;
          }
        }
        memory := memory + [Entry(page, true)];
      }
    }

    method GetTotalDiskReads() returns (r: nat)
      ensures r == diskReads
    {
      return diskReads;
    }

    method GetTotalDiskWrites() returns (r: nat)
      ensures r == diskWrites
    {
      return diskWrites;
    }

    method GetTotalPageFaults() returns (r: nat)
      ensures r == pageFaults
    {
      return pageFaults;
    }
  }

  /** Moving an entry of the same page to the end keeps the pages distinct. */
  lemma MoveKeepsDistinct(memory: seq<Entry>, i: nat, e: Entry)
    requires Distinct(memory) && i < |memory| && e.page == memory[i].page
    ensures Distinct(MoveToEnd(memory, i, e))
  {
    var r := MoveToEnd(memory, i, e);
    forall a, b | 0 <= a < b < |r| ensures r[a].page != r[b].page {
      var a' := if a < i then a else a + 1;
      var b' := if b == |r| - 1 then i else if b < i then b else b + 1;
      assert r[a].page == memory[a'].page && r[b].page == memory[b'].page && a' != b';
    }
  }

  /**
   * A miss on a page not resident keeps the pages distinct and memory within
   * `frames`: on a full memory the least recently used entry, and only it,
   * leaves, and the missed page becomes the most recently used.
   */
  lemma AdmitKeepsDistinct(memory: seq<Entry>, frames: nat, e: Entry)
    requires frames >= 1 && |memory| <= frames && Distinct(memory) && e.page !in Pages(memory)
    ensures var r := Admitted(memory, frames, e);
      Distinct(r) && |r| <= frames && r[|r| - 1] == e
      && (|memory| < frames ==> r[..|memory|] == memory)
      && (|memory| == frames ==>
            |r| == frames && r[..|r| - 1] == memory[1..]
            && forall i :: 0 <= i < |r| ==> r[i].page != memory[0].page)
  {
    var shift := if |memory| == frames then 1 else 0;
    var kept := memory[shift..];
    var r := kept + [e];
    assert Admitted(memory, frames, e) == r;
    forall i | 0 <= i < |kept| ensures kept[i] == memory[i + shift] && kept[i].page != e.page {
      assert Pages(memory)[i + shift] == memory[i + shift].page;
    }
    forall i, j | 0 <= i < j < |r| ensures r[i].page != r[j].page {
      if j < |kept| {
        assert r[i] == memory[i + shift] && r[j] == memory[j + shift];
      }
    }
  }
}
