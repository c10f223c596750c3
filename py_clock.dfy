/**
 * The clock (second-chance) MMU of the alternate copy, py/clockmmu.py: a
 * dictionary from each resident page to its frame, dirty flag and reference
 * bit, and a frame table naming the page held by each frame.
 */
module PyClock {
  import opened Frames
  import opened ClockSweep

  /** The record `{frame, dirty, ref}` of one resident page; `ref` is 1 or 0 in the source. */
  datatype Record = Record(frame: nat, dirty: bool, ref: bool)

  /** Each resident page sits in the frame its record names, and each occupied frame holds a resident page. */
  ghost predicate Consistent(table: seq<Option<nat>>, memory: map<nat, Record>)
  {
    (forall p :: p in memory ==> memory[p].frame < |table| && table[memory[p].frame] == Some(p))
    && (forall i :: 0 <= i < |table| && table[i].Some? ==>
          table[i].value in memory && memory[table[i].value].frame == i)
  }

  /**
   * The frames the sweep passes over: an empty frame, or one whose page has
   * its reference bit set.
   */
  function PassBits(table: seq<Option<nat>>, memory: map<nat, Record>): (bits: seq<bool>)
    ensures |bits| == |table|
  {
    seq(|table|, i requires 0 <= i < |table| =>
      table[i].None? || (table[i].value in memory && memory[table[i].value].ref))
  }

  /** The records after the hand has moved `k` frames on from `hand`, clearing the bit of each page it passed. */
  function SweptMemory(memory: map<nat, Record>, hand: nat, n: nat, k: nat): (r: map<nat, Record>)
    requires hand < n
    ensures r.Keys == memory.Keys
  {
    map p | p in memory ::
      if memory[p].frame < n && Offset(memory[p].frame, hand, n) < k then memory[p].(ref := false) else memory[p]
  }

  /**
   * What `_evict` leaves behind on a full table `t` with records `m`, hand `h`
   * and write count `w`: the records without the victim (after the sweep
   * cleared the bits it passed), the new hand, the new write count and the
   * victim's frame.
   */
  function Evicted(t: seq<Option<nat>>, m: map<nat, Record>, h: nat, w: nat): (r: (map<nat, Record>, nat, nat, nat))
    requires h < |t| && Consistent(t, m) && forall i :: 0 <= i < |t| ==> t[i].Some?
    ensures r.3 < |t| && r.1 < |t| && t[r.3].value in m && m[t[r.3].value].frame == r.3
    ensures r.0.Keys == m.Keys - {t[r.3].value}
    ensures r.2 == w || r.2 == w + 1
  {
    var d := ClearDistance(PassBits(t, m), h, 0);
    var v := Advance(h, d, |t|);
    (SweptMemory(m, h, |t|, d) - {t[v].value}, Advance(v, 1, |t|), w + (if m[t[v].value].dirty then 1 else 0), v)
  }

  /**
   * What `_load_page(page, dirty)` leaves behind: the frame table, the
   * records, the hand and the write count once `page` is in the first empty
   * frame, or in the frame `_evict` freed when none is empty.
   */
  function AfterLoad(t: seq<Option<nat>>, m: map<nat, Record>, h: nat, w: nat, page: nat, dirty: bool)
    : (r: (seq<Option<nat>>, map<nat, Record>, nat, nat))
    requires h < |t| && Consistent(t, m) && |m| == Occupied(t)
    ensures |r.0| == |t| && r.2 < |t| && page in r.1
    ensures r.1[page].frame < |t| && r.0[r.1[page].frame] == Some(page)
    ensures r.1[page].dirty == dirty && r.1[page].ref
  {
    if |m| < |t| then
      var f := FirstFree(t).value;
      (t[f := Some(page)], m[page := Record(f, dirty, true)], h, w)
    else
      var e := Evicted(t, m, h, w);
      (t[e.3 := Some(page)], e.0[page := Record(e.3, dirty, true)], e.1, e.2)
  }

  class ClockMMU {
    const frames: nat
    const frameTable: array<Option<nat>>
    var memory: map<nat, Record>
    var clockHand: nat
    var diskReads: nat
    var diskWrites: nat
    var pageFaults: nat

    /** The records and the frame table agree, and the hand is on a frame. */
    ghost predicate Wellformed()
      reads this, frameTable
    {
      frames >= 1 && frameTable.Length == frames && clockHand < frames
      && Consistent(frameTable[..], memory)
      && |memory| == Occupied(frameTable[..])
    }

    /** Wellformed, every fault read one page, and each dirty eviction followed a fault on a full table. */
    ghost predicate Valid()
      reads this, frameTable
    {
      Wellformed() && diskReads == pageFaults && diskWrites + |memory| <= pageFaults
    }

    constructor (frames: nat)
      requires frames >= 1
      ensures Valid() && this.frames == frames && fresh(frameTable)
      ensures frameTable[..] == seq(frames, _ => None) && memory == map[] && clockHand == 0
      ensures diskReads == 0 && diskWrites == 0 && pageFaults == 0
    {
      this.frames := frames;
      frameTable := new Option<nat>[frames](_ => None);
      memory := map[];
      clockHand := 0;
      diskReads, diskWrites, pageFaults := 0, 0, 0;
      new;
      OccupiedNone(frameTable[..]);
    }

    method ReadMemory(page: nat)
      requires Valid()
      modifies this, frameTable
      ensures Valid()
      ensures page in old(memory) ==>
        memory == old(memory)[page := old(memory[page]).(ref := true)]
        && frameTable[..] == old(frameTable[..]) && clockHand == old(clockHand)
        && diskReads == old(diskReads) && diskWrites == old(diskWrites) && pageFaults == old(pageFaults)
      ensures page !in old(memory) ==>
        pageFaults == old(pageFaults) + 1 && diskReads == old(diskReads) + 1
        && (frameTable[..], memory, clockHand, diskWrites)
           == AfterLoad(old(frameTable[..]), old(memory), old(clockHand), old(diskWrites), page, false)
    {
      if page in memory {
        memory := memory[page := memory[page].(ref := true)];
        return;
      }
      var frame := LoadPage(page, false);
    }

    method WriteMemory(page: nat)
      requires Valid()
      modifies this, frameTable
      ensures Valid()
      ensures page in old(memory) ==>
        memory == old(memory)[page := old(memory[page]).(dirty := true, ref := true)]
        && frameTable[..] == old(frameTable[..]) && clockHand == old(clockHand)
        && diskReads == old(diskReads) && diskWrites == old(diskWrites) && pageFaults == old(pageFaults)
      ensures page !in old(memory) ==>
        pageFaults == old(pageFaults) + 1 && diskReads == old(diskReads) + 1
        && (frameTable[..], memory, clockHand, diskWrites)
           == AfterLoad(old(frameTable[..]), old(memory), old(clockHand), old(diskWrites), page, true)
    {
      if page in memory {
        memory := memory[page := memory[page].(dirty := true, ref := true)];
        return;
      }
      var frame := LoadPage(page, true);
    }

    /** Brings a missing page in: into the lowest empty frame while one is left, otherwise into the frame `_evict` frees. */
    method LoadPage(page: nat, dirty: bool) returns (frame: nat)
      requires Wellformed() && page !in memory
      modifies this`memory, this`clockHand, this`diskReads, this`diskWrites, this`pageFaults, frameTable
      ensures Wellformed()
      ensures (frameTable[..], memory, clockHand, diskWrites)
        == AfterLoad(old(frameTable[..]), old(memory), old(clockHand), old(diskWrites), page, dirty)
      ensures page in memory && frame == memory[page].frame
      ensures diskReads == old(diskReads) + 1 && pageFaults == old(pageFaults) + 1
      ensures diskWrites + |memory| <= old(diskWrites) + old(|memory|) + 1
    {
      ghost var t0 := frameTable[..];
      if |memory| < frames {
        var free := FindFree(frameTable);
        frame := free.value;
        LoadFree(t0, memory, frame, page, dirty);
      } else {
        FullTable(t0, memory);
        frame := Evict();
        EvictThenLoad(t0, old(memory), old(clockHand), page, dirty);
      }
      diskReads := diskReads + 1;
      pageFaults := pageFaults + 1;
      frameTable[frame] := Some(page);
      assert frameTable[..] == t0[frame := Some(page)];
      memory := memory[page := Record(frame, dirty, true)];
    }

    /**
     * `_evict`: sweep to the first page found unreferenced, drop it from the
     * records, write it back when dirty, move the hand one past it and return
     * its frame; the frame table is left as it was.
     */
    method Evict() returns (victimFrame: nat)
      requires frames >= 1 && frameTable.Length == frames && clockHand < frames
      requires Consistent(frameTable[..], memory)
      requires forall i :: 0 <= i < frames ==> frameTable[i].Some?
      modifies this`memory, this`clockHand, this`diskWrites
      ensures (memory, clockHand, diskWrites, victimFrame)
        == Evicted(frameTable[..], old(memory), old(clockHand), old(diskWrites))
    {
      Sweep();
      var victimPage := frameTable[clockHand].value;
      var frame := memory[victimPage].frame;
      if memory[victimPage].dirty {
        diskWrites := diskWrites + 1;
      }
      memory := memory - {victimPage};
      victimFrame := frame;
      NextFrame(clockHand, frames);
      clockHand := (clockHand + 1) % frames;
    }

    /**
     * The `while True` loop of `_evict` up to the victim: skip an empty frame,
     * clear the bit of a referenced page, and move the hand on, until the
     * hand is on a page whose bit is clear.
     */
    method Sweep()
      requires frames >= 1 && frameTable.Length == frames && clockHand < frames
      requires Consistent(frameTable[..], memory)
      requires forall i :: 0 <= i < frames ==> frameTable[i].Some?
      modifies this`memory, this`clockHand
      ensures var d := ClearDistance(PassBits(frameTable[..], old(memory)), old(clockHand), 0);
        memory == SweptMemory(old(memory), old(clockHand), frames, d)
        && clockHand == Advance(old(clockHand), d, frames)
      ensures frameTable[clockHand].Some? && frameTable[clockHand].value in memory
      ensures !memory[frameTable[clockHand].value].ref
    {
      ghost var t, m0, h := frameTable[..], memory, clockHand;
      ghost var d := ClearDistance(PassBits(t, m0), h, 0);
      ghost var k := 0;
      SweepStep(t, m0, h, k);
      var hand, records := clockHand, memory;
      while frameTable[hand].None? || records[frameTable[hand].value].ref
        invariant 0 <= k <= d <= frames
        invariant hand == Advance(h, k, frames)
        invariant records == SweptMemory(m0, h, frames, k)
        invariant t[hand].value in records
        invariant records[t[hand].value].ref <==> k < d
        decreases d - k
      {
        var page := frameTable[hand].value;
        SweepMove(t, m0, h, k);
        records := records[page := records[page].(ref := false)];
        NextFrame(hand, frames);
        hand := (hand + 1) % frames;
        k := k + 1;
      }
      memory, clockHand := records, hand;
    }

    method GetTotalDiskReads() returns (r: nat)
      ensures r == diskReads
    {
      return diskReads;
    }

    method GetTotalDiskWrites() returns (r: nat)
      ensures r == diskWrites
    {
      return diskWrites;
    }

    method GetTotalPageFaults() returns (r: nat)
      ensures r == pageFaults
    {
      return pageFaults;
    }
  }

  /**
   * The page `_evict` drops is the first one from the hand whose bit was
   * clear, every page the hand passed on the way having had its bit set; when
   * every bit was set it is the page the hand started on. Its frame is
   * returned, the hand ends one frame past it, the other pages keep their
   * frames and dirty flags, and a write-back is counted exactly when it was dirty.
   */
  lemma {:induction false} EvictGivesSecondChance(t: seq<Option<nat>>, m: map<nat, Record>, h: nat, w: nat)
    requires h < |t| && Consistent(t, m) && forall i :: 0 <= i < |t| ==> t[i].Some?
    ensures var e := Evicted(t, m, h, w);
      var v := e.3;
      v < |t| && t[v].Some? && var p := t[v].value;
      p in m && m[p].frame == v && e.1 == Advance(v, 1, |t|)
      && ((!m[p].ref && forall j :: 0 <= j < Offset(v, h, |t|) ==> m[t[Advance(h, j, |t|)].value].ref)
          || (v == h && forall q :: q in m ==> m[q].ref))
      && e.0.Keys == m.Keys - {p}
      && (forall q :: q in e.0 ==> e.0[q].frame == m[q].frame && e.0[q].dirty == m[q].dirty)
      && e.2 == w + (if m[p].dirty then 1 else 0)
  {
    var bits := PassBits(t, m);
    VictimFrame(bits, h);
    var d := ClearDistance(bits, h, 0);
    var v := Advance(h, d, |t|);
    if !(!bits[v] && forall j :: 0 <= j < Offset(v, h, |t|) ==> bits[Advance(h, j, |t|)]) {
      forall q | q in m ensures m[q].ref {
        assert bits[m[q].frame];
      }
    }
  }

  /** When as many pages are resident as there are frames, no frame is empty. */
  lemma FullTable(table: seq<Option<nat>>, memory: map<nat, Record>)
    requires |memory| == Occupied(table) && |memory| >= |table|
    ensures forall i :: 0 <= i < |table| ==> table[i].Some?
  {
  }

  /**
   * After `k` steps of the sweep, the page under the hand still has its bit
   * set exactly when the sweep has not yet reached the distance
   * `ClearDistance` names: so the sweep stops there and nowhere earlier.
   */
  lemma SweepStep(t: seq<Option<nat>>, m0: map<nat, Record>, h: nat, k: nat)
    requires h < |t| && Consistent(t, m0) && forall i :: 0 <= i < |t| ==> t[i].Some?
    requires k <= ClearDistance(PassBits(t, m0), h, 0)
    ensures var i := Advance(h, k, |t|);
      SweptMemory(m0, h, |t|, k)[t[i].value].ref <==> k < ClearDistance(PassBits(t, m0), h, 0)
  {
    var d := ClearDistance(PassBits(t, m0), h, 0);
    var i := Advance(h, k, |t|);
    if k < d {
      assert PassBits(t, m0)[i];
      assert Offset(i, h, |t|) == k;
    } else if d < |t| {
      assert !PassBits(t, m0)[i];
      assert Offset(i, h, |t|) == k;
    } else {
      assert Offset(i, h, |t|) == 0;
    }
  }

  /**
   * One step of the sweep before it reaches its victim: the page under the
   * hand loses its bit, the hand moves one frame on, and the sweep still
   * stops exactly at distance `ClearDistance`.
   */
  lemma SweepMove(t: seq<Option<nat>>, m0: map<nat, Record>, h: nat, k: nat)
    requires h < |t| && Consistent(t, m0) && forall i :: 0 <= i < |t| ==> t[i].Some?
    requires k < ClearDistance(PassBits(t, m0), h, 0)
    ensures var m, p := SweptMemory(m0, h, |t|, k), t[Advance(h, k, |t|)].value;
      m[p := m[p].(ref := false)] == SweptMemory(m0, h, |t|, k + 1)
    ensures Advance(Advance(h, k, |t|), 1, |t|) == Advance(h, k + 1, |t|)
    ensures var i := Advance(h, k + 1, |t|);
      SweptMemory(m0, h, |t|, k + 1)[t[i].value].ref <==> k + 1 < ClearDistance(PassBits(t, m0), h, 0)
  {
    SweepClears(t, m0, h, k, t[Advance(h, k, |t|)].value);
    AdvanceStep(h, k, |t|);
    SweepStep(t, m0, h, k + 1);
  }

  /** One more step of the sweep clears the bit of the page in the frame under the hand and no other. */
  lemma SweepClears(t: seq<Option<nat>>, m0: map<nat, Record>, h: nat, k: nat, p: nat)
    requires h < |t| && k < |t| && Consistent(t, m0) && p in m0 && m0[p].frame == Advance(h, k, |t|)
    ensures var m := SweptMemory(m0, h, |t|, k);
      m[p := m[p].(ref := false)] == SweptMemory(m0, h, |t|, k + 1)
  {
    var n := |t|;
    assert Offset(m0[p].frame, h, n) == k;
    forall q | q in m0 && q != p ensures Offset(m0[q].frame, h, n) != k {
      assert t[m0[q].frame] == Some(q);
    }
  }

  /** Loading a page into an empty frame keeps the records, the frame table and the occupancy in step. */
  lemma LoadFree(t: seq<Option<nat>>, m: map<nat, Record>, f: nat, page: nat, dirty: bool)
    requires Consistent(t, m) && |m| == Occupied(t) && f < |t| && t[f].None? && page !in m
    ensures var t', m' := t[f := Some(page)], m[page := Record(f, dirty, true)];
      Consistent(t', m') && |m'| == Occupied(t') && |m'| == |m| + 1
  {
    OccupiedStore(t, f, page);
  }

  /** Loading a page into the frame `_evict` freed keeps the records and the frame table in step. */
  lemma EvictThenLoad(t: seq<Option<nat>>, m0: map<nat, Record>, h: nat, page: nat, dirty: bool)
    requires h < |t| && Consistent(t, m0) && |m0| == Occupied(t) && page !in m0
    requires forall i :: 0 <= i < |t| ==> t[i].Some?
    ensures var e := Evicted(t, m0, h, 0);
      var t', m' := t[e.3 := Some(page)], e.0[page := Record(e.3, dirty, true)];
      Consistent(t', m') && |m'| == Occupied(t') && |m'| == |m0|
  {
    var d := ClearDistance(PassBits(t, m0), h, 0);
    var v := Advance(h, d, |t|);
    var s := SweptMemory(m0, h, |t|, d);
    SweptConsistent(t, m0, h, d);
    ReplaceInFrame(t, s, v, page, Record(v, dirty, true));
    OccupiedStore(t, v, page);
  }

  /** Clearing reference bits moves no page. */
  lemma SweptConsistent(t: seq<Option<nat>>, m0: map<nat, Record>, h: nat, k: nat)
    requires h < |t| && Consistent(t, m0)
    ensures Consistent(t, SweptMemory(m0, h, |t|, k))
  {
  }

  /** Putting a new page into an occupied frame, in place of the page there, keeps the records and the table in step. */
  lemma ReplaceInFrame(t: seq<Option<nat>>, m: map<nat, Record>, v: nat, page: nat, r: Record)
    requires Consistent(t, m) && v < |t| && t[v].Some? && page !in m && r.frame == v
    ensures var m' := (m - {t[v].value})[page := r];
      Consistent(t[v := Some(page)], m') && |m'| == |m|
  {
    ReplaceKeySize(m, t[v].value, page, r);
  }
}
