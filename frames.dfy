/** Frame-table facts shared by every page-replacement policy of the simulator. */
module Frames {

  datatype Option<T> = None | Some(value: T)

  /** The lowest index of an empty frame, or None when every frame is occupied. */
  function FirstFree<T>(table: seq<Option<T>>): (r: Option<nat>)
    ensures r.Some? ==> r.value < |table| && table[r.value].None?
    ensures r.Some? ==> forall k :: 0 <= k < r.value ==> table[k].Some?
    ensures r.None? <==> forall k :: 0 <= k < |table| ==> table[k].Some?
  {
    if table == [] then None
    else if table[0].None? then Some(0)
    else match FirstFree(table[1..])
      case None => None
      case Some(i) => Some(i + 1)
  }

  /**
   * The scan for an empty frame: the `for` loop over the frame table of the
   * working and template copies, and `frame_table.index(None)` of the alternate
   * copy (there only called when an empty frame exists).
   */
  method FindFree<T>(table: array<Option<T>>) returns (r: Option<nat>)
    ensures r == FirstFree(table[..])
  {
    var i := 0;
    while i < table.Length
      invariant 0 <= i <= table.Length
      invariant forall k :: 0 <= k < i ==> table[k].Some?
    {
      if table[i].None? {
        return Some(i);
      }
      i := i + 1;
    }
    return None;
  }

  /** The number of occupied frames. */
  function Occupied<T>(table: seq<Option<T>>): (n: nat)
    ensures n <= |table|
    ensures n == |table| <==> forall k :: 0 <= k < |table| ==> table[k].Some?
  {
    if table == [] then 0
    else (if table[0].Some? then 1 else 0) + Occupied(table[1..])
  }

  /** A table of empty frames has no occupant. */
  lemma {:induction false} OccupiedNone<T>(table: seq<Option<T>>)
    requires forall k :: 0 <= k < |table| ==> table[k].None?
    ensures Occupied(table) == 0
  {
    if table != [] {
      OccupiedNone(table[1..]);
    }
  }

  /** Filling one frame raises the occupancy by one exactly when that frame was empty. */
  lemma {:induction false} OccupiedStore<T>(table: seq<Option<T>>, i: nat, x: T)
    requires i < |table|
    ensures Occupied(table[i := Some(x)]) == Occupied(table) + (if table[i].None? then 1 else 0)
  {
    if i > 0 {
      OccupiedStore(table[1..], i - 1, x);
      assert table[i := Some(x)][1..] == table[1..][i - 1 := Some(x)];
    } else {
      assert table[i := Some(x)][1..] == table[1..];
    }
  }

  /** Replacing one key of a map by a new key keeps its size. */
  lemma ReplaceKeySize<V>(m: map<nat, V>, gone: nat, added: nat, v: V)
    requires gone in m && added !in m
    ensures |(m - {gone})[added := v]| == |m|
  {
    var rest := m - {gone};
    assert rest.Keys == m.Keys - {gone};
    assert |m.Keys - {gone}| == |m.Keys| - 1;
  }
}
