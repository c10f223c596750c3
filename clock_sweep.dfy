/**
 * The second-chance sweep shared by both clock copies. The hand starts at
 * `hand`; a frame whose bit is set (referenced, or for the alternate copy
 * also an empty slot) is passed, every other frame stops the sweep.
 */
module ClockSweep {

  /** The frame reached after moving the hand `k` frames on from `hand`, going round at most once. */
  function Advance(hand: nat, k: nat, n: nat): (i: nat)
    requires hand < n && k <= n
    ensures i < n
  {
    if hand + k < n then hand + k else hand + k - n
  }

  /** How many frames the hand moves from `hand` before it reaches frame `i`. */
  function Offset(i: nat, hand: nat, n: nat): (k: nat)
    requires i < n && hand < n
    ensures k < n && Advance(hand, k, n) == i
  {
    if i >= hand then i - hand else i + n - hand
  }

  /** `(p + 1) % n` is the next frame round the clock. */
  lemma NextFrame(p: nat, n: nat)
    requires p < n
    ensures (p + 1) % n == Advance(p, 1, n)
  {
    if p + 1 < n {
      assert (p + 1) / n == 0;
    } else {
      assert (p + 1) / n == 1;
    }
  }

  /** One more step after `k` steps is `k + 1` steps. */
  lemma AdvanceStep(hand: nat, k: nat, n: nat)
    requires hand < n && k < n
    ensures Advance(Advance(hand, k, n), 1, n) == Advance(hand, k + 1, n)
  {
  }

  /**
   * The number of frames the hand passes from `hand` (having passed `k`
   * already) before it meets a frame whose bit is clear; |passed| when every
   * bit is set, in which case the hand comes back to `hand`.
   */
  function ClearDistance(passed: seq<bool>, hand: nat, k: nat): (d: nat)
    requires hand < |passed| && k <= |passed|
    ensures k <= d <= |passed|
    ensures d < |passed| ==> !passed[Advance(hand, d, |passed|)]
    ensures forall j :: k <= j < d ==> passed[Advance(hand, j, |passed|)]
    decreases |passed| - k
  {
    if k == |passed| then k
    else if !passed[Advance(hand, k, |passed|)] then k
    else ClearDistance(passed, hand, k + 1)
  }

  /**
   * The frame the sweep stops on: the first frame from the hand whose bit is
   * clear, or the frame the hand started on when every bit was set.
   */
  lemma {:induction false} VictimFrame(passed: seq<bool>, hand: nat)
    requires hand < |passed|
    ensures var v := Advance(hand, ClearDistance(passed, hand, 0), |passed|);
            (!passed[v] && forall j :: 0 <= j < Offset(v, hand, |passed|) ==> passed[Advance(hand, j, |passed|)])
            || (v == hand && forall i :: 0 <= i < |passed| ==> passed[i])
  {
    var n := |passed|;
    var d := ClearDistance(passed, hand, 0);
    if d == n {
      forall i | 0 <= i < n ensures passed[i] {
        assert Advance(hand, Offset(i, hand, n), n) == i;
      }
    } else {
      assert Offset(Advance(hand, d, n), hand, n) == d;
    }
  }
}
