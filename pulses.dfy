/**
 * Pulse conversion: a log of line-transition timestamps (integer microseconds)
 * becomes the list of durations between consecutive transitions, each
 * saturated at 65535.
 */
module Pulses {
  import opened DhtTypes

  /** Largest pulse duration kept; longer gaps saturate here. */
  const MaxPulse := 65535

  /** Number of trailing transitions the converter keeps (the `-81` slice). */
  const Window := 81

  /** The duration between two transitions, saturated at MaxPulse. */
  function Pulse(earlier: int, later: int): int {
    Min(later - earlier, MaxPulse)
  }

  /** `transitions[-81:]`: the last 81 timestamps, or all of them when fewer exist. */
  function Last81(transitions: seq<int>): (kept: seq<int>)
    ensures |kept| == Min(|transitions|, Window)
    ensures kept == transitions[|transitions| - |kept|..]
  {
    if |transitions| <= Window then transitions else transitions[|transitions| - Window..]
  }

  /** The consecutive differences of a timestamp log, built in order of the log. */
  function PulsesOf(ts: seq<int>): seq<int>
    decreases |ts|
  {
    if |ts| < 2 then [] else PulsesOf(ts[..|ts| - 1]) + [Pulse(ts[|ts| - 2], ts[|ts| - 1])]
  }

  /** Each timestamp is at least the one before it, as a monotonic clock guarantees. */
  predicate NonDecreasing(ts: seq<int>) {
    forall i :: 0 < i < |ts| ==> ts[i - 1] <= ts[i]
  }

  /** A pulse never exceeds MaxPulse; it is the exact gap up to MaxPulse and saturates beyond. */
  lemma PulseSaturates(earlier: int, later: int)
    ensures Pulse(earlier, later) <= MaxPulse
    ensures later - earlier <= MaxPulse ==> Pulse(earlier, later) == later - earlier
    ensures later - earlier > MaxPulse ==> Pulse(earlier, later) == MaxPulse
    ensures earlier <= later ==> 0 <= Pulse(earlier, later)
  {
  }

  /** A log of n timestamps gives n - 1 pulses, pulse k spanning timestamps k and k + 1. */
  lemma {:induction false} PulsesOfShape(ts: seq<int>)
    ensures |PulsesOf(ts)| == if |ts| == 0 then 0 else |ts| - 1
    ensures forall k :: 0 <= k < |PulsesOf(ts)| ==> PulsesOf(ts)[k] == Pulse(ts[k], ts[k + 1])
  {
    if |ts| >= 2 {
      var init := ts[..|ts| - 1];
      PulsesOfShape(init);
      forall k | 0 <= k < |PulsesOf(ts)|
        ensures PulsesOf(ts)[k] == Pulse(ts[k], ts[k + 1])
      {
        if k < |PulsesOf(init)| {
          assert init[k] == ts[k] && init[k + 1] == ts[k + 1];
        }
      }
    }
  }

  /**
   * `_transitions_to_pulse`: keeps the last 81 transitions and appends the
   * saturated gap between each consecutive pair. The `last` argument is
   * accepted and ignored, as in the driver, whose slice is fixed at 81.
   */
  method TransitionsToPulse(transitions: seq<int>, last: int) returns (pulses: seq<int>)
    ensures pulses == PulsesOf(Last81(transitions))
    ensures |pulses| == if |transitions| == 0 then 0 else Min(|transitions|, Window) - 1
  {
    var kept := Last81(transitions);
    pulses := [];
    var i := 1;
    while i < |kept|
      invariant 1 <= i && (|kept| > 0 ==> i <= |kept|)
      invariant |kept| > 0 ==> pulses == PulsesOf(kept[..i])
      invariant |kept| == 0 ==> pulses == []
    {
      assert kept[..i + 1][..i] == kept[..i];
      pulses := pulses + [Pulse(kept[i - 1], kept[i])];
      i := i + 1;
    }
    if |kept| > 0 {
      assert kept[..i] == kept;
    }
    PulsesOfShape(kept);
  }

  /**
   * The converter's pulses are the saturated gaps of the last 81 transitions:
   * pulse k spans timestamps n - m + k and n - m + k + 1, where m = min(n, 81).
   */
  lemma LastPulses(transitions: seq<int>)
    ensures |PulsesOf(Last81(transitions))| == if transitions == [] then 0 else |Last81(transitions)| - 1
    ensures forall k :: 0 <= k < |Last81(transitions)| - 1 ==>
      PulsesOf(Last81(transitions))[k]
        == Pulse(transitions[|transitions| - |Last81(transitions)| + k], transitions[|transitions| - |Last81(transitions)| + k + 1])
  {
    PulsesOfShape(Last81(transitions));
  }

  /** Every pulse of a non-decreasing log lies in 0..MaxPulse. */
  lemma PulsesInRange(transitions: seq<int>)
    requires NonDecreasing(transitions)
    ensures forall k :: 0 <= k < |PulsesOf(Last81(transitions))| ==> 0 <= PulsesOf(Last81(transitions))[k] <= MaxPulse
  {
    var offset := |transitions| - |Last81(transitions)|;
    var pulses := PulsesOf(Last81(transitions));
    LastPulses(transitions);
    forall k | 0 <= k < |pulses|
      ensures 0 <= pulses[k] <= MaxPulse
    {
      assert transitions[offset + k] <= transitions[offset + k + 1];
      PulseSaturates(transitions[offset + k], transitions[offset + k + 1]);
    }
  }

  /** Transitions before the last 81 never influence the pulses. */
  lemma EarlierTransitionsDiscarded(earlier: seq<int>, transitions: seq<int>)
    requires |transitions| >= Window
    ensures PulsesOf(Last81(earlier + transitions)) == PulsesOf(Last81(transitions))
    ensures |PulsesOf(Last81(earlier + transitions))| == Window - 1
  {
    assert Last81(earlier + transitions) == Last81(transitions);
    PulsesOfShape(Last81(transitions));
  }
}
