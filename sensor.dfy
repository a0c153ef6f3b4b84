/**
 * The DHT22 driver object: a rate limiter over one piece of state, and the
 * measurement that frames 80 pulses into 5 bytes, checks them and decodes
 * them. Pin capture is outside the model: the transitions it would return
 * and the monotonic clock reading are parameters.
 */
module Sensor {
  import opened DhtTypes
  import opened Pulses
  import opened Demodulation
  import opened Checksum
  import opened Decoding

  /** Default cooldown, 2 seconds, in microseconds. */
  const DefaultDelay := 2_000_000

  /** Fewest transitions a measurement accepts. */
  const MinTransitions := 81

  /** The byte demodulated from the 16 pulses (8 high/low pairs) starting at `start`. */
  function ByteAt(pulses: seq<int>, start: nat, hiLevel: int): Byte {
    var samples := Sampled(pulses, start, 16);
    Pow2Monotone(|samples|, 8);
    Pow2Byte();
    Binary(samples, hiLevel)
  }

  /** The 5-byte frame cut from pulse offsets 0, 16, 32, 48 and 64. */
  function Frame(pulses: seq<int>, hiLevel: int): (frame: seq<Byte>)
    ensures |frame| == 5
  {
    seq(5, j requires 0 <= j < 5 => ByteAt(pulses, 16 * j, hiLevel))
  }

  /** Bit 7 - k of frame byte j is set iff high pulse 16 j + 2 k exceeds the threshold. */
  lemma FrameBits(pulses: seq<int>, hiLevel: int, j: nat, k: nat)
    requires |pulses| >= 80 && j < 5 && k < 8
    ensures Bit(Frame(pulses, hiLevel)[j], 7 - k) == 1 <==> pulses[16 * j + 2 * k] > hiLevel
  {
    WindowBits(pulses, 16 * j, 16, hiLevel);
  }

  /**
   * What one measurement returns once the rate limiter has let it through:
   * too few transitions fail before any conversion; otherwise the last 81
   * give 80 pulses, 5 bytes, and a reading if the checksum holds.
   */
  function Decode(transitions: seq<int>, hiLevel: int): Result<Reading> {
    if |transitions| < MinTransitions then Err(FewTransitions(|transitions|))
    else
      var frame := Frame(PulsesOf(Last81(transitions)), hiLevel);
      if ChecksumOk(frame) then Ok(GetTempHumidity(frame)) else Err(WrongChecksum)
  }

  /** Only the last 81 transitions decide the outcome of a measurement. */
  lemma DecodeUsesLast81(earlier: seq<int>, transitions: seq<int>, hiLevel: int)
    requires |transitions| >= MinTransitions
    ensures Decode(earlier + transitions, hiLevel) == Decode(transitions, hiLevel)
  {
    EarlierTransitionsDiscarded(earlier, transitions);
  }

  /** A successful measurement is exactly the decoding of a checksum-valid frame. */
  lemma DecodeSucceeds(transitions: seq<int>, hiLevel: int)
    ensures Decode(transitions, hiLevel).Ok? <==>
      |transitions| >= MinTransitions && ChecksumOk(Frame(PulsesOf(Last81(transitions)), hiLevel))
    ensures Decode(transitions, hiLevel).Ok? ==>
      Representable(Decode(transitions, hiLevel).value) && Decode(transitions, hiLevel).value.humidity >= 0
  {
  }

  /**
   * The rate limiter's decision: the first call (nothing recorded) passes;
   * later calls fail if fewer than `delay` microseconds have passed since the
   * recorded call.
   */
  function RateCheck(lastCalled: int, delay: int, now: int): Outcome {
    if lastCalled != 0 && now - lastCalled < delay then Fail(TooFrequent) else Pass
  }

  /** The times, in order, of the calls among `calls` that the rate limiter lets through. */
  function Admitted(lastCalled: int, delay: int, calls: seq<int>): seq<int>
    decreases |calls|
  {
    if calls == [] then []
    else if RateCheck(lastCalled, delay, calls[0]).Pass? then [calls[0]] + Admitted(calls[0], delay, calls[1..])
    else Admitted(lastCalled, delay, calls[1..])
  }

  /**
   * Admitted calls (at non-zero clock readings) are at least `delay` apart,
   * and the first is at least `delay` after an earlier recorded call.
   */
  lemma {:induction false} AdmittedSpaced(lastCalled: int, delay: int, calls: seq<int>)
    requires forall i :: 0 <= i < |calls| ==> calls[i] != 0
    ensures forall i :: 0 < i < |Admitted(lastCalled, delay, calls)| ==>
      Admitted(lastCalled, delay, calls)[i] - Admitted(lastCalled, delay, calls)[i - 1] >= delay
    ensures lastCalled != 0 && |Admitted(lastCalled, delay, calls)| > 0 ==>
      Admitted(lastCalled, delay, calls)[0] - lastCalled >= delay
    decreases |calls|
  {
    if calls != [] {
      var rest := calls[1..];
      if RateCheck(lastCalled, delay, calls[0]).Pass? {
        AdmittedSpaced(calls[0], delay, rest);
      } else {
        AdmittedSpaced(lastCalled, delay, rest);
      }
    }
  }

  /** With the default 2 s cooldown: first call passes, 0.1 s later fails, 2.1 s later passes. */
  lemma RateLimiterTimeline(t0: int)
    requires t0 != 0
    ensures RateCheck(0, DefaultDelay, t0) == Pass
    ensures RateCheck(t0, DefaultDelay, t0 + 100_000) == Fail(TooFrequent)
    ensures RateCheck(t0, DefaultDelay, t0 + 2_100_000) == Pass
  {
  }

  class DHT22 {
    /** Board pin number; used only by the pin driver, which is not modelled. */
    const pin: int
    /** Minimum spacing between measurement attempts, in microseconds. */
    var delayBetweenReadings: int
    /** Threshold in microseconds above which a high pulse is a 1 bit. */
    const hiLevel: int
    /** Clock reading of the last admitted call; 0 means no call yet. */
    var lastCalled: int

    constructor (pin: int)
      ensures this.pin == pin
      ensures delayBetweenReadings == DefaultDelay && hiLevel == HiLevel && lastCalled == 0
    {
      this.pin := pin;
      delayBetweenReadings := DefaultDelay;
      hiLevel := HiLevel;
      lastCalled := 0;
    }

    /** `_check_last_call`: fails when called too soon, otherwise records `now`. */
    method CheckLastCall(now: int) returns (r: Outcome)
      modifies this`lastCalled
      ensures r == RateCheck(old(lastCalled), delayBetweenReadings, now)
      ensures lastCalled == if r.Pass? then now else old(lastCalled)
    {
      if lastCalled != 0 && now - lastCalled < delayBetweenReadings {
        return Fail(TooFrequent);
      }
      lastCalled := now;
      return Pass;
    }

    /**
     * `measure`: rate-limits, then decodes the captured transitions. The call
     * time is recorded before decoding, so a failed decode still starts the
     * cooldown.
     */
    method Measure(transitions: seq<int>, now: int) returns (r: Result<Reading>)
      modifies this`lastCalled
      ensures old(RateCheck(lastCalled, delayBetweenReadings, now)).Fail? ==>
        r == Err(TooFrequent) && lastCalled == old(lastCalled)
      ensures old(RateCheck(lastCalled, delayBetweenReadings, now)).Pass? ==>
        r == Decode(transitions, hiLevel) && lastCalled == now
    {
      var admitted := CheckLastCall(now);
      if admitted.Fail? {
        return Err(admitted.error);
      }

      if |transitions| < MinTransitions {
        return Err(FewTransitions(|transitions|));
      }

      var pulses := TransitionsToPulse(transitions, MinTransitions);

      ghost var frame := Frame(pulses, hiLevel);
      var package: seq<Byte> := [];
      var byteStart := 0;
      while byteStart < 80
        invariant |package| <= 5 && byteStart == 16 * |package|
        invariant package == frame[..|package|]
        invariant lastCalled == now
      {
        var b := PulsesToBinary(pulses, byteStart, 16, hiLevel);
        assert b == frame[|package|];
        package := package + [b];
        byteStart := byteStart + 16;
      }
      assert package == frame;

      var checked := CheckSum(package);
      if checked.Fail? {
        return Err(checked.error);
      }
      return Ok(GetTempHumidity(package));
    }
  }
}
