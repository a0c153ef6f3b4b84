/**
 * Demodulation: pulses become bits by a threshold on the high-level
 * durations, and bits become a number most significant bit first.
 */
module Demodulation {
  import opened DhtTypes

  /** Default threshold in microseconds: a high pulse longer than this is a 1 bit. */
  const HiLevel := 51

  function BitOf(pulse: int, hiLevel: int): nat {
    if pulse > hiLevel then 1 else 0
  }

  /**
   * `pulses[start:start + length:2]`: every second pulse from `start`,
   * stopping before `start + length` or the end of the list, whichever comes first.
   */
  function Sampled(pulses: seq<int>, start: nat, length: nat): (s: seq<int>)
    ensures |s| <= (length + 1) / 2
    ensures start + length <= |pulses| ==> |s| == (length + 1) / 2
    ensures start >= |pulses| ==> s == []
    ensures start < |pulses| ==> |s| == (Min(start + length, |pulses|) - start + 1) / 2
  {
    var stop := Min(start + length, |pulses|);
    if start >= stop then []
    else seq((stop - start + 1) / 2, k requires 0 <= k < (stop - start + 1) / 2 => pulses[start + 2 * k])
  }

  /** Sample k of the slice is pulse start + 2 k. */
  lemma SampledElements(pulses: seq<int>, start: nat, length: nat)
    ensures forall k :: 0 <= k < |Sampled(pulses, start, length)| ==>
      start + 2 * k < |pulses| && Sampled(pulses, start, length)[k] == pulses[start + 2 * k]
  {
  }

  /** The number whose bits, most significant first, are the thresholded samples. */
  function Binary(samples: seq<int>, hiLevel: int): (v: nat)
    ensures v < Pow2(|samples|)
    decreases |samples|
  {
    if samples == [] then 0
    else 2 * Binary(samples[..|samples| - 1], hiLevel) + BitOf(samples[|samples| - 1], hiLevel)
  }

  /** Sample k sets bit |samples| - 1 - k: the first sample lands in the highest bit. */
  lemma {:induction false} BinaryBit(samples: seq<int>, hiLevel: int, k: nat)
    requires k < |samples|
    ensures Bit(Binary(samples, hiLevel), |samples| - 1 - k) == BitOf(samples[k], hiLevel)
  {
    var n := |samples|;
    var init := samples[..n - 1];
    var v := Binary(init, hiLevel);
    assert Binary(samples, hiLevel) == 2 * v + BitOf(samples[n - 1], hiLevel);
    if k < n - 1 {
      BinaryBit(init, hiLevel, k);
      assert (2 * v + BitOf(samples[n - 1], hiLevel)) / 2 == v;
      assert init[k] == samples[k];
    }
  }

  /**
   * `_pulses_to_binary`: samples every second pulse of the window and
   * accumulates one bit per sample, most significant first.
   */
  method PulsesToBinary(pulses: seq<int>, start: nat, length: nat, hiLevel: int) returns (binary: nat)
    ensures binary == Binary(Sampled(pulses, start, length), hiLevel)
    ensures binary < Pow2((length + 1) / 2)
    ensures length == 16 ==> binary < 256
  {
    var samples := Sampled(pulses, start, length);
    binary := 0;
    var i := 0;
    while i < |samples|
      invariant 0 <= i <= |samples|
      invariant binary == Binary(samples[..i], hiLevel)
    {
      assert samples[..i + 1][..i] == samples[..i];
      var bit := BitOf(samples[i], hiLevel);
      binary := binary * 2 + bit;  // `binary << 1 | bit`: the shifted-in low bit is 0, so `|` adds
      i := i + 1;
    }
    assert samples[..i] == samples;
    BinaryFacts(pulses, start, length, hiLevel);
  }

  /** The bound and bit rules of a demodulated window, as the method promises them. */
  lemma BinaryFacts(pulses: seq<int>, start: nat, length: nat, hiLevel: int)
    ensures Binary(Sampled(pulses, start, length), hiLevel) < Pow2((length + 1) / 2)
    ensures length == 16 ==> Binary(Sampled(pulses, start, length), hiLevel) < 256
  {
    Pow2Monotone(|Sampled(pulses, start, length)|, (length + 1) / 2);
    if length == 16 {
      Pow2Byte();
    }
  }

  /** In a full window, bit (n - 1 - k) of the value is set iff sampled pulse k exceeds the threshold. */
  lemma WindowBits(pulses: seq<int>, start: nat, length: nat, hiLevel: int)
    requires start + length <= |pulses|
    ensures forall k :: 0 <= k < (length + 1) / 2 ==>
      (Bit(Binary(Sampled(pulses, start, length), hiLevel), (length + 1) / 2 - 1 - k) == 1 <==> pulses[start + 2 * k] > hiLevel)
  {
    var samples := Sampled(pulses, start, length);
    SampledElements(pulses, start, length);
    forall k | 0 <= k < (length + 1) / 2
      ensures Bit(Binary(samples, hiLevel), |samples| - 1 - k) == 1 <==> pulses[start + 2 * k] > hiLevel
    {
      BinaryBit(samples, hiLevel, k);
    }
  }

  lemma Pow2Byte()
    ensures Pow2(8) == 256
  {
  }

  lemma {:induction false} Pow2Monotone(m: nat, n: nat)
    requires m <= n
    ensures Pow2(m) <= Pow2(n)
  {
    if m < n {
      Pow2Monotone(m, n - 1);
    }
  }

  /** Low-level pulses (odd offsets from `start`) never change the demodulated value. */
  lemma OddPulsesIgnored(pulses: seq<int>, start: nat, length: nat, hiLevel: int, k: nat, v: int)
    requires start + 2 * k + 1 < |pulses|
    ensures Binary(Sampled(pulses[start + 2 * k + 1 := v], start, length), hiLevel)
         == Binary(Sampled(pulses, start, length), hiLevel)
  {
    var changed := pulses[start + 2 * k + 1 := v];
    var s, s' := Sampled(pulses, start, length), Sampled(changed, start, length);
    SampledElements(pulses, start, length);
    SampledElements(changed, start, length);
    assert |s| == |s'|;
    forall m | 0 <= m < |s|
      ensures s'[m] == s[m]
    {
      assert start + 2 * m != start + 2 * k + 1;
    }
    assert s' == s;
  }
}
