/**
 * The sensor's side of the wire, used to state what a measurement recovers:
 * for each bit the sensor holds the line high for 26 us (a 0) or 70 us (a 1)
 * and then low for 50 us. A timestamp log built from those durations decodes
 * back to the frame it carries.
 */
module Synthetic {
  import opened DhtTypes
  import opened Pulses
  import opened Demodulation
  import opened Checksum
  import opened Decoding
  import opened Sensor

  const LowTime := 50
  const ZeroHigh := 26
  const OneHigh := 70

  function HighTime(bit: nat): int {
    if bit == 1 then OneHigh else ZeroHigh
  }

  /** The 80 durations for a frame: per bit, most significant first, its high time then a low gap. */
  function FrameDurations(frame: seq<Byte>): (d: seq<int>)
    requires |frame| == 5
    ensures |d| == 80
  {
    seq(80, i requires 0 <= i < 80 =>
      if i % 2 == 1 then LowTime else HighTime(Bit(frame[i / 16], 7 - (i % 16) / 2)))
  }

  /** Timestamps starting at `start`, each the previous one plus the next duration. */
  function Timeline(start: int, durations: seq<int>): (ts: seq<int>)
    ensures |ts| == |durations| + 1 && ts[0] == start
    decreases |durations|
  {
    if durations == [] then [start] else [start] + Timeline(start + durations[0], durations[1..])
  }

  /** The transition log the sensor produces for a frame. */
  function Encode(start: int, frame: seq<Byte>): seq<int>
    requires |frame| == 5
  {
    Timeline(start, FrameDurations(frame))
  }

  /** The frame the sensor sends for four data bytes: the data followed by their checksum. */
  function WithChecksum(data: seq<Byte>): (frame: seq<Byte>)
    requires |data| == 4
    ensures |frame| == 5 && frame[..4] == data && ChecksumOk(frame)
  {
    data + [(data[0] as int + data[1] + data[2] + data[3]) % 256]
  }

  /** Consecutive timestamps of a timeline are exactly the given durations apart. */
  lemma {:induction false} TimelineGaps(start: int, durations: seq<int>)
    ensures forall k :: 0 <= k < |durations| ==>
      Timeline(start, durations)[k + 1] - Timeline(start, durations)[k] == durations[k]
    decreases |durations|
  {
    if durations != [] {
      var tail := Timeline(start + durations[0], durations[1..]);
      TimelineGaps(start + durations[0], durations[1..]);
      assert Timeline(start, durations) == [start] + tail;
    }
  }

  /** The pulse converter recovers the durations the sensor drove. */
  lemma EncodedPulses(start: int, frame: seq<Byte>)
    requires |frame| == 5
    ensures PulsesOf(Last81(Encode(start, frame))) == FrameDurations(frame)
  {
    var ts := Encode(start, frame);
    var d := FrameDurations(frame);
    assert Last81(ts) == ts;
    PulsesOfShape(ts);
    TimelineGaps(start, d);
    forall k | 0 <= k < 80
      ensures PulsesOf(ts)[k] == d[k]
    {
      PulseSaturates(ts[k], ts[k + 1]);
    }
  }

  /** Duration 16 j + 2 k is the high time of bit 7 - k of byte j. */
  lemma DurationAt(frame: seq<Byte>, j: nat, k: nat)
    requires |frame| == 5 && j < 5 && k < 8
    ensures FrameDurations(frame)[16 * j + 2 * k] == HighTime(Bit(frame[j], 7 - k))
  {
    var i := 16 * j + 2 * k;
    var q, r := i / 16, i % 16;
    assert i == 16 * q + r && 0 <= r < 16;
    assert q == j;
    assert r == 2 * k;
  }

  /** High pulse k of byte j carries bit 7 - k of that byte. */
  lemma EncodedBit(frame: seq<Byte>, hiLevel: int, j: nat, k: nat)
    requires |frame| == 5 && ZeroHigh <= hiLevel < OneHigh && j < 5 && k < 8
    ensures Bit(Frame(FrameDurations(frame), hiLevel)[j], 7 - k) == Bit(frame[j], 7 - k)
  {
    var pulses := FrameDurations(frame);
    FrameBits(pulses, hiLevel, j, k);
    DurationAt(frame, j, k);
  }

  /** Demodulating the sensor's durations gives back every byte of the frame. */
  lemma EncodedFrame(frame: seq<Byte>, hiLevel: int)
    requires |frame| == 5 && ZeroHigh <= hiLevel < OneHigh
    ensures Frame(FrameDurations(frame), hiLevel) == frame
  {
    var decoded := Frame(FrameDurations(frame), hiLevel);
    Pow2Byte();
    forall j | 0 <= j < 5
      ensures decoded[j] == frame[j]
    {
      forall i | 0 <= i < 8
        ensures Bit(decoded[j], i) == Bit(frame[j], i)
      {
        EncodedBit(frame, hiLevel, j, 7 - i);
      }
      BitsDetermine(decoded[j], frame[j], 8);
    }
  }

  /**
   * End to end: whatever transitions came before, a log the sensor produced
   * for a frame decodes to that frame's reading when its checksum holds, and
   * to a checksum failure otherwise.
   */
  lemma RoundTrip(earlier: seq<int>, start: int, frame: seq<Byte>, hiLevel: int)
    requires |frame| == 5 && ZeroHigh <= hiLevel < OneHigh
    ensures Decode(earlier + Encode(start, frame), hiLevel)
         == if ChecksumOk(frame) then Ok(GetTempHumidity(frame)) else Err(WrongChecksum)
  {
    DecodeUsesLast81(earlier, Encode(start, frame), hiLevel);
    EncodedPulses(start, frame);
    EncodedFrame(frame, hiLevel);
  }

  /** Every representable reading the sensor sends is the reading a measurement returns. */
  lemma ReadingRoundTrip(earlier: seq<int>, start: int, r: Reading, hiLevel: int)
    requires Representable(r) && ZeroHigh <= hiLevel < OneHigh
    ensures Decode(earlier + Encode(start, WithChecksum(EncodeReading(r))), hiLevel) == Ok(r)
  {
    var frame := WithChecksum(EncodeReading(r));
    RoundTrip(earlier, start, frame, hiLevel);
    assert frame[..4] == EncodeReading(r);
    assert GetTempHumidity(frame) == GetTempHumidity(frame[..4]);
    DecodeEncode(r);
  }
}
