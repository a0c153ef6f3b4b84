# DHT22 decode pipeline in Dafny

A model of the decode core of the `DHT22` driver class. The class turns the
timestamps at which a DHT22 humidity/temperature sensor toggled its data line
into a checked (temperature, humidity) reading:

1. **Pulse conversion** keeps the last 81 transition timestamps and takes the
   gap between each consecutive pair, saturated at 65535 µs (`pulses.dfy`).
2. **Demodulation** samples every second pulse of a 16-pulse window. Each
   sample gives one bit: 1 when the high time exceeds 51 µs. The bits are
   accumulated most significant first (`demod.dfy`).
3. **Framing** cuts five bytes from pulse offsets 0, 16, 32, 48 and 64
   (`sensor.dfy`, `Frame` and the loop in `DHT22.Measure`).
4. **Checksum**: the low byte of the sum of bytes 0–3 must equal byte 4
   (`checksum.dfy`).
5. **Decoding**: humidity is big-endian bytes 0–1; temperature is the 15-bit
   magnitude in bytes 2–3, and bit 7 of byte 2 is its sign (`decoding.dfy`).
6. **Rate limiting**: the `lastCalled` field refuses calls closer together
   than `delayBetweenReadings`. An admitted call is recorded before the
   protocol runs, so a failed decode still starts the cooldown
   (`sensor.dfy`, class `DHT22`).

Units: timestamps are integer microseconds, and readings are integer tenths
(tenths of a degree Celsius, tenths of a percent). `Sensor.Decode` is the
whole pipeline as one function: what `DHT22.Measure` returns once the rate
limiter lets a call through. `synthetic.dfy` models the sensor's side of the
wire: for each bit, a high of 26 µs (a 0) or 70 µs (a 1), then a 50 µs low.
It proves that a measurement of such a log returns exactly the reading the
sensor encoded, whatever transitions came before it.

The bytes `02 3C 01 05` decode to 57.2 % humidity and 26.1 °C
(0x023C = 572 tenths, 0x0105 = 261 tenths), as `Decoding.ExampleReadings`
states.

## Model

| member | source | states |
|---|---|---|
| `Pulses.Last81` | dht/dht.py:108 | the kept transitions are the last min(n, 81) of the log, in order |
| `Pulses.PulseSaturates` | dht/dht.py:110-111 | a pulse is at most 65535; it equals the gap when the gap is at most 65535 and is 65535 beyond that (no wrap-around); it is non-negative for ordered timestamps |
| `Pulses.PulsesOfShape` | dht/dht.py:109-111 | n timestamps give n - 1 pulses (none for an empty log), pulse k being the saturated gap between timestamps k and k + 1 |
| `Pulses.TransitionsToPulse` | dht/dht.py:98-112 | the loop yields the pulses of the last 81 transitions, min(n, 81) - 1 of them (0 when n = 0); the `last` argument has no effect |
| `Pulses.LastPulses` | dht/dht.py:108-111 | pulse k is the saturated gap between timestamps n - m + k and n - m + k + 1 of the log, m = min(n, 81), so timestamps before the last 81 are dropped |
| `Pulses.PulsesInRange` | dht/dht.py:109-111 | for a non-decreasing log every pulse lies in 0..65535 |
| `Pulses.EarlierTransitionsDiscarded` | dht/dht.py:107-112 | with at least 81 transitions, prepending any earlier transitions leaves the 80 pulses unchanged (82 inputs give the same 80 pulses as the last 81) |
| `Demodulation.Sampled` | dht/dht.py:132 | the slice `pulses[start:start+length:2]` has (min(start + length, n) - start + 1) / 2 samples, at most (length + 1) / 2, exactly that many in a full window, none when start is past the end |
| `Demodulation.SampledElements` | dht/dht.py:132 | sample k of the slice is pulse start + 2k |
| `Demodulation.Binary` | dht/dht.py:131-135 | the value accumulated from k samples is below 2^k |
| `Demodulation.BinaryBit` | dht/dht.py:131-135 | sample k sets bit (count - 1 - k) of the value, exactly when it exceeds the threshold: first sample in the highest bit |
| `Demodulation.PulsesToBinary` | dht/dht.py:114-135 | the loop computes the MSB-first value of the thresholded samples, below 2^((length + 1) / 2); with length 16 the result is in 0..255 |
| `Demodulation.WindowBits` | dht/dht.py:132-134 | in a window inside the list, bit (count - 1 - k) of the value is 1 iff pulse start + 2k exceeds the threshold, so a pulse equal to 51 gives 0 |
| `Demodulation.OddPulsesIgnored` | dht/dht.py:132 | changing pulse start + 2k + 1 (a low time) never changes the demodulated value |
| `Checksum.CheckSum` | dht/dht.py:153-159 | the loop's sum of bytes 0-3 gives Pass iff (p0 + p1 + p2 + p3) mod 256 = p4, and otherwise fails with WrongChecksum |
| `Checksum.SingleByteChangeDetected` | dht/dht.py:155-159 | replacing any one of bytes 0-3 of a valid frame by a different byte value makes the checksum fail |
| `Checksum.ExampleFramePasses` | dht/dht.py:155-159 | 01 02 00 1E 21 passes; changing byte 1 to 03 fails |
| `Decoding.GetTempHumidity` | dht/dht.py:137-151 | humidity is in 0..65535 with bytes 0 and 1 as its high and low byte; the temperature magnitude has byte 2 without its top bit as high byte and byte 3 as low byte; the temperature is non-negative when byte 2 < 128 and non-positive (the magnitude negated) when byte 2 >= 128 |
| `Decoding.DecodeEncode` | dht/dht.py:143-151 | every reading with humidity in 0..65535 and temperature in -32767..32767 is recovered from its four bytes |
| `Decoding.EncodeDecode` | dht/dht.py:143-151 | every four-byte frame except negative zero (80 00 in bytes 2-3) is recovered from its reading |
| `Decoding.NegativeZero` | dht/dht.py:147-150 | a set sign bit with zero magnitude reads the same as zero |
| `Decoding.ExampleReadings` | dht/dht.py:143-151 | 02 3C 01 05 reads 572 and 261 tenths; with 0x81 in byte 2 the temperature is -261 tenths |
| `Sensor.Frame` | dht/dht.py:53-55 | the frame holds exactly 5 bytes |
| `Sensor.FrameBits` | dht/dht.py:53-55 | bit 7 - k of frame byte j is 1 iff pulse 16j + 2k exceeds the threshold |
| `Sensor.DecodeUsesLast81` | dht/dht.py:46-60 | with at least 81 transitions, earlier transitions do not change the outcome of a measurement |
| `Sensor.DecodeSucceeds` | dht/dht.py:46-60 | a measurement succeeds iff it has at least 81 transitions and its frame passes the checksum, and a successful reading has humidity >= 0 and fits the four data bytes |
| `Sensor.AdmittedSpaced` | dht/dht.py:62-68 | over any series of calls at non-zero clock readings, consecutive admitted calls are at least the delay apart, and the first is at least the delay after a previously recorded call |
| `Sensor.RateLimiterTimeline` | dht/dht.py:62-68 | with the 2 s default, a first call passes, a call 0.1 s after it fails and a call 2.1 s after it passes |
| `Sensor.DHT22.constructor` | dht/dht.py:17-25 | a new driver has a 2 s delay, threshold 51 µs and no call recorded |
| `Sensor.DHT22.CheckLastCall` | dht/dht.py:62-68 | the first call always passes; a call within the delay fails with TooFrequent and leaves the recorded time; otherwise the call time is recorded |
| `Sensor.DHT22.Measure` | dht/dht.py:32-60 | a refused call returns TooFrequent and changes nothing; an admitted call records its time and returns the pipeline's result: FewTransitions(n) for n < 81 before any conversion, WrongChecksum, or the decoded reading |
| `Synthetic.EncodedPulses` | dht/dht.py:107-112 | the pulses recovered from a sensor-driven log are the durations the sensor drove |
| `Synthetic.EncodedFrame` | dht/dht.py:53-55 | demodulating the sensor's durations with any threshold in 26..69 recovers all five bytes |
| `Synthetic.RoundTrip` | dht/dht.py:46-60 | a log the sensor produced for a frame, after any earlier transitions, decodes to that frame's reading when its checksum holds and to WrongChecksum otherwise |
| `Synthetic.ReadingRoundTrip` | dht/dht.py:41-60 | every representable reading the sensor sends with its checksum is the reading a measurement returns |

## Left out

- The pin protocol (`_get_response`, dht/dht.py:70-96) is not modelled: GPIO output, `time.sleep` and the 300 ms polling loop are hardware I/O and real time. The transition log it returns is a parameter of `Measure`.
- GPIO mode setup in `__init__` and pin cleanup in `__del__` are foreign-library side effects. The pin number is kept as a field only.
- `time.monotonic()` is a parameter `now`, in integer microseconds. Floating-point seconds, the `int(1000000 * ...)` truncation and the `/ 10` float division are replaced by integer microseconds and integer tenths.
- Sensor.DHT22.CheckLastCall: the driver reads the clock twice, once to compare and once to record; the model uses one reading for both.
- `_max_pulses` (81) is assigned in `__init__` but never read; the model has no field for it.
- Demodulation.PulsesToBinary: `start` and `length` are natural numbers; Python's negative slice indices are not modelled, and the driver never passes them.
- Checksum.CheckSum requires at least 5 bytes and Decoding.GetTempHumidity at least 4; on shorter lists the driver fails with an IndexError. `measure` always passes 5.
- Decoding.GetTempHumidity is defined on byte values, where shifts, masks and `|` are exact arithmetic; the driver's bit operations on larger integers are not modelled.
- Sensor.AdmittedSpaced requires non-zero clock readings, because a recorded 0 means "no call yet" and would let the next call through.
- Reentrancy and concurrent calls on one pin are not modelled; the driver is single-threaded.
- `example/take.py` (a print loop) and `setup.py` (packaging) are not part of this model.
