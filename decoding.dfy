/**
 * Decoding: bytes 0-1 are the humidity, big-endian, in tenths of a percent;
 * bytes 2-3 are the temperature in tenths of a degree, a 15-bit magnitude
 * with bit 7 of byte 2 as the sign.
 */
module Decoding {
  import opened DhtTypes

  /**
   * `_get_temp_humidity`, in tenths. The driver's shifts and masks are exact
   * arithmetic on bytes: `x << 8` is `x * 256`, `| y` with y < 256 adds,
   * `& 0x7F` is `% 128`, and `& 0x80` is set iff the byte is at least 128.
   */
  function GetTempHumidity(package: seq<Byte>): (r: Reading)
    requires |package| >= 4
    ensures 0 <= r.humidity < 65536
    ensures r.humidity / 256 == package[0] && r.humidity % 256 == package[1]
    ensures -32768 < r.temperature < 32768
    ensures package[2] < 128 ==> r.temperature >= 0
    ensures package[2] >= 128 ==> r.temperature <= 0
    ensures Abs(r.temperature) / 256 == package[2] % 128 && Abs(r.temperature) % 256 == package[3]
  {
    var humidity := package[0] as int * 256 + package[1];
    var magnitude := (package[2] as int % 128) * 256 + package[3];
    var temperature := if package[2] >= 128 then -magnitude else magnitude;
    Reading(temperature, humidity)
  }

  function Abs(x: int): nat {
    if x < 0 then -x else x
  }

  /** Readings the four data bytes can carry. */
  predicate Representable(r: Reading) {
    0 <= r.humidity < 65536 && -32768 < r.temperature < 32768
  }

  /** The sensor's side: the four data bytes that carry a reading. */
  function EncodeReading(r: Reading): (package: seq<Byte>)
    requires Representable(r)
    ensures |package| == 4
  {
    var magnitude := Abs(r.temperature);
    [r.humidity / 256, r.humidity % 256,
     (if r.temperature < 0 then 128 else 0) + magnitude / 256, magnitude % 256]
  }

  /** Decoding inverts encoding on every representable reading. */
  lemma DecodeEncode(r: Reading)
    requires Representable(r)
    ensures GetTempHumidity(EncodeReading(r)) == r
  {
    var p := EncodeReading(r);
    var magnitude := Abs(r.temperature);
    assert p[2] % 128 == magnitude / 256;
    assert p[0] as int * 256 + p[1] == r.humidity;
    assert (p[2] as int % 128) * 256 + p[3] == magnitude;
  }

  /**
   * Encoding inverts decoding on every frame except a negative zero
   * (sign bit set, magnitude 0), which decodes to the same reading as zero.
   */
  lemma EncodeDecode(package: seq<Byte>)
    requires |package| == 4
    requires !(package[2] == 128 && package[3] == 0)
    ensures Representable(GetTempHumidity(package))
    ensures EncodeReading(GetTempHumidity(package)) == package
  {
    var r := GetTempHumidity(package);
    var e := EncodeReading(r);
    assert e[2] == package[2];
  }

  /** Negative zero: setting the sign bit of a zero magnitude changes nothing. */
  lemma NegativeZero(h0: Byte, h1: Byte)
    ensures GetTempHumidity([h0, h1, 0x80, 0x00]) == GetTempHumidity([h0, h1, 0x00, 0x00])
  {
  }

  /** 02 3C 01 05 reads 57.2 % and 26.1 degrees; with 0x81 in byte 2 it reads -26.1 degrees. */
  lemma ExampleReadings()
    ensures GetTempHumidity([0x02, 0x3C, 0x01, 0x05]) == Reading(261, 572)
    ensures GetTempHumidity([0x02, 0x3C, 0x81, 0x05]) == Reading(-261, 572)
  {
  }
}
