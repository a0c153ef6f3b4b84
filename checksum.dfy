/** Checksum validation: byte 4 of the frame is the low byte of the sum of bytes 0-3. */
module Checksum {
  import opened DhtTypes

  /** Sum of a list, accumulated front to back. */
  function Sum(s: seq<int>): int {
    if s == [] then 0 else Sum(s[..|s| - 1]) + s[|s| - 1]
  }

  /**
   * The integrity condition: bytes 0-3 summed, reduced to their low 8 bits,
   * equal byte 4. Dafny's `%` is Euclidean, so `% 256` agrees with `& 0xFF`
   * on every integer, negative ones included.
   */
  predicate ChecksumOk(package: seq<int>)
    requires |package| >= 5
  {
    (package[0] + package[1] + package[2] + package[3]) % 256 == package[4]
  }

  /** `_check_sum`: sums the first four bytes and fails unless the low byte matches byte 4. */
  method CheckSum(package: seq<int>) returns (r: Outcome)
    requires |package| >= 5
    ensures r == Pass <==> ChecksumOk(package)
    ensures r.Fail? ==> r.error == WrongChecksum
  {
    var head := package[0..4];
    var chkSum := 0;
    var i := 0;
    while i < |head|
      invariant 0 <= i <= |head|
      invariant chkSum == Sum(head[..i])
    {
      assert head[..i + 1][..i] == head[..i];
      chkSum := chkSum + head[i];
      i := i + 1;
    }
    assert head[..i] == head;
    SumOfFour(head);
    if chkSum % 256 != package[4] {
      return Fail(WrongChecksum);
    }
    return Pass;
  }

  lemma SumOfFour(s: seq<int>)
    requires |s| == 4
    ensures Sum(s) == s[0] + s[1] + s[2] + s[3]
  {
    assert s[..3][..2] == s[..2] && s[..2][..1] == s[..1] && s[..1][..0] == [];
    assert Sum(s[..1]) == s[0];
    assert Sum(s[..2]) == s[0] + s[1];
    assert Sum(s[..3]) == s[0] + s[1] + s[2];
    assert s[..4] == s;
  }

  /** Changing any one of bytes 0-3 to another byte value, leaving byte 4, breaks a valid checksum. */
  lemma SingleByteChangeDetected(package: seq<Byte>, i: nat, v: Byte)
    requires |package| >= 5 && i < 4
    requires ChecksumOk(package)
    requires v != package[i]
    ensures !ChecksumOk(package[i := v])
  {
    var changed := package[i := v];
    var d := v - package[i];
    assert -256 < d < 256 && d != 0;
    assert changed[0] as int + changed[1] + changed[2] + changed[3]
        == package[0] as int + package[1] + package[2] + package[3] + d;
  }

  /** The frame 01 02 00 1E 21 passes: 0x01 + 0x02 + 0x00 + 0x1E == 0x21. */
  lemma ExampleFramePasses()
    ensures ChecksumOk([0x01, 0x02, 0x00, 0x1E, 0x21])
    ensures !ChecksumOk([0x01, 0x03, 0x00, 0x1E, 0x21])
  {
  }
}
