/** Values shared by every stage of the DHT22 decode pipeline. */
module DhtTypes {

  /** One byte of the 40-bit frame the sensor sends. */
  type Byte = x: int | 0 <= x < 256

  /** The ways one measurement fails; the driver raises a RuntimeError for each. */
  datatype Error =
    | TooFrequent                // called again before the cooldown elapsed
    | FewTransitions(count: nat) // fewer than 81 line transitions were captured
    | WrongChecksum              // byte 4 is not the low byte of the sum of bytes 0-3

  /** Outcome of a check that either passes or raises. */
  datatype Outcome = Pass | Fail(error: Error)

  /** A value, or the error the driver would raise instead. */
  datatype Result<T> = Ok(value: T) | Err(error: Error)

  /** A reading in tenths of a degree Celsius and tenths of a percent relative humidity. */
  datatype Reading = Reading(temperature: int, humidity: int)

  function Min(a: int, b: int): int {
    if a < b then a else b
  }

  function Pow2(n: nat): (p: nat)
    ensures p >= 1
  {
    if n == 0 then 1 else 2 * Pow2(n - 1)
  }

  /** Bit `i` of `v`, bit 0 being the least significant: `(v >> i) & 1`. */
  function Bit(v: nat, i: nat): (b: nat)
    ensures b <= 1
  {
    if i == 0 then v % 2 else Bit(v / 2, i - 1)
  }

  /** Two values below 2^n that agree on their n low bits are equal. */
  lemma {:induction false} BitsDetermine(v: nat, w: nat, n: nat)
    requires v < Pow2(n) && w < Pow2(n)
    requires forall i :: 0 <= i < n ==> Bit(v, i) == Bit(w, i)
    ensures v == w
  {
    if n > 0 {
      assert Bit(v, 0) == Bit(w, 0);
      forall i | 0 <= i < n - 1
        ensures Bit(v / 2, i) == Bit(w / 2, i)
      {
        assert Bit(v, i + 1) == Bit(w, i + 1);
      }
      BitsDetermine(v / 2, w / 2, n - 1);
    }
  }
}
