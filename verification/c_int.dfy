/** The 32-bit C arithmetic the convolution kernels rely on: `uint32_t` accumulation
    wraps modulo 2^32, and `int32_t / uint32_t` divides the unsigned image of the
    signed operand. */
module CInt {

  import Grid

  const TWO_31: int := 0x8000_0000
  const TWO_32: int := 0x1_0000_0000

  /** Reinterprets a 32-bit pattern as a two's-complement `int32_t`. */
  function ToInt32(u: int): (r: int)
    requires 0 <= u < TWO_32
    ensures -TWO_31 <= r < TWO_31
    ensures r == u || r == u - TWO_32
  {
    if u < TWO_31 then u else u - TWO_32
  }

  /** `sum / weight` for an `int32_t` sum and a `uint32_t` weight, stored back into an
      `int32_t`: the usual arithmetic conversions turn `sum` into the unsigned value
      `sum mod 2^32` before the division. Only `sum mod 2^32` matters, so a sum that
      wrapped around while it was accumulated gives the same result as the exact one. */
  function MixedDiv(sum: int, weight: int): (r: int)
    requires 0 < weight < TWO_32
    ensures -TWO_31 <= r < TWO_31
  {
    ToInt32((sum % TWO_32) / weight)
  }

  /** For a sum that fits in `int32_t` and is not negative, the stored value is the plain quotient. */
  lemma MixedDivOfNonNegative(sum: int, weight: int)
    requires 0 < weight < TWO_32 && 0 <= sum < TWO_31
    ensures MixedDiv(sum, weight) == sum / weight
    ensures 0 <= MixedDiv(sum, weight) <= sum
  {
    assert sum % TWO_32 == sum;
    var q := sum / weight;
    assert sum == q * weight + sum % weight;
    Grid.MulMono(1, weight, q);
  }

  /** A negative sum is divided as its unsigned image sum + 2^32, and the sign is lost:
      for any weight of at least 2 the stored value is non-negative (-9 / 9 stores
      477218587, not -1). */
  lemma MixedDivOfNegativeSum(sum: int, weight: int)
    requires -TWO_31 <= sum < 0 && 2 <= weight < TWO_32
    ensures MixedDiv(sum, weight) == (sum + TWO_32) / weight
    ensures 0 <= MixedDiv(sum, weight)
  {
    Grid.DivModUnique(sum, TWO_32, -1, sum + TWO_32);
    var q := (sum + TWO_32) / weight;
    assert sum + TWO_32 == q * weight + (sum + TWO_32) % weight;
    Grid.MulMono(2, weight, q);
    assert q < TWO_31;
  }

  /** Reducing an accumulator modulo 2^32 before the next addition does not change the
      result modulo 2^32. */
  lemma ModAddLeft(a: int, b: int)
    ensures (a % TWO_32 + b) % TWO_32 == (a + b) % TWO_32
  {
    var q := a / TWO_32;
    assert a == q * TWO_32 + a % TWO_32;
    var s := a % TWO_32 + b;
    var q2 := s / TWO_32;
    assert s == q2 * TWO_32 + s % TWO_32;
    assert a + b == (q + q2) * TWO_32 + s % TWO_32;
    Grid.DivModUnique(a + b, TWO_32, q + q2, s % TWO_32);
  }
}
