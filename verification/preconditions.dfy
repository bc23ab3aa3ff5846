/**
 * The runtime check that adding two 32-bit signed integers does not
 * overflow. The sum is formed in 32 bits, so it is modelled with an explicit
 * two's-complement wrap.
 */
module Preconditions {

  const IntMin: int := -0x8000_0000
  const IntMax: int := 0x7fff_ffff
  const Modulus: int := 0x1_0000_0000

  /** The values of a 32-bit `int`. */
  predicate IsInt32(x: int) {
    IntMin <= x <= IntMax
  }

  /** The 32-bit two's-complement value with the same low 32 bits as x. */
  function Wrap32(x: int): (w: int)
    ensures IsInt32(w)
    ensures (x - w) % Modulus == 0
    ensures IsInt32(x) ==> w == x
  {
    (x - IntMin) % Modulus + IntMin
  }

  /**
   * True when a + b is representable: two negatives must wrap to a negative
   * sum, two positives to a positive one, and mixed signs never overflow.
   */
  function CheckIntAddition(a: int, b: int): (safe: bool)
    requires IsInt32(a) && IsInt32(b)
    ensures safe <==> IsInt32(a + b)
    ensures !(a < 0 && b < 0) && !(a > 0 && b > 0) ==> safe
  {
    if a < 0 && b < 0 then
      Wrap32(a + b) < 0
    else if a > 0 && b > 0 then
      Wrap32(a + b) > 0
    else
      true
  }

  /** The variant that compares b with the room the limits leave beside a. */
  function CheckIntAdditionByLimits(a: int, b: int): (safe: bool)
    requires IsInt32(a) && IsInt32(b)
  {
    if a < 0 then
      b >= IntMin - a
    else if a > 0 then
      b <= IntMax - a
    else
      true
  }

  /** The wrapped-sum check and the limit-based variant decide the same thing. */
  lemma CheckIntAdditionAgreesWithLimits(a: int, b: int)
    requires IsInt32(a) && IsInt32(b)
    ensures CheckIntAddition(a, b) == CheckIntAdditionByLimits(a, b)
    ensures CheckIntAdditionByLimits(a, b) <==> IsInt32(a + b)
  {
  }
}
