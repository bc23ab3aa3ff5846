/**
 * Integer helpers used by the generic algorithms: parity tests, halving and
 * doubling, and the sign predicates. Integers are unbounded here; the
 * source's `n & 1`, `n >> 1` and `n << 1` are two's-complement bit
 * operations, which on unbounded integers are Euclidean remainder by 2,
 * floor division by 2 and multiplication by 2.
 */
module Integer {

  /** `n & 1`: the low bit of n in two's complement. */
  function IsOdd(n: int): (b: bool)
    ensures b <==> n == 2 * DivideBy2(n) + 1
  {
    n % 2 == 1
  }

  function IsEven(n: int): (b: bool)
    ensures b <==> n == 2 * DivideBy2(n)
  {
    !IsOdd(n)
  }

  /** `n >> 1`: an arithmetic shift, so it rounds towards minus infinity. */
  function DivideBy2(n: int): (h: int)
    ensures 2 * h <= n < 2 * h + 2
  {
    n / 2
  }

  /** `n << 1`. */
  function MultiplyBy2(n: int): (d: int)
    ensures DivideBy2(d) == n && IsEven(d)
  {
    n * 2
  }

  /** `n >> 1` on a non-negative n. */
  function HalfNonnegative(n: int): (h: int)
    requires n >= 0
    ensures 0 <= h <= n
    ensures n > 0 ==> h < n
    ensures n == 2 * h || n == 2 * h + 1
  {
    n / 2
  }

  predicate Positive(n: int) { n > 0 }

  predicate Negative(n: int) { n < 0 }

  predicate IsZero(n: int) { n == 0 }

  predicate IsOne(n: int) { n == 1 }

  /** Halving loses exactly the low bit: n is twice its half plus its parity. */
  lemma HalfAndParity(n: int)
    ensures n == 2 * DivideBy2(n) + (if IsOdd(n) then 1 else 0)
    ensures n >= 0 ==> HalfNonnegative(n) == DivideBy2(n)
  {
  }

  /** Exactly one of the three sign predicates holds, and one is positive. */
  lemma SignTrichotomy(n: int)
    ensures Positive(n) || Negative(n) || IsZero(n)
    ensures !(Positive(n) && Negative(n)) && !(Positive(n) && IsZero(n)) && !(Negative(n) && IsZero(n))
    ensures IsOne(n) ==> Positive(n) && IsOdd(n)
    ensures IsZero(n) ==> IsEven(n)
  {
  }
}
