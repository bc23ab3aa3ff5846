/**
 * Remainder and quotient by repeated subtraction and by doubling, on
 * non-negative integers (the archimedean monoid of the source instantiated
 * with the integers).
 */
module Remainder {
  import opened Arith

  function Pow2(k: nat): nat {
    if k == 0 then 1 else 2 * Pow2(k - 1)
  }

  /** The remainder by subtracting b until the rest is below b. */
  method SlowRemainder(a: int, b: int) returns (r: int)
    requires a >= 0 && b > 0
    ensures 0 <= r < b
    ensures r == a % b
  {
    r := a;
    ghost var q := 0;
    while b <= r
      invariant 0 <= r && a == q * b + r
    {
      r := r - b;
      q := q + 1;
    }
    DivModUnique(a, b, q, r);
  }

  /** The number of subtractions of b that fit in a. */
  method SlowQuotient(a: int, b: int) returns (n: int)
    requires a >= 0 && b > 0
    ensures n * b <= a < (n + 1) * b
    ensures n == a / b
  {
    var rest := a;
    n := 0;
    while b <= rest
      invariant 0 <= rest && a == n * b + rest
    {
      rest := rest - b;
      n := n + 1;
    }
    DivModUnique(a, b, n, rest);
  }

  /**
   * The remainder by recursing on the doubled divisor. Reached only with
   * a >= b from RemainderNonnegative; below b it returns the negative a - b.
   */
  function RemainderRecursive(a: int, b: int): (r: int)
    requires a >= 0 && b > 0
    ensures a >= b ==> r == a % b
    ensures a < b ==> r == a - b
    decreases a - b
  {
    if a - b >= b then
      var a' := RemainderRecursive(a, b + b);
      RemainderOfDoubled(a, b);
      if a' < b then a' else a' - b
    else if a < b then
      a - b
    else
      DivModUnique(a, b, 1, a - b);
      a - b
  }

  /** The remainder by 2b is the remainder by b, or exceeds it by b. */
  lemma RemainderOfDoubled(a: int, b: int)
    requires a >= 0 && b > 0
    ensures a % (b + b) < b ==> a % (b + b) == a % b
    ensures a % (b + b) >= b ==> a % (b + b) - b == a % b
  {
    var q, s := a / (b + b), a % (b + b);
    assert a == q * (b + b) + s;
    if s < b {
      DivModUnique(a, b, 2 * q, s);
    } else {
      DivModUnique(a, b, 2 * q + 1, s - b);
    }
  }

  function RemainderNonnegative(a: int, b: int): (r: int)
    requires a >= 0 && b > 0
    ensures 0 <= r < b
    ensures r == a % b
  {
    if a < b then a else RemainderRecursive(a, b)
  }

  /** Doubles b while the double does not exceed a; the result is b times a power of two. */
  method LargestDoubling(a: int, b: int) returns (c: int, ghost k: nat)
    requires a >= 0 && b > 0
    ensures c == b * Pow2(k)
    ensures a >= b ==> c <= a < c + c
    ensures a < b ==> c == b
  {
    c, k := b, 0;
    while c <= a - c
      invariant c == b * Pow2(k)
      invariant a >= b ==> c <= a
      invariant a < b ==> c == b
      decreases a - c
    {
      c, k := c + c, k + 1;
    }
  }

  /** Subtracts the largest doubling of b, then the halvings of it that still fit. */
  method RemainderNonnegativeIterative(a: int, b: int) returns (r: int)
    requires a >= 0 && b > 0
    ensures r == a % b
  {
    if a < b {
      DivModUnique(a, b, 0, a);
      return a;
    }
    var c, k := LargestDoubling(a, b);
    MultipleOfDivisor(a - c, b, Pow2(k));
    r := a - c;
    while c != b
      invariant c == b * Pow2(k)
      invariant 0 <= r < c
      invariant r % b == a % b
      decreases k
    {
      HalfOfDoubling(b, k);
      c, k := c / 2, k - 1;
      HalvingStep(a, b, k, r);
      if c <= r {
        r := r - c;
      }
    }
    DivModUnique(r, b, 0, r);
  }

  /** Subtracting the halved doubling when it fits keeps the remainder and brings the rest below it. */
  lemma HalvingStep(a: int, b: int, k: nat, r: int)
    requires b > 0 && 0 <= r < 2 * (b * Pow2(k)) && r % b == a % b
    ensures b * Pow2(k) <= r ==> 0 <= r - b * Pow2(k) < b * Pow2(k) && (r - b * Pow2(k)) % b == a % b
  {
    MultipleOfDivisor(r - b * Pow2(k), b, Pow2(k));
  }

  /** Adding a multiple of b does not change the remainder by b. */
  lemma MultipleOfDivisor(x: int, b: int, m: int)
    requires b > 0
    ensures (x + b * m) % b == x % b
  {
    ModAddMultiple(x, m, b);
  }

  lemma HalfOfDoubling(b: int, k: nat)
    requires b > 0
    requires b * Pow2(k) != b
    ensures k > 0 && b * Pow2(k) == 2 * (b * Pow2(k - 1))
    ensures (b * Pow2(k)) / 2 == b * Pow2(k - 1)
  {
    assert Pow2(0) == 1;
    assert b * Pow2(k) == 2 * (b * Pow2(k - 1));
  }
}

/** Greatest common divisors by subtraction and by remainder. */
module GCD {
  import opened Arith
  import opened Remainder

  predicate Divides(d: int, n: int)
    requires d > 0
  {
    n % d == 0
  }

  ghost predicate CommonDivisor(d: int, a: int, b: int) {
    d > 0 && Divides(d, a) && Divides(d, b)
  }

  /** g is the greatest common divisor of a and b. */
  ghost predicate IsGcd(g: int, a: int, b: int) {
    && CommonDivisor(g, a, b)
    && (forall d :: CommonDivisor(d, a, b) ==> d <= g)
  }

  /** The pairs (a, b) and (a0, b0) have the same common divisors. */
  ghost predicate SameDivisors(a: int, b: int, a0: int, b0: int) {
    forall d :: CommonDivisor(d, a, b) <==> CommonDivisor(d, a0, b0)
  }

  /** Subtracting b from a keeps the common divisors. */
  lemma SubtractKeepsDivisors(a: int, b: int)
    ensures SameDivisors(a - b, b, a, b)
  {
    forall d | d > 0
      ensures CommonDivisor(d, a - b, b) <==> CommonDivisor(d, a, b)
    {
      ModAddMultiple(a - b, b / d, d);
      ModAddMultiple(a, -(b / d), d);
      assert b == (b / d) * d + b % d;
    }
  }

  /** Replacing a by its remainder by b keeps the common divisors. */
  lemma RemainderKeepsDivisors(a: int, b: int)
    requires b > 0
    ensures SameDivisors(a % b, b, a, b)
  {
    forall d | d > 0
      ensures CommonDivisor(d, a % b, b) <==> CommonDivisor(d, a, b)
    {
      var q := a / b;
      assert a == a % b + q * b;
      if b % d == 0 {
        assert q * b == (q * (b / d)) * d by {
          assert b == (b / d) * d;
        }
        ModAddMultiple(a % b, q * (b / d), d);
      }
    }
  }

  /** A positive number is the greatest common divisor of itself and 0. */
  lemma GcdWithZero(a: int)
    requires a > 0
    ensures IsGcd(a, a, 0)
  {
    forall d | CommonDivisor(d, a, 0)
      ensures d <= a
    {
      var q := a / d;
      assert a == q * d;
      assert q > 0;
      MulAtLeast(q, d);
    }
  }

  lemma GcdSymmetric(g: int, a: int, b: int)
    requires IsGcd(g, a, b)
    ensures IsGcd(g, b, a)
  {
    forall d | CommonDivisor(d, b, a)
      ensures d <= g
    {
      assert CommonDivisor(d, a, b);
    }
  }

  /** One subtraction step keeps the divisors of the original pair. */
  lemma SubtractStep(x: int, y: int, a: int, b: int)
    requires SameDivisors(x, y, a, b)
    ensures SameDivisors(x - y, y, a, b) && SameDivisors(x, y - x, a, b)
  {
    SubtractKeepsDivisors(x, y);
    SubtractKeepsDivisors(y, x);
    var z := y - x;
    forall d
      ensures CommonDivisor(d, x, z) <==> CommonDivisor(d, z, x)
    {
    }
  }

  /** One remainder step keeps the divisors of the original pair. */
  lemma RemainderStep(x: int, y: int, a: int, b: int)
    requires SameDivisors(x, y, a, b)
    ensures y > 0 ==> SameDivisors(x % y, y, a, b)
    ensures x > 0 ==> SameDivisors(x, y % x, a, b)
  {
    if y > 0 {
      RemainderKeepsDivisors(x, y);
    }
    if x > 0 {
      RemainderKeepsDivisors(y, x);
      var z := y % x;
      forall d
        ensures CommonDivisor(d, x, z) <==> CommonDivisor(d, z, x)
      {
      }
    }
  }

  /** When one of the pair is 0, the other is the greatest common divisor of the original pair. */
  lemma GcdAtZero(x: int, y: int, a: int, b: int)
    requires SameDivisors(x, y, a, b)
    ensures x > 0 && y == 0 ==> IsGcd(x, a, b)
    ensures x == 0 && y > 0 ==> IsGcd(y, a, b)
  {
    if x > 0 && y == 0 {
      GcdWithZero(x);
    }
    if x == 0 && y > 0 {
      GcdWithZero(y);
      GcdSymmetric(y, y, 0);
    }
  }

  /** Subtracts the smaller from the larger until the two are equal. */
  method SubtractiveGcdNonzero(a: int, b: int) returns (g: int)
    requires a > 0 && b > 0
    ensures IsGcd(g, a, b)
  {
    var x, y := a, b;
    while x != y
      invariant x > 0 && y > 0
      invariant SameDivisors(x, y, a, b)
      decreases x + y
    {
      SubtractStep(x, y, a, b);
      if y < x {
        x := x - y;
      } else {
        y := y - x;
      }
    }
    SubtractStep(x, y, a, b);
    GcdAtZero(x, y - x, a, b);
    g := x;
  }

  /** Reduces each argument by the other with repeated subtraction until one is 0. */
  method SubtractiveGcd(a: int, b: int) returns (g: int)
    requires a >= 0 && b >= 0 && !(a == 0 && b == 0)
    ensures IsGcd(g, a, b)
  {
    var x, y := a, b;
    while true
      invariant x >= 0 && y >= 0 && !(x == 0 && y == 0)
      invariant SameDivisors(x, y, a, b)
      decreases x + y
    {
      GcdAtZero(x, y, a, b);
      if y == 0 {
        return x;
      }
      while y <= x
        invariant x >= 0
        invariant SameDivisors(x, y, a, b)
      {
        SubtractStep(x, y, a, b);
        x := x - y;
      }
      GcdAtZero(x, y, a, b);
      if x == 0 {
        return y;
      }
      while x <= y
        invariant y >= 0
        invariant SameDivisors(x, y, a, b)
      {
        SubtractStep(x, y, a, b);
        y := y - x;
      }
    }
  }

  /** The subtractive algorithm with each run of subtractions replaced by one remainder. */
  method FastSubtractiveGcd(a: int, b: int) returns (g: int)
    requires a >= 0 && b >= 0 && !(a == 0 && b == 0)
    ensures IsGcd(g, a, b)
  {
    var x, y := a, b;
    while true
      invariant x >= 0 && y >= 0 && !(x == 0 && y == 0)
      invariant SameDivisors(x, y, a, b)
      decreases y
    {
      GcdAtZero(x, y, a, b);
      if y == 0 {
        return x;
      }
      RemainderStep(x, y, a, b);
      x := RemainderNonnegative(x, y);
      GcdAtZero(x, y, a, b);
      if x == 0 {
        return y;
      }
      RemainderStep(x, y, a, b);
      y := RemainderNonnegative(y, x);
    }
  }
}
