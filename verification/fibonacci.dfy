/**
 * Fibonacci numbers by raising the pair (1, 0) to the n-th power under a
 * 2x2 matrix product encoded on pairs: the pair (F(k), F(k-1)) stands for
 * the matrix [[F(k+1), F(k)], [F(k), F(k-1)]].
 */
module Fib {
  import opened AssociativeOp

  /** The reference sequence: F(0) = 0, F(1) = 1, F(n) = F(n-1) + F(n-2). */
  function FibNumber(n: nat): nat {
    if n == 0 then 0 else if n == 1 then 1 else FibNumber(n - 1) + FibNumber(n - 2)
  }

  function MatrixMultiply(x: (int, int), y: (int, int)): (int, int) {
    (x.0 * (y.1 + y.0) + x.1 * y.0, x.0 * y.0 + x.1 * y.1)
  }

  lemma MatrixMultiplyAssociativeAt(x: (int, int), y: (int, int), z: (int, int))
    ensures MatrixMultiply(MatrixMultiply(x, y), z) == MatrixMultiply(x, MatrixMultiply(y, z))
  {
    FirstAssociative(x.0, x.1, y.0, y.1, z.0, z.1);
    SecondAssociative(x.0, x.1, y.0, y.1, z.0, z.1);
  }

  /** The first component of the pair product is associative, expanded into monomials. */
  lemma FirstAssociative(a: int, b: int, c: int, d: int, e: int, f: int)
    ensures MatrixMultiply(MatrixMultiply((a, b), (c, d)), (e, f)).0
         == MatrixMultiply((a, b), MatrixMultiply((c, d), (e, f))).0
  {
    var p, q := a * (d + c) + b * c, a * c + b * d;
    var s, t := c * (f + e) + d * e, c * e + d * f;
    assert MatrixMultiply(MatrixMultiply((a, b), (c, d)), (e, f)).0 == p * (f + e) + q * e;
    assert MatrixMultiply((a, b), MatrixMultiply((c, d), (e, f))).0 == a * (t + s) + b * s;
    FirstLeft(a, b, c, d, e, f);
    FirstRight(a, b, c, d, e, f);
  }

  lemma FirstLeft(a: int, b: int, c: int, d: int, e: int, f: int)
    ensures (a * (d + c) + b * c) * (f + e) + (a * c + b * d) * e
         == a * d * f + a * d * e + a * c * f + 2 * (a * c * e) + b * c * f + b * c * e + b * d * e
  {
    Distrib(a, d, c);
    Distrib(a * d + a * c + b * c, f, e);
    DistribRight3(a * d, a * c, b * c, f);
    DistribRight3(a * d, a * c, b * c, e);
    DistribRight(a * c, b * d, e);
  }

  lemma FirstRight(a: int, b: int, c: int, d: int, e: int, f: int)
    ensures a * ((c * e + d * f) + (c * (f + e) + d * e)) + b * (c * (f + e) + d * e)
         == a * d * f + a * d * e + a * c * f + 2 * (a * c * e) + b * c * f + b * c * e + b * d * e
  {
    Distrib(c, f, e);
    Distrib5(a, c * e, d * f, c * f, c * e, d * e);
    Distrib3(b, c * f, c * e, d * e);
    MulAssoc(a, c, e);
    MulAssoc(a, d, f);
    MulAssoc(a, c, f);
    MulAssoc(a, d, e);
    MulAssoc(b, c, f);
    MulAssoc(b, c, e);
    MulAssoc(b, d, e);
  }

  lemma DistribRight3(x: int, y: int, z: int, w: int)
    ensures (x + y + z) * w == x * w + y * w + z * w
  {
    DistribRight(x + y, z, w);
    DistribRight(x, y, w);
  }

  lemma Distrib3(x: int, y: int, z: int, w: int)
    ensures x * (y + z + w) == x * y + x * z + x * w
  {
    Distrib(x, y + z, w);
    Distrib(x, y, z);
  }

  lemma Distrib5(x: int, y1: int, y2: int, y3: int, y4: int, y5: int)
    ensures x * (y1 + y2 + (y3 + y4 + y5)) == x * y1 + x * y2 + x * y3 + x * y4 + x * y5
  {
    Distrib(x, y1 + y2, y3 + y4 + y5);
    Distrib(x, y1, y2);
    Distrib3(x, y3, y4, y5);
  }

  /** The second component of the pair product is associative, expanded into monomials. */
  lemma SecondAssociative(a: int, b: int, c: int, d: int, e: int, f: int)
    ensures MatrixMultiply(MatrixMultiply((a, b), (c, d)), (e, f)).1
         == MatrixMultiply((a, b), MatrixMultiply((c, d), (e, f))).1
  {
    var p, q := a * (d + c) + b * c, a * c + b * d;
    var s, t := c * (f + e) + d * e, c * e + d * f;
    assert MatrixMultiply(MatrixMultiply((a, b), (c, d)), (e, f)).1 == p * e + q * f;
    assert MatrixMultiply((a, b), MatrixMultiply((c, d), (e, f))).1 == a * s + b * t;
    Distrib(a, d, c);
    DistribRight(a * d + a * c, b * c, e);
    DistribRight(a * d, a * c, e);
    DistribRight(a * c, b * d, f);
    Distrib(c, f, e);
    Distrib(a, c * f + c * e, d * e);
    Distrib(a, c * f, c * e);
    Distrib(b, c * e, d * f);
    MulAssoc(a, d, e);
    MulAssoc(a, c, e);
    MulAssoc(b, c, e);
    MulAssoc(a, c, f);
    MulAssoc(b, d, f);
  }

  lemma Distrib(x: int, y: int, z: int)
    ensures x * (y + z) == x * y + x * z
  {
  }

  lemma DistribRight(x: int, y: int, z: int)
    ensures (x + y) * z == x * z + y * z
  {
  }

  lemma MulAssoc(x: int, y: int, z: int)
    ensures (x * y) * z == x * (y * z)
  {
  }

  /** `power` may be applied to `MatrixMultiply`: the product is associative. */
  lemma MatrixMultiplyAssociative()
    ensures Associative(MatrixMultiply)
  {
    forall x, y, z
      ensures MatrixMultiply(MatrixMultiply(x, y), z) == MatrixMultiply(x, MatrixMultiply(y, z))
    {
      MatrixMultiplyAssociativeAt(x, y, z);
    }
  }

  /** (1, 0)^n = (F(n), F(n-1)). */
  lemma {:induction false} PowerOfUnitPair(n: nat)
    requires n > 0
    ensures PowerLeftAssociated((1, 0), n, MatrixMultiply) == (FibNumber(n), FibNumber(n - 1))
  {
    if n > 1 {
      PowerOfUnitPair(n - 1);
    }
  }

  /**
   * The product of the pairs for a and b is the pair for a + b, which is
   * the Fibonacci addition law F(a+b) = F(a)F(b+1) + F(a-1)F(b).
   */
  lemma AdditionLaw(a: nat, b: nat)
    requires a > 0 && b > 0
    ensures MatrixMultiply((FibNumber(a), FibNumber(a - 1)), (FibNumber(b), FibNumber(b - 1)))
         == (FibNumber(a + b), FibNumber(a + b - 1))
  {
    var pa := PowerLeftAssociated((1, 0), a, MatrixMultiply);
    var pb := PowerLeftAssociated((1, 0), b, MatrixMultiply);
    var pab := PowerLeftAssociated((1, 0), a + b, MatrixMultiply);
    assert pab == MatrixMultiply(pa, pb) by {
      MatrixMultiplyAssociative();
      PowerAdd((1, 0), a, b, MatrixMultiply);
    }
    PowerOfUnitPair(a);
    PowerOfUnitPair(b);
    PowerOfUnitPair(a + b);
  }

  /** F(n) in O(log n) pair products; F(1) = 1 because (1, 0)^1 is (1, 0) itself. */
  method Fibonacci(n: nat) returns (r: int)
    ensures r == FibNumber(n)
  {
    if n == 0 {
      return 0;
    }
    MatrixMultiplyAssociative();
    var p;
    ghost var ops;
    p, ops := Power((1, 0), n, MatrixMultiply);
    PowerOfUnitPair(n);
    r := p.0;
  }
}
