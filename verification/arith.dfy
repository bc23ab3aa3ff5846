/**
 * Facts about Euclidean division that the orbit and remainder proofs share.
 */
module Arith {

  /** A quotient and remainder pair is determined by the division identity. */
  lemma DivModUnique(a: int, c: int, q: int, r: int)
    requires c > 0 && 0 <= r < c && a == q * c + r
    ensures a / c == q && a % c == r
  {
    var q', r' := a / c, a % c;
    assert a == q' * c + r';
    assert (q - q') * c == r' - r;
    if q' < q {
      assert (q - q') * c >= c by {
        MulAtLeast(q - q', c);
      }
    } else if q < q' {
      assert (q' - q) * c >= c by {
        MulAtLeast(q' - q, c);
      }
    }
  }

  lemma MulAtLeast(k: int, c: int)
    requires k >= 1 && c > 0
    ensures k * c >= c
  {
    assert k * c == (k - 1) * c + c;
    assert (k - 1) * c >= 0;
  }

  /** Adding a multiple of c does not change the remainder by c. */
  lemma ModAddMultiple(a: int, q: int, c: int)
    requires c > 0
    ensures (a + q * c) % c == a % c
    ensures (a + q * c) / c == a / c + q
  {
    assert a == (a / c) * c + a % c;
    assert a + q * c == (a / c + q) * c + a % c;
    DivModUnique(a + q * c, c, a / c + q, a % c);
  }

  /** Moving fewer than c steps forward changes the remainder by c. */
  lemma ShiftChangesResidue(k: int, s: int, c: int)
    requires k >= 0 && 0 < s < c
    ensures (k + s) % c != k % c
  {
    var u := k % c;
    ModAddMultiple(u + s, k / c, c);
    assert k + s == u + s + (k / c) * c;
    if u + s < c {
      DivModUnique(u + s, c, 0, u + s);
    } else {
      DivModUnique(u + s, c, 1, u + s - c);
    }
  }
}
