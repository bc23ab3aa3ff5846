/**
 * Raising an element to a positive integer power under an associative
 * operation, as a chain of refinements: the naive left-associated recursion,
 * the halving recursion, the accumulator-passing forms and finally the
 * iterative `Power`. Every refinement is proved to compute the same value as
 * the naive `PowerLeftAssociated`.
 */
module AssociativeOp {
  import opened Integer

  ghost predicate Associative<T(!new)>(op: (T, T) -> T) {
    forall a, b, c :: op(op(a, b), c) == op(a, op(b, c))
  }

  /** a combined with itself n times, grouped to the left: ((a op a) op a) ... */
  function PowerLeftAssociated<T>(a: T, n: nat, op: (T, T) -> T): T
    requires n > 0
  {
    if n == 1 then a else op(PowerLeftAssociated(a, n - 1, op), a)
  }

  /** `r` combined with a^n; a^0 contributes nothing, so this is `r` when n = 0. */
  function Accumulated<T>(r: T, a: T, n: nat, op: (T, T) -> T): T {
    if n == 0 then r else op(r, PowerLeftAssociated(a, n, op))
  }

  /** floor(log2 n): the number of halvings that take n down to 1. */
  ghost function FloorLog2(n: nat): nat
    requires n > 0
  {
    if n == 1 then 0 else 1 + FloorLog2(n / 2)
  }

  /* ---------------------------------------------------------------------- */
  /* Algebra of powers                                                      */
  /* ---------------------------------------------------------------------- */

  /** a^(m+n) = a^m op a^n. */
  lemma {:induction false} PowerAdd<T(!new)>(a: T, m: nat, n: nat, op: (T, T) -> T)
    requires Associative(op)
    requires m > 0 && n > 0
    ensures PowerLeftAssociated(a, m + n, op) == op(PowerLeftAssociated(a, m, op), PowerLeftAssociated(a, n, op))
  {
    if n > 1 {
      PowerAdd(a, m, n - 1, op);
    }
  }

  /** (a op a)^n = a^(2n). */
  lemma {:induction false} PowerOfSquare<T(!new)>(a: T, n: nat, op: (T, T) -> T)
    requires Associative(op)
    requires n > 0
    ensures PowerLeftAssociated(op(a, a), n, op) == PowerLeftAssociated(a, 2 * n, op)
  {
    if n > 1 {
      PowerOfSquare(a, n - 1, op);
      PowerAdd(a, 2 * (n - 1), 2, op);
    }
  }

  /** One round of every accumulate loop: fold a into r when n is odd, then square a and halve n. */
  lemma AccumulateStep<T(!new)>(r: T, a: T, n: nat, op: (T, T) -> T)
    requires Associative(op)
    requires n > 0
    ensures Accumulated(r, a, n, op) == Accumulated(if IsOdd(n) then op(r, a) else r, op(a, a), n / 2, op)
  {
    var k := n / 2;
    if k > 0 {
      PowerOfSquare(a, k, op);
      if IsOdd(n) {
        PowerAdd(a, 1, 2 * k, op);
      }
    }
  }

  /** The recursion shape of `Power0`/`Power1`: a^n from (a op a)^(n/2). */
  lemma HalvePower<T(!new)>(a: T, n: nat, op: (T, T) -> T)
    requires Associative(op)
    requires n > 1
    ensures PowerLeftAssociated(a, n, op)
         == if IsEven(n) then PowerLeftAssociated(op(a, a), n / 2, op)
            else op(PowerLeftAssociated(op(a, a), n / 2, op), a)
  {
    PowerOfSquare(a, n / 2, op);
  }

  /** Grouping to the right gives the same value when op is associative. */
  lemma RightEqualsLeft<T(!new)>(a: T, n: nat, op: (T, T) -> T)
    requires Associative(op)
    requires n > 0
    ensures PowerRightAssociated(a, n, op) == PowerLeftAssociated(a, n, op)
  {
    if n > 1 {
      PowerAdd(a, 1, n - 1, op);
    }
  }

  /* ---------------------------------------------------------------------- */
  /* The refinements                                                        */
  /* ---------------------------------------------------------------------- */

  /** As in the source, the recursive call is to the left-associated form. */
  function PowerRightAssociated<T>(a: T, n: nat, op: (T, T) -> T): T
    requires n > 0
  {
    if n == 1 then a else op(a, PowerLeftAssociated(a, n - 1, op))
  }

  function Power0<T(!new)>(a: T, n: nat, op: (T, T) -> T): (r: T)
    requires Associative(op)
    requires n > 0
    ensures r == PowerLeftAssociated(a, n, op)
  {
    if n == 1 then a
    else
      HalvePower(a, n, op);
      if IsEven(n) then Power0(op(a, a), n / 2, op)
      else op(Power0(op(a, a), n / 2, op), a)
  }

  /** One recursive call, then one more op when n is odd. */
  function Power1<T(!new)>(a: T, n: nat, op: (T, T) -> T): (r: T)
    requires Associative(op)
    requires n > 0
    ensures r == PowerLeftAssociated(a, n, op)
  {
    if n == 1 then a
    else
      HalvePower(a, n, op);
      var r := Power1(op(a, a), n / 2, op);
      if !IsEven(n) then op(r, a) else r
  }

  function PowerAccumulate0<T(!new)>(r: T, a: T, n: nat, op: (T, T) -> T): (res: T)
    requires Associative(op)
    ensures res == Accumulated(r, a, n, op)
  {
    if n == 0 then r
    else
      AccumulateStep(r, a, n, op);
      var r' := if !IsEven(n) then op(r, a) else r;
      PowerAccumulate0(r', op(a, a), n / 2, op)
  }

  /** Stops at n = 1 to save the final squaring. */
  function PowerAccumulate1<T(!new)>(r: T, a: T, n: nat, op: (T, T) -> T): (res: T)
    requires Associative(op)
    ensures res == Accumulated(r, a, n, op)
  {
    if n == 0 then r
    else if n == 1 then op(r, a)
    else
      AccumulateStep(r, a, n, op);
      var r' := if !IsEven(n) then op(r, a) else r;
      PowerAccumulate1(r', op(a, a), n / 2, op)
  }

  /** The n = 1 test moved inside the odd case. */
  function PowerAccumulate2<T(!new)>(r: T, a: T, n: nat, op: (T, T) -> T): (res: T)
    requires Associative(op)
    ensures res == Accumulated(r, a, n, op)
  {
    if !IsEven(n) && n == 1 then op(r, a)
    else if IsEven(n) && n == 0 then r
    else
      AccumulateStep(r, a, n, op);
      var r' := if !IsEven(n) then op(r, a) else r;
      PowerAccumulate2(r', op(a, a), n / 2, op)
  }

  /** Strictly tail recursive: the new a and n are computed before the call. */
  function PowerAccumulate3<T(!new)>(r: T, a: T, n: nat, op: (T, T) -> T): (res: T)
    requires Associative(op)
    ensures res == Accumulated(r, a, n, op)
  {
    var r' := if !IsEven(n) then op(r, a) else r;
    if !IsEven(n) && n == 1 then r'
    else if IsEven(n) && n == 0 then r'
    else
      AccumulateStep(r, a, n, op);
      var a' := op(a, a);
      var n' := n / 2;
      PowerAccumulate3(r', a', n', op)
  }

  /** The tail recursion of `PowerAccumulate3` turned into a loop. */
  method PowerAccumulate4<T(!new)>(r0: T, a0: T, n0: nat, op: (T, T) -> T) returns (res: T)
    requires Associative(op)
    ensures res == Accumulated(r0, a0, n0, op)
  {
    var r, a, n := r0, a0, n0;
    while true
      invariant Accumulated(r, a, n, op) == Accumulated(r0, a0, n0, op)
      decreases n
    {
      if n > 0 {
        AccumulateStep(r, a, n, op);
      }
      if !IsEven(n) {
        r := op(r, a);
        if n == 1 {
          return r;
        }
      } else if n == 0 {
        return r;
      }
      a := op(a, a);
      n := n / 2;
    }
  }

  /** `PowerAccumulate4` without the n = 0 test, for positive n. */
  method PowerAccumulatePositive0<T(!new)>(r0: T, a0: T, n0: nat, op: (T, T) -> T) returns (res: T)
    requires Associative(op)
    requires n0 > 0
    ensures res == op(r0, PowerLeftAssociated(a0, n0, op))
  {
    var r, a, n := r0, a0, n0;
    while true
      invariant n > 0
      invariant Accumulated(r, a, n, op) == Accumulated(r0, a0, n0, op)
      decreases n
    {
      AccumulateStep(r, a, n, op);
      if !IsEven(n) {
        r := op(r, a);
        if n == 1 {
          return r;
        }
      }
      a := op(a, a);
      n := n / 2;
    }
  }

  method PowerAccumulate5<T(!new)>(r: T, a: T, n: nat, op: (T, T) -> T) returns (res: T)
    requires Associative(op)
    ensures n == 0 ==> res == r
    ensures n > 0 ==> res == op(r, PowerLeftAssociated(a, n, op))
  {
    if n == 0 {
      return r;
    }
    res := PowerAccumulate4(r, a, n, op);
  }

  /** a^n as a op a^(n-1). */
  method Power2<T(!new)>(a: T, n: nat, op: (T, T) -> T) returns (res: T)
    requires Associative(op)
    requires n > 0
    ensures res == PowerLeftAssociated(a, n, op)
  {
    var m: nat := n - 1;
    res := PowerAccumulate5(a, a, m, op);
    if m == 0 {
      assert res == a;
    } else {
      assert res == op(a, PowerLeftAssociated(a, m, op));
      PowerAdd(a, 1, m, op);
      assert PowerLeftAssociated(a, 1, op) == a;
      assert PowerLeftAssociated(a, 1 + m, op) == op(a, PowerLeftAssociated(a, m, op));
    }
  }

  /** Squares away the trailing zero bits of n before accumulating. */
  method Power3<T(!new)>(a0: T, n0: nat, op: (T, T) -> T) returns (res: T)
    requires Associative(op)
    requires n0 > 0
    ensures res == PowerLeftAssociated(a0, n0, op)
  {
    var a, n := a0, n0;
    while IsEven(n)
      invariant n > 0
      invariant PowerLeftAssociated(a, n, op) == PowerLeftAssociated(a0, n0, op)
      decreases n
    {
      PowerOfSquare(a, n / 2, op);
      a := op(a, a);
      n := n / 2;
    }
    var k := n / 2;
    if k == 0 {
      return a;
    }
    PowerOfSquare(a, k, op);
    PowerAdd(a, 1, 2 * k, op);
    res := PowerAccumulatePositive0(a, op(a, a), k, op);
  }

  /**
   * r op a^n for positive n. The ghost `ops` counts applications of op:
   * at most two per halving of n plus the final one.
   */
  method PowerAccumulatePositive<T(!new)>(r0: T, a0: T, n0: nat, op: (T, T) -> T) returns (res: T, ghost ops: nat)
    requires Associative(op)
    requires Positive(n0)
    ensures res == op(r0, PowerLeftAssociated(a0, n0, op))
    ensures ops <= 2 * FloorLog2(n0) + 1
  {
    var r, a, n := r0, a0, n0;
    ops := 0;
    while true
      invariant n > 0
      invariant Accumulated(r, a, n, op) == Accumulated(r0, a0, n0, op)
      invariant ops + 2 * FloorLog2(n) <= 2 * FloorLog2(n0)
      decreases n
    {
      AccumulateStep(r, a, n, op);
      if IsOdd(n) {
        r := op(r, a);
        ops := ops + 1;
        if IsOne(n) {
          return r, ops;
        }
      }
      a := op(a, a);
      ops := ops + 1;
      n := HalfNonnegative(n);
    }
  }

  method PowerAccumulate<T(!new)>(r: T, a: T, n: nat, op: (T, T) -> T) returns (res: T)
    requires Associative(op)
    requires !Negative(n)
    ensures n == 0 ==> res == r
    ensures n > 0 ==> res == op(r, PowerLeftAssociated(a, n, op))
  {
    if IsZero(n) {
      return r;
    }
    ghost var ops;
    res, ops := PowerAccumulatePositive(r, a, n, op);
  }

  /**
   * a^n for positive n with at most 2 floor(log2 n) applications of op;
   * in particular a^1 is a itself with no application at all.
   */
  method Power<T(!new)>(a0: T, n0: nat, op: (T, T) -> T) returns (res: T, ghost ops: nat)
    requires Associative(op)
    requires Positive(n0)
    ensures res == PowerLeftAssociated(a0, n0, op)
    ensures ops <= 2 * FloorLog2(n0)
    ensures n0 == 1 ==> res == a0 && ops == 0
  {
    var a, n := a0, n0;
    ops := 0;
    while IsEven(n)
      invariant n > 0
      invariant PowerLeftAssociated(a, n, op) == PowerLeftAssociated(a0, n0, op)
      invariant ops + FloorLog2(n) == FloorLog2(n0)
      decreases n
    {
      PowerOfSquare(a, n / 2, op);
      a := op(a, a);
      ops := ops + 1;
      n := HalfNonnegative(n);
    }
    ghost var odd := n;
    n := HalfNonnegative(n);
    if IsZero(n) {
      return a, ops;
    }
    PowerOfSquare(a, n, op);
    PowerAdd(a, 1, 2 * n, op);
    ghost var inner;
    res, inner := PowerAccumulatePositive(a, op(a, a), n, op);
    assert FloorLog2(odd) == 1 + FloorLog2(n);
    ops := ops + 1 + inner;
  }

  /** The identity-aware overload: defined for n = 0 as well. */
  method PowerWithIdentity<T(!new)>(a: T, n: nat, op: (T, T) -> T, id: T) returns (res: T)
    requires Associative(op)
    requires !Negative(n)
    ensures n == 0 ==> res == id
    ensures n > 0 ==> res == PowerLeftAssociated(a, n, op)
  {
    if IsZero(n) {
      return id;
    }
    ghost var ops;
    res, ops := Power(a, n, op);
  }
}
