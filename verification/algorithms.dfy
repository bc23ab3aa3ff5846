/**
 * Linear searches, quantifiers, counting, reduction, mismatch searches and
 * binary search over ranges of a sequence. An iterator is an index into the
 * sequence; a bounded range is [f, l) and a counted range is f with n
 * elements. A counted search returns the position reached together with the
 * number of elements it did not examine.
 */
module Algorithms {
  import opened Relations
  import opened Counting

  ghost predicate BoundedRange<T>(s: seq<T>, f: nat, l: nat) {
    f <= l <= |s|
  }

  ghost predicate CountedRange<T>(s: seq<T>, f: nat, n: nat) {
    f + n <= |s|
  }

  /** i is the first position of [f, l) whose element satisfies p, or l when there is none. */
  ghost predicate FirstSatisfying<T>(s: seq<T>, f: nat, l: nat, p: T -> bool, i: nat)
    requires BoundedRange(s, f, l)
  {
    && f <= i <= l
    && (forall k :: f <= k < i ==> !p(s[k]))
    && (i < l ==> p(s[i]))
  }

  /** The first position is unique. */
  lemma FirstSatisfyingUnique<T>(s: seq<T>, f: nat, l: nat, p: T -> bool, i: nat, j: nat)
    requires BoundedRange(s, f, l)
    requires FirstSatisfying(s, f, l, p, i) && FirstSatisfying(s, f, l, p, j)
    ensures i == j
  {
  }

  method FindIf<T>(s: seq<T>, f: nat, l: nat, p: T -> bool) returns (i: nat)
    requires BoundedRange(s, f, l)
    ensures FirstSatisfying(s, f, l, p, i)
  {
    i := f;
    while i != l && !p(s[i])
      invariant f <= i <= l
      invariant forall k :: f <= k < i ==> !p(s[k])
      decreases l - i
    {
      i := i + 1;
    }
  }

  /** Runs without the bound, which is safe because some element of [f, l) satisfies p. */
  method FindIfUnguarded<T>(s: seq<T>, f: nat, ghost l: nat, p: T -> bool) returns (i: nat)
    requires BoundedRange(s, f, l)
    requires exists k :: f <= k < l && p(s[k])
    ensures FirstSatisfying(s, f, l, p, i) && i < l
  {
    ghost var w :| f <= w < l && p(s[w]);
    i := f;
    while !p(s[i])
      invariant f <= i <= w
      invariant forall k :: f <= k < i ==> !p(s[k])
      decreases w - i
    {
      i := i + 1;
    }
  }

  method FindIfNot<T>(s: seq<T>, f: nat, l: nat, p: T -> bool) returns (i: nat)
    requires BoundedRange(s, f, l)
    ensures FirstSatisfying(s, f, l, x => !p(x), i)
  {
    i := f;
    while i != l && p(s[i])
      invariant f <= i <= l
      invariant forall k :: f <= k < i ==> p(s[k])
      decreases l - i
    {
      i := i + 1;
    }
  }

  method FindIfNotUnguarded<T>(s: seq<T>, f: nat, ghost l: nat, p: T -> bool) returns (i: nat)
    requires BoundedRange(s, f, l)
    requires exists k :: f <= k < l && !p(s[k])
    ensures FirstSatisfying(s, f, l, x => !p(x), i) && i < l
  {
    ghost var w :| f <= w < l && !p(s[w]);
    i := f;
    while p(s[i])
      invariant f <= i <= w
      invariant forall k :: f <= k < i ==> p(s[k])
      decreases w - i
    {
      i := i + 1;
    }
  }

  method Find<T(==)>(s: seq<T>, f: nat, l: nat, x: T) returns (i: nat)
    requires BoundedRange(s, f, l)
    ensures FirstSatisfying(s, f, l, y => y == x, i)
  {
    i := f;
    while i != l && s[i] != x
      invariant f <= i <= l
      invariant forall k :: f <= k < i ==> s[k] != x
      decreases l - i
    {
      i := i + 1;
    }
  }

  method FindNot<T(==)>(s: seq<T>, f: nat, l: nat, x: T) returns (i: nat)
    requires BoundedRange(s, f, l)
    ensures FirstSatisfying(s, f, l, y => y != x, i)
  {
    i := f;
    while i != l && s[i] == x
      invariant f <= i <= l
      invariant forall k :: f <= k < i ==> s[k] == x
      decreases l - i
    {
      i := i + 1;
    }
  }

  /**
   * The counted search for p: the position reached is the first hit among
   * the n elements, and what is left is 0 exactly when there is no hit.
   */
  method FindIfN<T>(s: seq<T>, f: nat, n: nat, p: T -> bool) returns (i: nat, rest: nat)
    requires CountedRange(s, f, n)
    ensures rest <= n && i == f + (n - rest)
    ensures FirstSatisfying(s, f, f + n, p, i)
    ensures rest == 0 <==> forall k :: f <= k < f + n ==> !p(s[k])
  {
    i, rest := f, n;
    while rest != 0 && !p(s[i])
      invariant rest <= n && i == f + (n - rest)
      invariant forall k :: f <= k < i ==> !p(s[k])
    {
      rest := rest - 1;
      i := i + 1;
    }
  }

  method FindIfNotN<T>(s: seq<T>, f: nat, n: nat, p: T -> bool) returns (i: nat, rest: nat)
    requires CountedRange(s, f, n)
    ensures rest <= n && i == f + (n - rest)
    ensures FirstSatisfying(s, f, f + n, x => !p(x), i)
    ensures rest == 0 <==> forall k :: f <= k < f + n ==> p(s[k])
  {
    i, rest := f, n;
    while rest != 0 && p(s[i])
      invariant rest <= n && i == f + (n - rest)
      invariant forall k :: f <= k < i ==> p(s[k])
    {
      rest := rest - 1;
      i := i + 1;
    }
  }

  method FindN<T(==)>(s: seq<T>, f: nat, n: nat, x: T) returns (i: nat, rest: nat)
    requires CountedRange(s, f, n)
    ensures rest <= n && i == f + (n - rest)
    ensures FirstSatisfying(s, f, f + n, y => y == x, i)
    ensures rest == 0 <==> forall k :: f <= k < f + n ==> s[k] != x
  {
    i, rest := f, n;
    while rest != 0 && s[i] != x
      invariant rest <= n && i == f + (n - rest)
      invariant forall k :: f <= k < i ==> s[k] != x
    {
      rest := rest - 1;
      i := i + 1;
    }
  }

  method FindNotN<T(==)>(s: seq<T>, f: nat, n: nat, x: T) returns (i: nat, rest: nat)
    requires CountedRange(s, f, n)
    ensures rest <= n && i == f + (n - rest)
    ensures FirstSatisfying(s, f, f + n, y => y != x, i)
    ensures rest == 0 <==> forall k :: f <= k < f + n ==> s[k] == x
  {
    i, rest := f, n;
    while rest != 0 && s[i] == x
      invariant rest <= n && i == f + (n - rest)
      invariant forall k :: f <= k < i ==> s[k] == x
    {
      rest := rest - 1;
      i := i + 1;
    }
  }

  // Quantifiers over a range, each by one search

  method All<T>(s: seq<T>, f: nat, l: nat, p: T -> bool) returns (b: bool)
    requires BoundedRange(s, f, l)
    ensures b <==> forall k :: f <= k < l ==> p(s[k])
  {
    var i := FindIfNot(s, f, l, p);
    b := i == l;
  }

  method NotAll<T>(s: seq<T>, f: nat, l: nat, p: T -> bool) returns (b: bool)
    requires BoundedRange(s, f, l)
    ensures b <==> exists k :: f <= k < l && !p(s[k])
  {
    var a := All(s, f, l, p);
    b := !a;
  }

  method None<T>(s: seq<T>, f: nat, l: nat, p: T -> bool) returns (b: bool)
    requires BoundedRange(s, f, l)
    ensures b <==> forall k :: f <= k < l ==> !p(s[k])
  {
    var i := FindIf(s, f, l, p);
    b := i == l;
  }

  method Some<T>(s: seq<T>, f: nat, l: nat, p: T -> bool) returns (b: bool)
    requires BoundedRange(s, f, l)
    ensures b <==> exists k :: f <= k < l && p(s[k])
  {
    var none := None(s, f, l, p);
    b := !none;
  }

  method AllN<T>(s: seq<T>, f: nat, n: nat, p: T -> bool) returns (i: nat, b: bool)
    requires CountedRange(s, f, n)
    ensures b <==> forall k :: f <= k < f + n ==> p(s[k])
    ensures FirstSatisfying(s, f, f + n, x => !p(x), i)
  {
    var rest;
    i, rest := FindIfNotN(s, f, n, p);
    b := rest == 0;
  }

  method NotAllN<T>(s: seq<T>, f: nat, n: nat, p: T -> bool) returns (i: nat, b: bool)
    requires CountedRange(s, f, n)
    ensures b <==> exists k :: f <= k < f + n && !p(s[k])
    ensures FirstSatisfying(s, f, f + n, x => !p(x), i)
  {
    var a;
    i, a := AllN(s, f, n, p);
    b := !a;
  }

  method NoneN<T>(s: seq<T>, f: nat, n: nat, p: T -> bool) returns (i: nat, b: bool)
    requires CountedRange(s, f, n)
    ensures b <==> forall k :: f <= k < f + n ==> !p(s[k])
    ensures FirstSatisfying(s, f, f + n, p, i)
  {
    var rest;
    i, rest := FindIfN(s, f, n, p);
    b := rest == 0;
  }

  method SomeN<T>(s: seq<T>, f: nat, n: nat, p: T -> bool) returns (i: nat, b: bool)
    requires CountedRange(s, f, n)
    ensures b <==> exists k :: f <= k < f + n && p(s[k])
    ensures FirstSatisfying(s, f, f + n, p, i)
  {
    var none;
    i, none := NoneN(s, f, n, p);
    b := !none;
  }

  // Counting

  lemma CountSnoc<T>(s: seq<T>, f: nat, k: nat, p: T -> bool)
    requires f <= k < |s|
    ensures CountWhere(s[f..k + 1], p) == CountWhere(s[f..k], p) + Ind(p(s[k]))
  {
    assert s[f..k + 1] == s[f..k] + [s[k]];
    CountAppend(s[f..k], [s[k]], p);
  }

  /** Adds to j the number of elements of [f, l) that satisfy p. */
  method CountIfFrom<T>(s: seq<T>, f: nat, l: nat, p: T -> bool, j: int) returns (r: int)
    requires BoundedRange(s, f, l)
    ensures r == j + CountWhere(s[f..l], p)
  {
    var i := f;
    r := j;
    while i != l
      invariant f <= i <= l
      invariant r == j + CountWhere(s[f..i], p)
      decreases l - i
    {
      CountSnoc(s, f, i, p);
      if p(s[i]) {
        r := r + 1;
      }
      i := i + 1;
    }
  }

  method CountIf<T>(s: seq<T>, f: nat, l: nat, p: T -> bool) returns (r: nat)
    requires BoundedRange(s, f, l)
    ensures r == CountWhere(s[f..l], p) && r <= l - f
  {
    var c := CountIfFrom(s, f, l, p, 0);
    CountBounds(s[f..l], p);
    r := c;
  }

  method CountIfN<T>(s: seq<T>, f: nat, n: nat, p: T -> bool, j: int) returns (i: nat, r: int)
    requires CountedRange(s, f, n)
    ensures i == f + n
    ensures r == j + CountWhere(s[f..f + n], p)
  {
    var rest: nat := n;
    i, r := f, j;
    while rest != 0
      invariant rest <= n && i == f + (n - rest) && i <= |s|
      invariant r == j + CountWhere(s[f..i], p)
      decreases rest
    {
      CountSnoc(s, f, i, p);
      if p(s[i]) {
        r := r + 1;
      }
      rest := rest - 1;
      i := i + 1;
    }
  }

  method CountIfNotFrom<T>(s: seq<T>, f: nat, l: nat, p: T -> bool, j: int) returns (r: int)
    requires BoundedRange(s, f, l)
    ensures r == j + CountWhere(s[f..l], x => !p(x))
  {
    var i := f;
    r := j;
    while i != l
      invariant f <= i <= l
      invariant r == j + CountWhere(s[f..i], x => !p(x))
      decreases l - i
    {
      CountSnoc(s, f, i, x => !p(x));
      if !p(s[i]) {
        r := r + 1;
      }
      i := i + 1;
    }
  }

  /** The elements counted by p and by its negation make up the whole range. */
  lemma CountIfAndNotPartition<T>(s: seq<T>, f: nat, l: nat, p: T -> bool)
    requires BoundedRange(s, f, l)
    ensures CountWhere(s[f..l], p) + CountWhere(s[f..l], x => !p(x)) == l - f
  {
    CountComplement(s[f..l], p);
  }

  // Reduction

  /**
   * The left fold of op over fun(f), fun(f + 1), ..., fun(l - 1); fun is
   * applied to positions, as the source applies it to iterators.
   */
  function Fold<T>(f: nat, l: nat, op: (T, T) -> T, fun: nat -> T): T
    requires f < l
    decreases l - f
  {
    if l == f + 1 then fun(f) else op(Fold(f, l - 1, op, fun), fun(l - 1))
  }

  ghost predicate Associative<T(!new)>(op: (T, T) -> T) {
    forall a, b, c :: op(op(a, b), c) == op(a, op(b, c))
  }

  /** Under an associative op a fold splits at every inner position. */
  lemma {:induction false} FoldSplit<T(!new)>(f: nat, m: nat, l: nat, op: (T, T) -> T, fun: nat -> T)
    requires Associative(op)
    requires f < m < l
    ensures Fold(f, l, op, fun) == op(Fold(f, m, op, fun), Fold(m, l, op, fun))
    decreases l - m
  {
    if l > m + 1 {
      FoldSplit(f, m, l - 1, op, fun);
    }
  }

  method ReduceNonempty<T>(f: nat, l: nat, op: (T, T) -> T, fun: nat -> T) returns (r: T)
    requires f < l
    ensures r == Fold(f, l, op, fun)
  {
    r := fun(f);
    var i := f + 1;
    while i != l
      invariant f < i <= l
      invariant r == Fold(f, i, op, fun)
      decreases l - i
    {
      r := op(r, fun(i));
      i := i + 1;
    }
  }

  /** The reduction with z standing for the empty range. */
  method Reduce<T>(f: nat, l: nat, op: (T, T) -> T, fun: nat -> T, z: T) returns (r: T)
    requires f <= l
    ensures f == l ==> r == z
    ensures f < l ==> r == Fold(f, l, op, fun)
  {
    if f == l {
      return z;
    }
    r := ReduceNonempty(f, l, op, fun);
  }

  // Mismatch searches

  /**
   * Advances through both ranges in step while r holds between their
   * elements; stops at the first pair where either range ends or r fails.
   */
  method FindMismatch<T>(s0: seq<T>, f0: nat, l0: nat, s1: seq<T>, f1: nat, l1: nat, r: (T, T) -> bool)
    returns (i0: nat, i1: nat)
    requires BoundedRange(s0, f0, l0) && BoundedRange(s1, f1, l1)
    ensures f0 <= i0 <= l0 && f1 <= i1 <= l1 && i0 - f0 == i1 - f1
    ensures forall k :: f0 <= k < i0 ==> r(s0[k], s1[k - f0 + f1])
    ensures i0 == l0 || i1 == l1 || !r(s0[i0], s1[i1])
  {
    i0, i1 := f0, f1;
    while i0 != l0 && i1 != l1 && r(s0[i0], s1[i1])
      invariant f0 <= i0 <= l0 && f1 <= i1 <= l1 && i0 - f0 == i1 - f1
      invariant forall k :: f0 <= k < i0 ==> r(s0[k], s1[k - f0 + f1])
      decreases l0 - i0
    {
      i0, i1 := i0 + 1, i1 + 1;
    }
  }

  /** i is the end of the run from f in which r holds between each element and the next. */
  ghost predicate AdjacentMismatch<T>(s: seq<T>, f: nat, l: nat, r: (T, T) -> bool, i: nat)
    requires BoundedRange(s, f, l)
  {
    && (f == l ==> i == l)
    && (f < l ==> f < i <= l)
    && (forall k :: f < k < i ==> r(s[k - 1], s[k]))
    && (f < i < l ==> !r(s[i - 1], s[i]))
  }

  /** The version for input iterators, which keeps a copy of the previous element. */
  method FindAdjacentMismatch<T>(s: seq<T>, f: nat, l: nat, r: (T, T) -> bool) returns (i: nat)
    requires BoundedRange(s, f, l)
    ensures AdjacentMismatch(s, f, l, r, i)
  {
    if f == l {
      return l;
    }
    var x := s[f];
    i := f + 1;
    while i != l && r(x, s[i])
      invariant f < i <= l && x == s[i - 1]
      invariant forall k :: f < k < i ==> r(s[k - 1], s[k])
      decreases l - i
    {
      x := s[i];
      i := i + 1;
    }
  }

  /** The version for forward iterators, which re-reads the previous position. */
  method FindAdjacentMismatchForward<T>(s: seq<T>, f: nat, l: nat, r: (T, T) -> bool) returns (i: nat)
    requires BoundedRange(s, f, l)
    ensures AdjacentMismatch(s, f, l, r, i)
  {
    if f == l {
      return l;
    }
    var t := f;
    i := f + 1;
    while i != l && r(s[t], s[i])
      invariant f < i <= l && t == i - 1
      invariant forall k :: f < k < i ==> r(s[k - 1], s[k])
      decreases l - i
    {
      t := i;
      i := i + 1;
    }
  }

  /** Both versions find the same position. */
  lemma AdjacentMismatchUnique<T>(s: seq<T>, f: nat, l: nat, r: (T, T) -> bool, i: nat, j: nat)
    requires BoundedRange(s, f, l)
    requires AdjacentMismatch(s, f, l, r, i) && AdjacentMismatch(s, f, l, r, j)
    ensures i == j
  {
  }

  /**
   * When the search for an adjacent pair violating the complement of the
   * converse of a strict weak ordering reaches the end, the range is
   * increasing.
   */
  lemma {:induction false} AdjacentSuffices<T(!new)>(s: seq<T>, f: nat, l: nat, r: (T, T) -> bool)
    requires StrictWeakOrdering(r)
    requires BoundedRange(s, f, l)
    requires AdjacentMismatch(s, f, l, ComplementOfConverse(r), l)
    ensures Increasing(s[f..l], r)
    decreases l - f
  {
    if l - f >= 2 {
      AdjacentSuffices(s, f, l - 1, r);
      var t := s[f..l];
      assert s[f..l - 1] == t[..|t| - 1];
      forall i, j | 0 <= i < j < |t|
        ensures !r(t[j], t[i])
      {
        if j < |t| - 1 {
          assert t[i] == s[f..l - 1][i] && t[j] == s[f..l - 1][j];
        } else {
          assert !r(t[j], t[j - 1]) by {
            assert ComplementOfConverse(r)(s[l - 2], s[l - 1]);
          }
          if i < j - 1 {
            assert t[i] == s[f..l - 1][i] && t[j - 1] == s[f..l - 1][j - 1];
            assert !r(t[j - 1], t[i]);
            NegativeTransitive(r, t[j], t[j - 1], t[i]);
          }
        }
      }
    }
  }

  /**
   * Conversely, on an increasing range the search finds no adjacent pair
   * violating the complement of the converse and reaches the end.
   */
  lemma AdjacentNecessary<T(!new)>(s: seq<T>, f: nat, l: nat, r: (T, T) -> bool)
    requires BoundedRange(s, f, l) && Increasing(s[f..l], r)
    ensures AdjacentMismatch(s, f, l, ComplementOfConverse(r), l)
  {
    forall k | f < k < l
      ensures ComplementOfConverse(r)(s[k - 1], s[k])
    {
      assert s[f..l][k - 1 - f] == s[k - 1] && s[f..l][k - f] == s[k];
    }
  }

  // Binary search

  /**
   * The first position in a range that is partitioned by p (false, then
   * true), found by halving the counted range.
   */
  method PartitionPointN<T>(s: seq<T>, f: nat, n: nat, p: T -> bool) returns (i: nat)
    requires CountedRange(s, f, n)
    requires Partitioned(s[f..f + n], p)
    ensures f <= i <= f + n
    ensures forall k :: f <= k < i ==> !p(s[k])
    ensures forall k :: i <= k < f + n ==> p(s[k])
  {
    i := f;
    var m := n;
    while m != 0
      invariant f <= i && i + m <= f + n
      invariant forall k :: f <= k < i ==> !p(s[k])
      invariant forall k :: i + m <= k < f + n ==> p(s[k])
    {
      var h := m / 2;
      var mid := i + h;
      if p(s[mid]) {
        forall k | mid <= k < f + n
          ensures p(s[k])
        {
          if k > mid {
            assert s[f..f + n][mid - f] == s[mid] && s[f..f + n][k - f] == s[k];
          }
        }
        m := h;
      } else {
        forall k | f <= k <= mid
          ensures !p(s[k])
        {
          if k < mid {
            assert s[f..f + n][mid - f] == s[mid] && s[f..f + n][k - f] == s[k];
          }
        }
        m := m - (h + 1);
        i := mid + 1;
      }
    }
  }

  /** The first position whose element is not below a, in an increasing range. */
  method LowerBoundN<T(!new)>(s: seq<T>, f: nat, n: nat, a: T, r: (T, T) -> bool) returns (i: nat)
    requires StrictWeakOrdering(r)
    requires CountedRange(s, f, n)
    requires Increasing(s[f..f + n], r)
    ensures f <= i <= f + n
    ensures forall k :: f <= k < i ==> r(s[k], a)
    ensures forall k :: i <= k < f + n ==> !r(s[k], a)
  {
    BoundPredicatesPartition(s[f..f + n], a, r);
    i := PartitionPointN(s, f, n, LowerBoundPredicate(a, r));
  }

  /** The first position whose element is above a, in an increasing range. */
  method UpperBoundN<T(!new)>(s: seq<T>, f: nat, n: nat, a: T, r: (T, T) -> bool) returns (i: nat)
    requires StrictWeakOrdering(r)
    requires CountedRange(s, f, n)
    requires Increasing(s[f..f + n], r)
    ensures f <= i <= f + n
    ensures forall k :: f <= k < i ==> !r(a, s[k])
    ensures forall k :: i <= k < f + n ==> r(a, s[k])
  {
    BoundPredicatesPartition(s[f..f + n], a, r);
    i := PartitionPointN(s, f, n, UpperBoundPredicate(a, r));
  }

  method LowerBound<T(!new)>(s: seq<T>, f: nat, l: nat, a: T, r: (T, T) -> bool) returns (i: nat)
    requires StrictWeakOrdering(r)
    requires BoundedRange(s, f, l)
    requires Increasing(s[f..l], r)
    ensures f <= i <= l
    ensures forall k :: f <= k < i ==> r(s[k], a)
    ensures forall k :: i <= k < l ==> !r(s[k], a)
  {
    i := LowerBoundN(s, f, l - f, a, r);
  }

  method UpperBound<T(!new)>(s: seq<T>, f: nat, l: nat, a: T, r: (T, T) -> bool) returns (i: nat)
    requires StrictWeakOrdering(r)
    requires BoundedRange(s, f, l)
    requires Increasing(s[f..l], r)
    ensures f <= i <= l
    ensures forall k :: f <= k < i ==> !r(a, s[k])
    ensures forall k :: i <= k < l ==> r(a, s[k])
  {
    i := UpperBoundN(s, f, l - f, a, r);
  }

  /**
   * The lower bound never follows the upper bound, and the elements between
   * them are exactly those equivalent to a.
   */
  lemma BoundsEnclosEquivalents<T(!new)>(s: seq<T>, f: nat, l: nat, a: T, r: (T, T) -> bool, lo: nat, hi: nat)
    requires StrictWeakOrdering(r)
    requires BoundedRange(s, f, l) && f <= lo <= l && f <= hi <= l
    requires forall k :: f <= k < lo ==> r(s[k], a)
    requires forall k :: lo <= k < l ==> !r(s[k], a)
    requires forall k :: f <= k < hi ==> !r(a, s[k])
    requires forall k :: hi <= k < l ==> r(a, s[k])
    ensures lo <= hi
    ensures forall k :: f <= k < l ==> (lo <= k < hi <==> Equivalent(r, s[k], a))
  {
    if hi < l {
      var x := s[hi];
      assert !(r(x, a) && r(a, x));
    }
  }
}
