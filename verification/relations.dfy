/**
 * Relations on a domain: strict weak orderings, the strict-or-reflexive
 * comparison that stable selection is built on, the complement of the
 * converse, and the lower- and upper-bound predicates that turn a search in
 * an increasing sequence into a partition-point search.
 */
module Relations {

  ghost predicate Irreflexive<T(!new)>(r: (T, T) -> bool) {
    forall a :: !r(a, a)
  }

  ghost predicate Transitive<T(!new)>(r: (T, T) -> bool) {
    forall a, b, c :: r(a, b) && r(b, c) ==> r(a, c)
  }

  /** Neither element is below the other. */
  predicate Equivalent<T>(r: (T, T) -> bool, a: T, b: T) {
    !r(a, b) && !r(b, a)
  }

  /** The `weak_ordering_relation` concept: a strict order whose incomparability is transitive. */
  ghost predicate StrictWeakOrdering<T(!new)>(r: (T, T) -> bool) {
    && Irreflexive(r)
    && Transitive(r)
    && (forall a, b, c :: Equivalent(r, a, b) && Equivalent(r, b, c) ==> Equivalent(r, a, c))
  }

  /** Whenever a is below c, every b is above a or below c. */
  lemma NegativeTransitive<T(!new)>(r: (T, T) -> bool, a: T, b: T, c: T)
    requires StrictWeakOrdering(r)
    ensures r(a, c) ==> r(a, b) || r(b, c)
  {
    if !r(a, c) {
    } else if r(b, a) {
      assert r(b, c);
    } else if r(c, b) {
      assert r(a, b);
    } else {
      assert Equivalent(r, a, b) && Equivalent(r, b, c) ==> Equivalent(r, a, c);
    }
  }

  /** NegativeTransitive for all triples at once. */
  lemma NegativeTransitivity<T(!new)>(r: (T, T) -> bool)
    requires StrictWeakOrdering(r)
    ensures forall a, b, c :: r(a, c) ==> r(a, b) || r(b, c)
  {
    forall a, b, c
      ensures r(a, c) ==> r(a, b) || r(b, c)
    {
      NegativeTransitive(r, a, b, c);
    }
  }

  /**
   * The strict comparison is r itself; the reflexive one also holds between
   * equivalent elements.
   */
  function CompareStrictOrReflexive<T(!new)>(strict: bool, a: T, b: T, r: (T, T) -> bool): (res: bool)
    ensures StrictWeakOrdering(r) ==> (res <==> r(a, b) || (!strict && Equivalent(r, a, b)))
  {
    if strict then r(a, b) else !r(b, a)
  }

  /** The "at most" relation of r: a is below b or equivalent to it. */
  function ComplementOfConverse<T(!new)>(r: (T, T) -> bool): (res: (T, T) -> bool)
    ensures forall a, b :: res(a, b) <==> !r(b, a)
    ensures StrictWeakOrdering(r) ==> forall a, b :: res(a, b) <==> r(a, b) || Equivalent(r, a, b)
    ensures Irreflexive(r) ==> forall a :: res(a, a)
  {
    (a, b) => !r(b, a)
  }

  ghost predicate TotalPreorder<T(!new)>(q: (T, T) -> bool) {
    && (forall a :: q(a, a))
    && (forall a, b, c :: q(a, b) && q(b, c) ==> q(a, c))
    && (forall a, b :: q(a, b) || q(b, a))
  }

  /** The complement of the converse of a strict weak ordering is the matching "at most". */
  lemma ComplementOfConverseIsTotalPreorder<T(!new)>(r: (T, T) -> bool)
    requires StrictWeakOrdering(r)
    ensures TotalPreorder(ComplementOfConverse(r))
  {
    var q := ComplementOfConverse(r);
    forall a, b, c | q(a, b) && q(b, c)
      ensures q(a, c)
    {
      NegativeTransitive(r, c, b, a);
    }
    forall a, b
      ensures q(a, b) || q(b, a)
    {
      if r(b, a) {
        assert !r(a, b);
      }
    }
  }

  /** Holds of the x that are not below a: the lower bound of a is its first such x. */
  function LowerBoundPredicate<T(!new)>(a: T, r: (T, T) -> bool): (p: T -> bool)
    ensures forall x :: p(x) <==> !r(x, a)
    ensures StrictWeakOrdering(r) ==> forall x :: p(x) <==> r(a, x) || Equivalent(r, a, x)
    ensures Irreflexive(r) ==> p(a)
  {
    x => !r(x, a)
  }

  /** Holds of the x that are above a: the upper bound of a is its first such x. */
  function UpperBoundPredicate<T(!new)>(a: T, r: (T, T) -> bool): (p: T -> bool)
    ensures forall x :: p(x) <==> r(a, x)
    ensures StrictWeakOrdering(r) ==> !p(a) && forall x :: p(x) ==> LowerBoundPredicate(a, r)(x)
  {
    x => r(a, x)
  }

  /** No later element is below an earlier one. */
  ghost predicate Increasing<T>(s: seq<T>, r: (T, T) -> bool) {
    forall i, j :: 0 <= i < j < |s| ==> !r(s[j], s[i])
  }

  /** Every element satisfying p is followed only by elements satisfying p. */
  ghost predicate Partitioned<T>(s: seq<T>, p: T -> bool) {
    forall i, j :: 0 <= i < j < |s| && p(s[i]) ==> p(s[j])
  }

  /**
   * In an increasing sequence both bound predicates are false on a prefix and
   * true on the rest, and the upper-bound prefix contains the lower-bound one.
   */
  lemma BoundPredicatesPartition<T(!new)>(s: seq<T>, a: T, r: (T, T) -> bool)
    requires StrictWeakOrdering(r)
    requires Increasing(s, r)
    ensures Partitioned(s, LowerBoundPredicate(a, r))
    ensures Partitioned(s, UpperBoundPredicate(a, r))
    ensures forall x :: UpperBoundPredicate(a, r)(x) ==> LowerBoundPredicate(a, r)(x)
  {
    var lower, upper := LowerBoundPredicate(a, r), UpperBoundPredicate(a, r);
    forall i, j | 0 <= i < j < |s| && lower(s[i])
      ensures lower(s[j])
    {
      NegativeTransitive(r, s[j], s[i], a);
    }
    forall i, j | 0 <= i < j < |s| && upper(s[i])
      ensures upper(s[j])
    {
      NegativeTransitive(r, a, s[j], s[i]);
    }
  }
}
