/**
 * Selection of the k-th smallest of two to five arguments under a strict
 * weak ordering, with a fixed number of comparisons.
 *
 * The untemplated selectors return one of their arguments; the stable ones
 * carry with every argument its position index, and compare two arguments
 * strictly when the first index is the smaller and reflexively otherwise,
 * so that equivalent arguments keep their original order.
 */
module Ordering {
  import opened Relations
  import opened Counting

  /**
   * m is a k-th smallest of xs (counting from 0): it is one of them, at most
   * k of them are below it and at most |xs| - 1 - k are above it.
   */
  ghost predicate IsSelect<T>(k: nat, m: T, xs: seq<T>, r: (T, T) -> bool) {
    && m in xs
    && CountWhere(xs, x => r(x, m)) <= k
    && CountWhere(xs, x => r(m, x)) < |xs| - k
  }

  // Untemplated selectors

  function Select02<T>(a: T, b: T, r: (T, T) -> bool): (m: T)
    ensures m == a || m == b
  {
    if r(b, a) then b else a
  }

  function Select12<T>(a: T, b: T, r: (T, T) -> bool): (m: T)
    ensures m == a || m == b
  {
    if r(b, a) then a else b
  }

  function Select03<T>(a: T, b: T, c: T, r: (T, T) -> bool): (m: T)
    ensures m == a || m == b || m == c
  {
    Select02(Select02(a, b, r), c, r)
  }

  function Select23<T>(a: T, b: T, c: T, r: (T, T) -> bool): (m: T)
    ensures m == a || m == b || m == c
  {
    Select12(Select12(a, b, r), c, r)
  }

  /** The median of three, given that a is not above b. */
  function Select13Ab<T>(a: T, b: T, c: T, r: (T, T) -> bool): (m: T)
    ensures m == a || m == b || m == c
  {
    if !r(c, b) then b else Select12(a, c, r)
  }

  function Select13<T>(a: T, b: T, c: T, r: (T, T) -> bool): (m: T)
    ensures m == a || m == b || m == c
  {
    if r(b, a) then Select13Ab(b, a, c, r) else Select13Ab(a, b, c, r)
  }

  /** The second smallest of four, given that a is not above b and c not above d. */
  function Select14AbCd<T>(a: T, b: T, c: T, d: T, r: (T, T) -> bool): (m: T)
    ensures m == a || m == b || m == c || m == d
  {
    if r(c, a) then Select02(a, d, r) else Select02(b, c, r)
  }

  function Select14Ab<T>(a: T, b: T, c: T, d: T, r: (T, T) -> bool): (m: T)
    ensures m == a || m == b || m == c || m == d
  {
    if r(d, c) then Select14AbCd(a, b, d, c, r) else Select14AbCd(a, b, c, d, r)
  }

  function Select14<T>(a: T, b: T, c: T, d: T, r: (T, T) -> bool): (m: T)
    ensures m == a || m == b || m == c || m == d
  {
    if r(b, a) then Select14Ab(b, a, c, d, r) else Select14Ab(a, b, c, d, r)
  }

  lemma Select02Selects<T(!new)>(a: T, b: T, r: (T, T) -> bool)
    requires StrictWeakOrdering(r)
    ensures IsSelect(0, Select02(a, b, r), [a, b], r)
    ensures Equivalent(r, a, b) ==> Select02(a, b, r) == a
  {
    var m := Select02(a, b, r);
    NegativeTransitivity(r);
    Count2(a, b, x => r(x, m));
    Count2(a, b, x => r(m, x));
  }

  lemma Select12Selects<T(!new)>(a: T, b: T, r: (T, T) -> bool)
    requires StrictWeakOrdering(r)
    ensures IsSelect(1, Select12(a, b, r), [a, b], r)
    ensures Equivalent(r, a, b) ==> Select12(a, b, r) == b
  {
    var m := Select12(a, b, r);
    NegativeTransitivity(r);
    Count2(a, b, x => r(x, m));
    Count2(a, b, x => r(m, x));
  }

  lemma Select03Selects<T(!new)>(a: T, b: T, c: T, r: (T, T) -> bool)
    requires StrictWeakOrdering(r)
    ensures IsSelect(0, Select03(a, b, c, r), [a, b, c], r)
    ensures !r(b, a) && !r(c, a) ==> Select03(a, b, c, r) == a
    ensures r(b, a) && !r(c, b) ==> Select03(a, b, c, r) == b
    ensures r(c, a) && r(c, b) ==> Select03(a, b, c, r) == c
  {
    var m := Select03(a, b, c, r);
    NegativeTransitivity(r);
    Count3(a, b, c, x => r(x, m));
    Count3(a, b, c, x => r(m, x));
  }

  lemma Select23Selects<T(!new)>(a: T, b: T, c: T, r: (T, T) -> bool)
    requires StrictWeakOrdering(r)
    ensures IsSelect(2, Select23(a, b, c, r), [a, b, c], r)
    ensures !r(c, a) && !r(c, b) ==> Select23(a, b, c, r) == c
    ensures !r(b, a) && r(c, b) ==> Select23(a, b, c, r) == b
    ensures r(b, a) && r(c, a) ==> Select23(a, b, c, r) == a
  {
    var m := Select23(a, b, c, r);
    NegativeTransitivity(r);
    Count3(a, b, c, x => r(x, m));
    Count3(a, b, c, x => r(m, x));
  }

  lemma Select13AbSelects<T(!new)>(a: T, b: T, c: T, r: (T, T) -> bool)
    requires StrictWeakOrdering(r)
    requires !r(b, a)
    ensures IsSelect(1, Select13Ab(a, b, c, r), [a, b, c], r)
  {
    var m := Select13Ab(a, b, c, r);
    NegativeTransitivity(r);
    Count3(a, b, c, x => r(x, m));
    Count3(a, b, c, x => r(m, x));
  }

  lemma Select13Selects<T(!new)>(a: T, b: T, c: T, r: (T, T) -> bool)
    requires StrictWeakOrdering(r)
    ensures IsSelect(1, Select13(a, b, c, r), [a, b, c], r)
  {
    var m := Select13(a, b, c, r);
    NegativeTransitivity(r);
    Count3(a, b, c, x => r(x, m));
    Count3(a, b, c, x => r(m, x));
    if r(b, a) {
      Select13AbSelects(b, a, c, r);
      Count3(b, a, c, x => r(x, m));
      Count3(b, a, c, x => r(m, x));
    } else {
      Select13AbSelects(a, b, c, r);
    }
  }

  lemma Select14AbCdSelects<T(!new)>(a: T, b: T, c: T, d: T, r: (T, T) -> bool)
    requires StrictWeakOrdering(r)
    requires !r(b, a) && !r(d, c)
    ensures IsSelect(1, Select14AbCd(a, b, c, d, r), [a, b, c, d], r)
  {
    var m := Select14AbCd(a, b, c, d, r);
    NegativeTransitivity(r);
    Count4(a, b, c, d, x => r(x, m));
    Count4(a, b, c, d, x => r(m, x));
  }

  lemma Select14AbSelects<T(!new)>(a: T, b: T, c: T, d: T, r: (T, T) -> bool)
    requires StrictWeakOrdering(r)
    requires !r(b, a)
    ensures IsSelect(1, Select14Ab(a, b, c, d, r), [a, b, c, d], r)
  {
    var m := Select14Ab(a, b, c, d, r);
    NegativeTransitivity(r);
    Count4(a, b, c, d, x => r(x, m));
    Count4(a, b, c, d, x => r(m, x));
    if r(d, c) {
      Select14AbCdSelects(a, b, d, c, r);
      Count4(a, b, d, c, x => r(x, m));
      Count4(a, b, d, c, x => r(m, x));
    } else {
      Select14AbCdSelects(a, b, c, d, r);
    }
  }

  lemma Select14Selects<T(!new)>(a: T, b: T, c: T, d: T, r: (T, T) -> bool)
    requires StrictWeakOrdering(r)
    ensures IsSelect(1, Select14(a, b, c, d, r), [a, b, c, d], r)
  {
    var m := Select14(a, b, c, d, r);
    NegativeTransitivity(r);
    Count4(a, b, c, d, x => r(x, m));
    Count4(a, b, c, d, x => r(m, x));
    if r(b, a) {
      Select14AbSelects(b, a, c, d, r);
      Count4(b, a, c, d, x => r(x, m));
      Count4(b, a, c, d, x => r(m, x));
    } else {
      Select14AbSelects(a, b, c, d, r);
    }
  }

  // Stable selectors

  /** An argument together with its position among the arguments of the outermost call. */
  datatype Item<T> = Item(val: T, ix: int)

  /** The strict total order on items that stable selection follows: by value, then by position. */
  predicate Before<T>(r: (T, T) -> bool, x: Item<T>, y: Item<T>) {
    r(x.val, y.val) || (Equivalent(r, x.val, y.val) && x.ix < y.ix)
  }

  /** The number of items of xs that come before m. */
  function Rank<T>(m: Item<T>, xs: seq<Item<T>>, r: (T, T) -> bool): nat {
    CountWhere(xs, x => Before(r, x, m))
  }

  predicate Distinct4<T>(a: Item<T>, b: Item<T>, c: Item<T>, d: Item<T>) {
    a.ix != b.ix && a.ix != c.ix && a.ix != d.ix && b.ix != c.ix && b.ix != d.ix && c.ix != d.ix
  }

  predicate Distinct5<T>(a: Item<T>, b: Item<T>, c: Item<T>, d: Item<T>, e: Item<T>) {
    Distinct4(a, b, c, d) && a.ix != e.ix && b.ix != e.ix && c.ix != e.ix && d.ix != e.ix
  }

  lemma BeforeIsStrictTotalOrder<T(!new)>(r: (T, T) -> bool)
    requires StrictWeakOrdering(r)
    ensures forall x: Item<T> :: !Before(r, x, x)
    ensures forall x: Item<T>, y: Item<T> :: Before(r, x, y) ==> !Before(r, y, x)
    ensures forall x: Item<T>, y: Item<T>, z: Item<T> :: Before(r, x, y) && Before(r, y, z) ==> Before(r, x, z)
    ensures forall x: Item<T>, y: Item<T> :: x.ix != y.ix ==> Before(r, x, y) || Before(r, y, x)
  {
    forall x: Item<T>, y: Item<T>, z: Item<T> | Before(r, x, y) && Before(r, y, z)
      ensures Before(r, x, z)
    {
      NegativeTransitive(r, x.val, z.val, y.val);
      NegativeTransitive(r, y.val, x.val, z.val);
    }
  }

  /**
   * The comparison the stable selectors make between the argument x and an
   * argument y is exactly "x comes before y".
   */
  lemma CompareIsBefore<T(!new)>(r: (T, T) -> bool, x: Item<T>, y: Item<T>)
    requires StrictWeakOrdering(r)
    requires x.ix != y.ix
    ensures CompareStrictOrReflexive(y.ix < x.ix, x.val, y.val, r) == Before(r, x, y)
  {
  }

  function StableSelect02<T(!new)>(a: Item<T>, b: Item<T>, r: (T, T) -> bool): (m: Item<T>)
    ensures m == a || m == b
  {
    if CompareStrictOrReflexive(a.ix < b.ix, b.val, a.val, r) then b else a
  }

  /** The larger of two, with the comparison that the source selects (`ia > ib`). */
  function StableSelect12AsWritten<T(!new)>(a: Item<T>, b: Item<T>, r: (T, T) -> bool): (m: Item<T>)
    ensures m == a || m == b
  {
    if CompareStrictOrReflexive(a.ix > b.ix, b.val, a.val, r) then a else b
  }

  /** The larger of two, comparing strictly exactly when a comes first. */
  function StableSelect12<T(!new)>(a: Item<T>, b: Item<T>, r: (T, T) -> bool): (m: Item<T>)
    ensures m == a || m == b
  {
    if CompareStrictOrReflexive(a.ix < b.ix, b.val, a.val, r) then a else b
  }

  function StableSelect14AbCd<T(!new)>(a: Item<T>, b: Item<T>, c: Item<T>, d: Item<T>, r: (T, T) -> bool): (m: Item<T>)
    ensures m == a || m == b || m == c || m == d
  {
    if CompareStrictOrReflexive(a.ix < c.ix, c.val, a.val, r) then StableSelect02(a, d, r)
    else StableSelect02(b, c, r)
  }

  function StableSelect14Ab<T(!new)>(a: Item<T>, b: Item<T>, c: Item<T>, d: Item<T>, r: (T, T) -> bool): (m: Item<T>)
    ensures m == a || m == b || m == c || m == d
  {
    if CompareStrictOrReflexive(c.ix < d.ix, d.val, c.val, r) then StableSelect14AbCd(a, b, d, c, r)
    else StableSelect14AbCd(a, b, c, d, r)
  }

  function StableSelect14<T(!new)>(a: Item<T>, b: Item<T>, c: Item<T>, d: Item<T>, r: (T, T) -> bool): (m: Item<T>)
    ensures m == a || m == b || m == c || m == d
  {
    if CompareStrictOrReflexive(a.ix < b.ix, b.val, a.val, r) then StableSelect14Ab(b, a, c, d, r)
    else StableSelect14Ab(a, b, c, d, r)
  }

  function StableSelect25AbCd<T(!new)>(a: Item<T>, b: Item<T>, c: Item<T>, d: Item<T>, e: Item<T>, r: (T, T) -> bool): (m: Item<T>)
    ensures m == a || m == b || m == c || m == d || m == e
  {
    if CompareStrictOrReflexive(a.ix < c.ix, c.val, a.val, r) then StableSelect14Ab(a, b, d, e, r)
    else StableSelect14Ab(c, d, b, e, r)
  }

  function StableSelect25Ab<T(!new)>(a: Item<T>, b: Item<T>, c: Item<T>, d: Item<T>, e: Item<T>, r: (T, T) -> bool): (m: Item<T>)
    ensures m == a || m == b || m == c || m == d || m == e
  {
    if CompareStrictOrReflexive(c.ix < d.ix, d.val, c.val, r) then StableSelect25AbCd(a, b, d, c, e, r)
    else StableSelect25AbCd(a, b, c, d, e, r)
  }

  function StableSelect25<T(!new)>(a: Item<T>, b: Item<T>, c: Item<T>, d: Item<T>, e: Item<T>, r: (T, T) -> bool): (m: Item<T>)
    ensures m == a || m == b || m == c || m == d || m == e
  {
    if CompareStrictOrReflexive(a.ix < b.ix, b.val, a.val, r) then StableSelect25Ab(b, a, c, d, e, r)
    else StableSelect25Ab(a, b, c, d, e, r)
  }

  /**
   * The five-argument selector as the source writes it: after swapping a and
   * b it also swaps the position indices of c and d, but not c and d.
   */
  function StableSelect25AsWritten<T(!new)>(a: Item<T>, b: Item<T>, c: Item<T>, d: Item<T>, e: Item<T>, r: (T, T) -> bool): (m: Item<T>)
    ensures m.val == a.val || m.val == b.val || m.val == c.val || m.val == d.val || m.val == e.val
  {
    if CompareStrictOrReflexive(a.ix < b.ix, b.val, a.val, r) then StableSelect25Ab(b, a, Item(c.val, d.ix), Item(d.val, c.ix), e, r)
    else StableSelect25Ab(a, b, c, d, e, r)
  }

  function Median5<T(!new)>(a: T, b: T, c: T, d: T, e: T, r: (T, T) -> bool): (m: T)
    ensures m == a || m == b || m == c || m == d || m == e
  {
    StableSelect25(Item(a, 0), Item(b, 1), Item(c, 2), Item(d, 3), Item(e, 4), r).val
  }

  function Median5AsWritten<T(!new)>(a: T, b: T, c: T, d: T, e: T, r: (T, T) -> bool): (m: T)
    ensures m == a || m == b || m == c || m == d || m == e
  {
    StableSelect25AsWritten(Item(a, 0), Item(b, 1), Item(c, 2), Item(d, 3), Item(e, 4), r).val
  }

  lemma StableSelect02Selects<T(!new)>(a: Item<T>, b: Item<T>, r: (T, T) -> bool)
    requires StrictWeakOrdering(r)
    requires a.ix != b.ix
    ensures Rank(StableSelect02(a, b, r), [a, b], r) == 0
  {
    var m := StableSelect02(a, b, r);
    CompareIsBefore(r, b, a);
    BeforeIsStrictTotalOrder(r);
    Count2(a, b, x => Before(r, x, m));
  }

  lemma StableSelect12Selects<T(!new)>(a: Item<T>, b: Item<T>, r: (T, T) -> bool)
    requires StrictWeakOrdering(r)
    requires a.ix != b.ix
    ensures Rank(StableSelect12(a, b, r), [a, b], r) == 1
  {
    var m := StableSelect12(a, b, r);
    CompareIsBefore(r, b, a);
    BeforeIsStrictTotalOrder(r);
    Count2(a, b, x => Before(r, x, m));
  }

  /**
   * Between two equivalent arguments the selector as written returns the
   * first as the larger, which is the second in the stable order, and the
   * untemplated selector returns the second.
   */
  lemma StableSelect12AsWrittenPicksFirst()
    ensures var r := (x: (int, int), y: (int, int)) => x.0 < y.0;
            var a, b := Item((1, 0), 0), Item((1, 1), 1);
            && StableSelect12AsWritten(a, b, r) == a
            && Rank(a, [a, b], r) == 0
            && Select12(a.val, b.val, r) == b.val
  {
    var r := (x: (int, int), y: (int, int)) => x.0 < y.0;
    var a, b := Item((1, 0), 0), Item((1, 1), 1);
    Count2(a, b, x => Before(r, x, a));
  }

  lemma StableSelect14AbCdSelects<T(!new)>(a: Item<T>, b: Item<T>, c: Item<T>, d: Item<T>, r: (T, T) -> bool)
    requires StrictWeakOrdering(r)
    requires Distinct4(a, b, c, d)
    requires !Before(r, b, a) && !Before(r, d, c)
    ensures Rank(StableSelect14AbCd(a, b, c, d, r), [a, b, c, d], r) == 1
  {
    var m := StableSelect14AbCd(a, b, c, d, r);
    CompareIsBefore(r, c, a);
    CompareIsBefore(r, d, a);
    CompareIsBefore(r, c, b);
    BeforeIsStrictTotalOrder(r);
    Count4(a, b, c, d, x => Before(r, x, m));
  }

  lemma StableSelect14AbSelects<T(!new)>(a: Item<T>, b: Item<T>, c: Item<T>, d: Item<T>, r: (T, T) -> bool)
    requires StrictWeakOrdering(r)
    requires Distinct4(a, b, c, d)
    requires !Before(r, b, a)
    ensures Rank(StableSelect14Ab(a, b, c, d, r), [a, b, c, d], r) == 1
  {
    var m := StableSelect14Ab(a, b, c, d, r);
    CompareIsBefore(r, d, c);
    BeforeIsStrictTotalOrder(r);
    Count4(a, b, c, d, x => Before(r, x, m));
    if Before(r, d, c) {
      StableSelect14AbCdSelects(a, b, d, c, r);
      Count4(a, b, d, c, x => Before(r, x, m));
    } else {
      StableSelect14AbCdSelects(a, b, c, d, r);
    }
  }

  lemma StableSelect14Selects<T(!new)>(a: Item<T>, b: Item<T>, c: Item<T>, d: Item<T>, r: (T, T) -> bool)
    requires StrictWeakOrdering(r)
    requires Distinct4(a, b, c, d)
    ensures Rank(StableSelect14(a, b, c, d, r), [a, b, c, d], r) == 1
  {
    var m := StableSelect14(a, b, c, d, r);
    CompareIsBefore(r, b, a);
    BeforeIsStrictTotalOrder(r);
    Count4(a, b, c, d, x => Before(r, x, m));
    if Before(r, b, a) {
      StableSelect14AbSelects(b, a, c, d, r);
      Count4(b, a, c, d, x => Before(r, x, m));
    } else {
      StableSelect14AbSelects(a, b, c, d, r);
    }
  }

  lemma StableSelect25AbCdSelects<T(!new)>(a: Item<T>, b: Item<T>, c: Item<T>, d: Item<T>, e: Item<T>, r: (T, T) -> bool)
    requires StrictWeakOrdering(r)
    requires Distinct5(a, b, c, d, e)
    requires !Before(r, b, a) && !Before(r, d, c)
    ensures Rank(StableSelect25AbCd(a, b, c, d, e, r), [a, b, c, d, e], r) == 2
  {
    var m := StableSelect25AbCd(a, b, c, d, e, r);
    CompareIsBefore(r, c, a);
    BeforeIsStrictTotalOrder(r);
    Count5(a, b, c, d, e, x => Before(r, x, m));
    if Before(r, c, a) {
      StableSelect14AbSelects(a, b, d, e, r);
      Count4(a, b, d, e, x => Before(r, x, m));
    } else {
      StableSelect14AbSelects(c, d, b, e, r);
      Count4(c, d, b, e, x => Before(r, x, m));
    }
  }

  lemma StableSelect25AbSelects<T(!new)>(a: Item<T>, b: Item<T>, c: Item<T>, d: Item<T>, e: Item<T>, r: (T, T) -> bool)
    requires StrictWeakOrdering(r)
    requires Distinct5(a, b, c, d, e)
    requires !Before(r, b, a)
    ensures Rank(StableSelect25Ab(a, b, c, d, e, r), [a, b, c, d, e], r) == 2
  {
    var m := StableSelect25Ab(a, b, c, d, e, r);
    CompareIsBefore(r, d, c);
    BeforeIsStrictTotalOrder(r);
    Count5(a, b, c, d, e, x => Before(r, x, m));
    if Before(r, d, c) {
      StableSelect25AbCdSelects(a, b, d, c, e, r);
      Count5(a, b, d, c, e, x => Before(r, x, m));
    } else {
      StableSelect25AbCdSelects(a, b, c, d, e, r);
    }
  }

  lemma StableSelect25Selects<T(!new)>(a: Item<T>, b: Item<T>, c: Item<T>, d: Item<T>, e: Item<T>, r: (T, T) -> bool)
    requires StrictWeakOrdering(r)
    requires Distinct5(a, b, c, d, e)
    ensures Rank(StableSelect25(a, b, c, d, e, r), [a, b, c, d, e], r) == 2
  {
    var m := StableSelect25(a, b, c, d, e, r);
    CompareIsBefore(r, b, a);
    BeforeIsStrictTotalOrder(r);
    Count5(a, b, c, d, e, x => Before(r, x, m));
    if Before(r, b, a) {
      StableSelect25AbSelects(b, a, c, d, e, r);
      Count5(b, a, c, d, e, x => Before(r, x, m));
    } else {
      StableSelect25AbSelects(a, b, c, d, e, r);
    }
  }

  /** The median of five is a median of the values: at most two below it and at most two above it. */
  lemma Median5IsMedian<T(!new)>(a: T, b: T, c: T, d: T, e: T, r: (T, T) -> bool)
    requires StrictWeakOrdering(r)
    ensures IsSelect(2, Median5(a, b, c, d, e, r), [a, b, c, d, e], r)
  {
    var A, B, C, D, E := Item(a, 0), Item(b, 1), Item(c, 2), Item(d, 3), Item(e, 4);
    var mi := StableSelect25(A, B, C, D, E, r);
    var m := mi.val;
    StableSelect25Selects(A, B, C, D, E, r);
    BeforeIsStrictTotalOrder(r);
    Count5(A, B, C, D, E, x => Before(r, x, mi));
    Count5(a, b, c, d, e, x => r(x, m));
    Count5(a, b, c, d, e, x => r(m, x));
  }

  /**
   * The median as written is still a median: the swapped positions of c and d
   * only change which of two equivalent arguments it returns.
   */
  lemma Median5AsWrittenIsMedian<T(!new)>(a: T, b: T, c: T, d: T, e: T, r: (T, T) -> bool)
    requires StrictWeakOrdering(r)
    ensures IsSelect(2, Median5AsWritten(a, b, c, d, e, r), [a, b, c, d, e], r)
  {
    var A, B := Item(a, 0), Item(b, 1);
    CompareIsBefore(r, B, A);
    if Before(r, B, A) {
      MedianOfItems(B, A, Item(c, 3), Item(d, 2), Item(e, 4), r);
    } else {
      MedianOfItems(A, B, Item(c, 2), Item(d, 3), Item(e, 4), r);
    }
  }

  /**
   * Five items with distinct positions, the first not above the second:
   * the stable selector returns a median of their values.
   */
  lemma MedianOfItems<T(!new)>(a: Item<T>, b: Item<T>, c: Item<T>, d: Item<T>, e: Item<T>, r: (T, T) -> bool)
    requires StrictWeakOrdering(r)
    requires Distinct5(a, b, c, d, e) && !Before(r, b, a)
    ensures var m := StableSelect25Ab(a, b, c, d, e, r).val;
      && IsSelect(2, m, [a.val, b.val, c.val, d.val, e.val], r)
      && IsSelect(2, m, [b.val, a.val, c.val, d.val, e.val], r)
  {
    var mi := StableSelect25Ab(a, b, c, d, e, r);
    var m := mi.val;
    StableSelect25AbSelects(a, b, c, d, e, r);
    BeforeIsStrictTotalOrder(r);
    Count5(a, b, c, d, e, x => Before(r, x, mi));
    Count5(a.val, b.val, c.val, d.val, e.val, x => r(x, m));
    Count5(a.val, b.val, c.val, d.val, e.val, x => r(m, x));
    Count5(b.val, a.val, c.val, d.val, e.val, x => r(x, m));
    Count5(b.val, a.val, c.val, d.val, e.val, x => r(m, x));
  }

  /** The selector as written still returns a largest of the two values; only the tie goes the other way. */
  lemma StableSelect12AsWrittenSelects<T(!new)>(a: Item<T>, b: Item<T>, r: (T, T) -> bool)
    requires StrictWeakOrdering(r)
    ensures IsSelect(1, StableSelect12AsWritten(a, b, r).val, [a.val, b.val], r)
  {
    var m := StableSelect12AsWritten(a, b, r).val;
    NegativeTransitivity(r);
    Count2(a.val, b.val, x => r(x, m));
    Count2(a.val, b.val, x => r(m, x));
  }

  /** The untemplated second-of-four is the stable one on positions 0 to 3. */
  lemma Select14IsStable<T(!new)>(a: T, b: T, c: T, d: T, r: (T, T) -> bool)
    ensures Select14(a, b, c, d, r) == StableSelect14(Item(a, 0), Item(b, 1), Item(c, 2), Item(d, 3), r).val
  {
  }

  /**
   * Among pairwise equivalent arguments every selector returns the argument
   * whose position is the rank it selects.
   */
  lemma SelectorsKeepArgumentOrder<T(!new)>(a: T, b: T, c: T, d: T, e: T, r: (T, T) -> bool)
    requires StrictWeakOrdering(r)
    requires Equivalent(r, a, b) && Equivalent(r, b, c) && Equivalent(r, c, d) && Equivalent(r, d, e)
    ensures Select02(a, b, r) == a && Select12(a, b, r) == b
    ensures Select03(a, b, c, r) == a && Select13(a, b, c, r) == b && Select23(a, b, c, r) == c
    ensures Select14(a, b, c, d, r) == b
    ensures Median5(a, b, c, d, e, r) == c
    ensures Median5AsWritten(a, b, c, d, e, r) == c
  {
    assert Equivalent(r, a, c) && Equivalent(r, a, d) && Equivalent(r, b, d);
    assert Equivalent(r, a, e) && Equivalent(r, b, e) && Equivalent(r, c, e);
    var A, B, C, D, E := Item(a, 0), Item(b, 1), Item(c, 2), Item(d, 3), Item(e, 4);
    var mi := StableSelect25(A, B, C, D, E, r);
    StableSelect25Selects(A, B, C, D, E, r);
    Count5(A, B, C, D, E, x => Before(r, x, mi));
  }

  /**
   * On keys (3, 0, 1, 1, 2) compared by their first component, the median as
   * written returns the first of the two equivalent middle arguments, c; in
   * the stable order c comes before d, so the median is d.
   */
  lemma Median5AsWrittenIsUnstable()
    ensures var r := (x: (int, int), y: (int, int)) => x.0 < y.0;
            var a, b, c, d, e := (3, 0), (0, 1), (1, 2), (1, 3), (2, 4);
            && Median5AsWritten(a, b, c, d, e, r) == c
            && Median5(a, b, c, d, e, r) == d
  {
  }
}
