/** Counting the elements of a sequence that satisfy a predicate. */
module Counting {

  function Ind(b: bool): nat {
    if b then 1 else 0
  }

  /** The number of elements of xs satisfying p. */
  function CountWhere<T>(xs: seq<T>, p: T -> bool): nat {
    if |xs| == 0 then 0 else Ind(p(xs[0])) + CountWhere(xs[1..], p)
  }

  lemma CountCons<T>(x: T, xs: seq<T>, p: T -> bool)
    ensures CountWhere([x] + xs, p) == Ind(p(x)) + CountWhere(xs, p)
  {
    assert ([x] + xs)[1..] == xs;
  }

  lemma Count2<T>(a: T, b: T, p: T -> bool)
    ensures CountWhere([a, b], p) == Ind(p(a)) + Ind(p(b))
  {
    CountCons(b, [], p);
    CountCons(a, [b], p);
    assert [a] + [b] == [a, b];
    assert [b] + [] == [b];
  }

  lemma Count3<T>(a: T, b: T, c: T, p: T -> bool)
    ensures CountWhere([a, b, c], p) == Ind(p(a)) + Ind(p(b)) + Ind(p(c))
  {
    Count2(b, c, p);
    CountCons(a, [b, c], p);
    assert [a] + [b, c] == [a, b, c];
  }

  lemma Count4<T>(a: T, b: T, c: T, d: T, p: T -> bool)
    ensures CountWhere([a, b, c, d], p) == Ind(p(a)) + Ind(p(b)) + Ind(p(c)) + Ind(p(d))
  {
    Count3(b, c, d, p);
    CountCons(a, [b, c, d], p);
    assert [a] + [b, c, d] == [a, b, c, d];
  }

  lemma Count5<T>(a: T, b: T, c: T, d: T, e: T, p: T -> bool)
    ensures CountWhere([a, b, c, d, e], p) == Ind(p(a)) + Ind(p(b)) + Ind(p(c)) + Ind(p(d)) + Ind(p(e))
  {
    Count4(b, c, d, e, p);
    CountCons(a, [b, c, d, e], p);
    assert [a] + [b, c, d, e] == [a, b, c, d, e];
  }

  lemma {:induction false} CountAppend<T>(xs: seq<T>, ys: seq<T>, p: T -> bool)
    ensures CountWhere(xs + ys, p) == CountWhere(xs, p) + CountWhere(ys, p)
  {
    if |xs| == 0 {
      assert xs + ys == ys;
    } else {
      assert (xs + ys)[1..] == xs[1..] + ys;
      CountAppend(xs[1..], ys, p);
    }
  }

  /** Every element satisfies p or its negation, never both. */
  lemma {:induction false} CountComplement<T>(xs: seq<T>, p: T -> bool)
    ensures CountWhere(xs, p) + CountWhere(xs, x => !p(x)) == |xs|
  {
    if |xs| > 0 {
      CountComplement(xs[1..], p);
    }
  }

  lemma CountBounds<T>(xs: seq<T>, p: T -> bool)
    ensures CountWhere(xs, p) <= |xs|
    ensures CountWhere(xs, p) == 0 <==> forall i :: 0 <= i < |xs| ==> !p(xs[i])
    ensures CountWhere(xs, p) == |xs| <==> forall i :: 0 <= i < |xs| ==> p(xs[i])
  {
    CountComplement(xs, p);
    CountZero(xs, p);
    CountZero(xs, x => !p(x));
  }

  lemma {:induction false} CountZero<T>(xs: seq<T>, p: T -> bool)
    ensures CountWhere(xs, p) == 0 <==> forall i :: 0 <= i < |xs| ==> !p(xs[i])
  {
    if |xs| > 0 {
      CountZero(xs[1..], p);
      assert forall i :: 1 <= i < |xs| ==> xs[i] == xs[1..][i - 1];
    }
  }
}
