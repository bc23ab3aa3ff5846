/**
 * The mathematics of orbits x, f(x), f(f(x)), ... under a transformation f.
 *
 * An orbit is described by a ghost witness: either it reaches a point where
 * the definition-space predicate p fails (`Terminal(t)`), or it is a "rho"
 * with a handle of h points followed by a cycle of c points on which p holds
 * everywhere (`Cyclic(h, c)`). The lemmas here locate the points the
 * algorithms of `OrbitTrf` compute: the collision point of the slow and
 * fast walkers, the connection point and the cycle itself.
 */
module Orbits {
  import opened Arith

  /** f applied n times to x. */
  function Iter<T>(f: T -> T, x: T, n: nat): T {
    if n == 0 then x else f(Iter(f, x, n - 1))
  }

  /** The orbit of x has a handle of h points and then a cycle of c points, all distinct. */
  ghost predicate Rho<T>(f: T -> T, x: T, h: nat, c: nat) {
    && c > 0
    && Iter(f, x, h + c) == Iter(f, x, h)
    && forall i, j :: 0 <= i < j < h + c ==> Iter(f, x, i) != Iter(f, x, j)
  }

  /** The orbit of x stays inside p for t steps and leaves it at step t. */
  ghost predicate TerminatesAt<T>(f: T -> T, p: T -> bool, x: T, t: nat) {
    && (forall i :: 0 <= i < t ==> p(Iter(f, x, i)))
    && !p(Iter(f, x, t))
  }

  /** How the orbit of x ends: at a terminal point, or in a cycle. */
  datatype Shape = Terminal(t: nat) | Cyclic(h: nat, c: nat)

  ghost predicate HasShape<T>(f: T -> T, p: T -> bool, x: T, s: Shape) {
    match s
    case Terminal(t) => TerminatesAt(f, p, x, t)
    case Cyclic(h, c) => Rho(f, x, h, c) && forall i :: 0 <= i < h + c ==> p(Iter(f, x, i))
  }

  /** z lies on a cycle of exactly c points. */
  ghost predicate OnCycleOfLength<T>(f: T -> T, z: T, c: nat) {
    && c > 0
    && Iter(f, z, c) == z
    && forall s :: 0 < s < c ==> Iter(f, z, s) != z
  }

  /** Some point is common to the orbits of x and y. */
  ghost predicate OrbitsIntersect<T>(f: T -> T, x: T, y: T) {
    exists i: nat, j: nat :: Iter(f, x, i) == Iter(f, y, j)
  }

  /** The index of the first point of the rho that has the same position on the cycle as i. */
  ghost function Canon(h: nat, c: nat, i: nat): nat
    requires c > 0
  {
    if i < h then i else h + (i - h) % c
  }

  /**
   * The number of steps the slow walker takes before the fast walker,
   * started one step ahead and moving twice as fast, lands on it: the least
   * k >= h with k + 1 a multiple of c.
   */
  ghost function CollisionIndex(h: nat, c: nat): nat
    requires c > 0
  {
    h + (c - 1 - h % c)
  }

  /* ---------------------------------------------------------------------- */
  /* Iteration                                                              */
  /* ---------------------------------------------------------------------- */

  lemma {:induction false} IterAdd<T>(f: T -> T, x: T, m: nat, n: nat)
    ensures Iter(f, x, m + n) == Iter(f, Iter(f, x, m), n)
  {
    if n > 0 {
      IterAdd(f, x, m, n - 1);
    }
  }

  /* ---------------------------------------------------------------------- */
  /* Rho-shaped orbits                                                      */
  /* ---------------------------------------------------------------------- */

  /** Going round the cycle q times returns to the same point. */
  lemma {:induction false} Periodic<T>(f: T -> T, x: T, h: nat, c: nat, m: nat, q: nat)
    requires Rho(f, x, h, c)
    ensures Iter(f, x, h + m + q * c) == Iter(f, x, h + m)
  {
    if q > 0 {
      Periodic(f, x, h, c, m, q - 1);
      var k := m + (q - 1) * c;
      assert h + m + q * c == (h + c) + k;
      IterAdd(f, x, h + c, k);
      IterAdd(f, x, h, k);
    }
  }

  lemma IterCanon<T>(f: T -> T, x: T, h: nat, c: nat, i: nat)
    requires Rho(f, x, h, c)
    ensures Canon(h, c, i) < h + c
    ensures Iter(f, x, i) == Iter(f, x, Canon(h, c, i))
  {
    if i >= h {
      var q, r := (i - h) / c, (i - h) % c;
      assert i == h + r + q * c;
      Periodic(f, x, h, c, r, q);
    }
  }

  /** Two points of a rho coincide exactly when their indices have the same canonical index. */
  lemma IterEqualIff<T>(f: T -> T, x: T, h: nat, c: nat, i: nat, j: nat)
    requires Rho(f, x, h, c)
    ensures Iter(f, x, i) == Iter(f, x, j) <==> Canon(h, c, i) == Canon(h, c, j)
  {
    IterCanon(f, x, h, c, i);
    IterCanon(f, x, h, c, j);
    var ci, cj := Canon(h, c, i), Canon(h, c, j);
    if ci < cj {
      assert Iter(f, x, ci) != Iter(f, x, cj);
    } else if cj < ci {
      assert Iter(f, x, cj) != Iter(f, x, ci);
    }
  }

  /** Indices on the cycle that differ by a multiple of c name the same point. */
  lemma SameResidue<T>(f: T -> T, x: T, h: nat, c: nat, i: nat, j: nat, q: int)
    requires Rho(f, x, h, c)
    requires i >= h && j >= h && i == j + q * c
    ensures Iter(f, x, i) == Iter(f, x, j)
  {
    ModAddMultiple(j - h, q, c);
    assert i - h == (j - h) + q * c;
    IterEqualIff(f, x, h, c, i, j);
  }

  lemma CollisionIndexBounds(h: nat, c: nat)
    requires c > 0
    ensures h <= CollisionIndex(h, c) < h + c
    ensures CollisionIndex(h, c) + 1 == (h / c + 1) * c
  {
    assert h == (h / c) * c + h % c;
  }

  /**
   * The walkers f^k(x) and f^(2k+1)(x) first coincide at k = CollisionIndex(h, c).
   */
  lemma FirstMeeting<T>(f: T -> T, x: T, h: nat, c: nat)
    requires Rho(f, x, h, c)
    ensures Iter(f, x, CollisionIndex(h, c)) == Iter(f, x, 2 * CollisionIndex(h, c) + 1)
    ensures forall k :: 0 <= k < CollisionIndex(h, c) ==> Iter(f, x, k) != Iter(f, x, 2 * k + 1)
  {
    var ci := CollisionIndex(h, c);
    CollisionIndexBounds(h, c);
    SameResidue(f, x, h, c, 2 * ci + 1, ci, h / c + 1);
    forall k | 0 <= k < ci
      ensures Iter(f, x, k) != Iter(f, x, 2 * k + 1)
    {
      NoEarlyMeeting(f, x, h, c, k);
    }
  }

  lemma NoEarlyMeeting<T>(f: T -> T, x: T, h: nat, c: nat, k: nat)
    requires Rho(f, x, h, c)
    requires k < CollisionIndex(h, c)
    ensures Iter(f, x, k) != Iter(f, x, 2 * k + 1)
  {
    IterEqualIff(f, x, h, c, k, 2 * k + 1);
    if k >= h {
      var u, rh := k - h, h % c;
      assert h == (h / c) * c + rh;
      assert u + rh + 1 < c;
      DivModUnique(u, c, 0, u);
      assert Canon(h, c, k) == h + u;
      ModAddMultiple(2 * u + rh + 1, h / c, c);
      assert 2 * k + 1 - h == 2 * u + rh + 1 + (h / c) * c;
      if 2 * u + rh + 1 < c {
        DivModUnique(2 * u + rh + 1, c, 0, 2 * u + rh + 1);
      } else {
        DivModUnique(2 * u + rh + 1, c, 1, 2 * u + rh + 1 - c);
      }
    }
  }

  /** f^j(x) meets the point CollisionIndex + 1 + j steps along exactly from the handle length on. */
  lemma ShiftedOrbitMeetsAtHandle<T>(f: T -> T, x: T, h: nat, c: nat, j: nat)
    requires Rho(f, x, h, c)
    ensures Iter(f, x, j) == Iter(f, x, CollisionIndex(h, c) + 1 + j) <==> j >= h
  {
    var ci := CollisionIndex(h, c);
    CollisionIndexBounds(h, c);
    if j >= h {
      SameResidue(f, x, h, c, ci + 1 + j, j, h / c + 1);
    } else {
      IterEqualIff(f, x, h, c, j, ci + 1 + j);
    }
  }

  /** The collision point is on the cycle, which has exactly c points. */
  lemma CollisionOnCycle<T>(f: T -> T, x: T, h: nat, c: nat)
    requires Rho(f, x, h, c)
    ensures OnCycleOfLength(f, Iter(f, x, CollisionIndex(h, c)), c)
  {
    var ci := CollisionIndex(h, c);
    CollisionIndexBounds(h, c);
    IterAdd(f, x, ci, c);
    SameResidue(f, x, h, c, ci + c, ci, 1);
    forall s | 0 < s < c
      ensures Iter(f, Iter(f, x, ci), s) != Iter(f, x, ci)
    {
      IterAdd(f, x, ci, s);
      CycleStepsDiffer(f, x, h, c, ci, s);
    }
  }

  lemma CycleStepsDiffer<T>(f: T -> T, x: T, h: nat, c: nat, i: nat, s: nat)
    requires Rho(f, x, h, c)
    requires h <= i && 0 < s < c
    ensures Iter(f, x, i + s) != Iter(f, x, i)
  {
    IterEqualIff(f, x, h, c, i + s, i);
    ShiftChangesResidue(i - h, s, c);
    assert i + s - h == (i - h) + s;
  }

  /** Every point past the handle is reached from the collision point in fewer than c steps. */
  lemma CycleCoverage<T>(f: T -> T, x: T, h: nat, c: nat, i: nat) returns (s: nat)
    requires Rho(f, x, h, c)
    requires i >= h
    ensures s < c
    ensures Iter(f, Iter(f, x, CollisionIndex(h, c)), s) == Iter(f, x, i)
  {
    var ci := CollisionIndex(h, c);
    CollisionIndexBounds(h, c);
    s := (i - ci) % c;
    assert i - ci == ((i - ci) / c) * c + s;
    SameResidue(f, x, h, c, i, ci + s, (i - ci) / c);
    IterAdd(f, x, ci, s);
  }

  /**
   * If the orbits of x and y share a point, then the collision point of x is
   * reached from the collision point of y in fewer than cy steps.
   */
  lemma IntersectingOrbitsShareCycle<T>(f: T -> T, x: T, hx: nat, cx: nat, y: T, hy: nat, cy: nat, i: nat, j: nat)
    returns (s: nat)
    requires Rho(f, x, hx, cx) && Rho(f, y, hy, cy)
    requires Iter(f, x, i) == Iter(f, y, j)
    ensures s < cy
    ensures Iter(f, Iter(f, y, CollisionIndex(hy, cy)), s) == Iter(f, x, CollisionIndex(hx, cx))
  {
    var m := hx + hy;
    IterAdd(f, x, i, m);
    IterAdd(f, y, j, m);
    var a, b := i + m, j + m;
    CollisionIndexBounds(hx, cx);
    assert Iter(f, x, a) == Iter(f, y, b);
    var d := CycleReach(f, x, hx, cx, a, CollisionIndex(hx, cx));
    IterAdd(f, y, b, d);
    assert Iter(f, y, b + d) == Iter(f, x, CollisionIndex(hx, cx));
    s := CycleCoverage(f, y, hy, cy, b + d);
  }

  /** From any point past the handle, every other such point is a finite number of steps away. */
  lemma CycleReach<T>(f: T -> T, x: T, h: nat, c: nat, a: nat, t: nat) returns (d: nat)
    requires Rho(f, x, h, c)
    requires a >= h && t >= h
    ensures Iter(f, Iter(f, x, a), d) == Iter(f, x, t)
  {
    d := (t - a) % c;
    assert t - a == ((t - a) / c) * c + d;
    SameResidue(f, x, h, c, a + d, t, -((t - a) / c));
    IterAdd(f, x, a, d);
  }

  /* ---------------------------------------------------------------------- */
  /* Terminating orbits                                                     */
  /* ---------------------------------------------------------------------- */

  /** A terminating orbit visits no point twice up to its terminal point. */
  lemma TerminalDistinct<T>(f: T -> T, p: T -> bool, x: T, t: nat, i: nat, j: nat)
    requires TerminatesAt(f, p, x, t)
    requires i < j <= t
    ensures Iter(f, x, i) != Iter(f, x, j)
  {
    // equal points would have equal successors, and t - j steps after i lies inside p
    IterAdd(f, x, i, t - j);
    IterAdd(f, x, j, t - j);
    assert p(Iter(f, x, i + (t - j)));
  }

  /** On a cyclic orbit, p holds at every point. */
  lemma CyclicInside<T>(f: T -> T, p: T -> bool, x: T, h: nat, c: nat, i: nat)
    requires HasShape(f, p, x, Cyclic(h, c))
    ensures p(Iter(f, x, i))
  {
    IterCanon(f, x, h, c, i);
  }

  /** A cyclic orbit never leaves p, so the two shapes exclude each other. */
  lemma ShapesExclusive<T>(f: T -> T, p: T -> bool, x: T, t: nat, h: nat, c: nat)
    requires HasShape(f, p, x, Terminal(t))
    ensures !HasShape(f, p, x, Cyclic(h, c))
  {
    if HasShape(f, p, x, Cyclic(h, c)) {
      CyclicInside(f, p, x, h, c, t);
      assert false;
    }
  }
}
