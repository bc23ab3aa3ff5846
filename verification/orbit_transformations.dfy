/**
 * The orbit algorithms: distance along an orbit, the collision point found
 * by a slow and a fast walker, the connection point where the handle meets
 * the cycle, the orbit structure (handle size, cycle size minus one,
 * connection point) and the intersection test for two orbits.
 *
 * The shape of each orbit is passed as a ghost witness (see `Orbits`); the
 * algorithms never look at it, it only lets the contracts say what they
 * compute. A terminating orbit is one whose points leave the definition
 * space predicate p.
 */
module OrbitTrf {
  import opened Orbits

  /** The number of steps from x0 to y, which must lie on the orbit of x0 (k steps away). */
  method Distance<T(==)>(x0: T, y: T, f: T -> T, ghost k: nat) returns (n: nat)
    requires Iter(f, x0, k) == y
    ensures n <= k && Iter(f, x0, n) == y
    ensures forall i :: 0 <= i < n ==> Iter(f, x0, i) != y
  {
    var x := x0;
    n := 0;
    while x != y
      invariant n <= k
      invariant x == Iter(f, x0, n)
      invariant forall i :: 0 <= i < n ==> Iter(f, x0, i) != y
      decreases k - n
    {
      x := f(x);
      n := n + 1;
    }
  }

  /** The point where the walkers f^k(x) and f^(2k+1)(x) first meet on a rho-shaped orbit. */
  method CollisionPointNonterminatingOrbit<T(==)>(x: T, f: T -> T, ghost h: nat, ghost c: nat) returns (r: T)
    requires Rho(f, x, h, c)
    ensures r == Iter(f, x, CollisionIndex(h, c))
    ensures h <= CollisionIndex(h, c) < h + c
  {
    FirstMeeting(f, x, h, c);
    CollisionIndexBounds(h, c);
    var slow := x;
    var fast := f(x);
    ghost var k: nat := 0;
    while fast != slow
      invariant k <= CollisionIndex(h, c)
      invariant slow == Iter(f, x, k) && fast == Iter(f, x, 2 * k + 1)
      decreases CollisionIndex(h, c) - k
    {
      WalkersStep(f, x, k);
      slow := f(slow);
      fast := f(fast);
      fast := f(fast);
      k := k + 1;
    }
    return fast;
  }

  /**
   * With a definition-space predicate: the terminal point of a terminating
   * orbit, and otherwise the collision point of the walkers.
   */
  method CollisionPoint<T(==)>(x: T, f: T -> T, p: T -> bool, ghost s: Shape) returns (r: T)
    requires HasShape(f, p, x, s)
    ensures s.Terminal? ==> r == Iter(f, x, s.t)
    ensures s.Cyclic? ==> r == Iter(f, x, CollisionIndex(s.h, s.c))
    ensures p(r) <==> s.Cyclic?
  {
    assert Iter(f, x, 0) == x;
    if !p(x) {
      LeavesAtEnd(f, p, x, s, 0);
      return x;
    }
    WalkStart(f, p, x, s);
    var slow := x;
    var fast := f(x);
    ghost var k: nat := 0;
    while fast != slow
      invariant slow == Iter(f, x, k) && fast == Iter(f, x, 2 * k + 1)
      invariant WalkInside(s, k)
      decreases WalkLeft(s, k)
    {
      WalkersStep(f, x, k);
      slow := f(slow);
      if !p(fast) {
        LeavesAtEnd(f, p, x, s, 2 * k + 1);
        return fast;
      }
      fast := f(fast);
      if !p(fast) {
        LeavesAtEnd(f, p, x, s, 2 * k + 2);
        return fast;
      }
      WalkAdvance(f, p, x, s, k);
      fast := f(fast);
      k := k + 1;
    }
    WalkMeets(f, p, x, s, k);
    return fast;
  }

  /** One step of the slow walker and two of the fast one. */
  lemma WalkersStep<T>(f: T -> T, x: T, k: nat)
    ensures Iter(f, x, k + 1) == f(Iter(f, x, k))
    ensures Iter(f, x, 2 * k + 2) == f(Iter(f, x, 2 * k + 1))
    ensures Iter(f, x, 2 * (k + 1) + 1) == f(Iter(f, x, 2 * k + 2))
  {
    assert 2 * (k + 1) + 1 == (2 * k + 2) + 1;
  }

  /** The fast walker, at 2k + 1, has not passed the terminal point or the collision index. */
  ghost predicate WalkInside(s: Shape, k: nat) {
    match s
    case Terminal(t) => 2 * k + 1 <= t
    case Cyclic(h, c) => c > 0 && k <= CollisionIndex(h, c)
  }

  /** What is left of the walk: the termination measure of the collision loop. */
  ghost function WalkLeft(s: Shape, k: nat): int {
    match s
    case Terminal(t) => t - 2 * k
    case Cyclic(h, c) => if c > 0 then CollisionIndex(h, c) - k else 0
  }

  /** A point of the orbit outside p, no further than the terminal point, is the terminal point. */
  lemma LeavesAtEnd<T>(f: T -> T, p: T -> bool, x: T, s: Shape, i: nat)
    requires HasShape(f, p, x, s)
    requires s.Terminal? ==> i <= s.t
    ensures !p(Iter(f, x, i)) ==> s.Terminal? && i == s.t
  {
    if s.Cyclic? {
      CyclicInside(f, p, x, s.h, s.c, i);
    }
  }

  /** Inside p at x, the walk may start: slow at 0, fast at 1. */
  lemma WalkStart<T>(f: T -> T, p: T -> bool, x: T, s: Shape)
    requires HasShape(f, p, x, s) && p(Iter(f, x, 0))
    ensures WalkInside(s, 0)
  {
    if s.Cyclic? {
      CollisionIndexBounds(s.h, s.c);
    }
  }

  /** When the walkers differ and the fast one's next two points are in p, the walk goes on. */
  lemma WalkAdvance<T>(f: T -> T, p: T -> bool, x: T, s: Shape, k: nat)
    requires HasShape(f, p, x, s) && WalkInside(s, k)
    requires Iter(f, x, 2 * k + 1) != Iter(f, x, k)
    requires p(Iter(f, x, 2 * k + 1)) && p(Iter(f, x, 2 * k + 2))
    ensures WalkInside(s, k + 1)
    ensures 0 <= WalkLeft(s, k + 1) < WalkLeft(s, k)
  {
    match s
    case Terminal(t) =>
      LeavesAtEnd(f, p, x, s, 2 * k + 1);
      LeavesAtEnd(f, p, x, s, 2 * k + 2);
    case Cyclic(h, c) =>
      FirstMeeting(f, x, h, c);
      CollisionIndexBounds(h, c);
  }

  /** The walkers meet only on a cyclic orbit, and then at the collision index. */
  lemma WalkMeets<T>(f: T -> T, p: T -> bool, x: T, s: Shape, k: nat)
    requires HasShape(f, p, x, s) && WalkInside(s, k)
    requires Iter(f, x, 2 * k + 1) == Iter(f, x, k)
    ensures s.Cyclic? && k == CollisionIndex(s.h, s.c) && p(Iter(f, x, k))
  {
    match s
    case Terminal(t) =>
      TerminalDistinct(f, p, x, t, k, 2 * k + 1);
    case Cyclic(h, c) =>
      FirstMeeting(f, x, h, c);
      CyclicInside(f, p, x, h, c, k);
  }

  /** Whether the orbit of x leaves p. */
  method Terminating<T(==)>(x: T, f: T -> T, p: T -> bool, ghost s: Shape) returns (r: bool)
    requires HasShape(f, p, x, s)
    ensures r <==> s.Terminal?
  {
    var y := CollisionPoint(x, f, p, s);
    return !p(y);
  }

  /** A rho-shaped orbit is a pure cycle exactly when its handle is empty. */
  method CircularNonterminatingOrbit<T(==)>(x: T, f: T -> T, ghost h: nat, ghost c: nat) returns (r: bool)
    requires Rho(f, x, h, c)
    ensures r <==> h == 0
  {
    var y := CollisionPointNonterminatingOrbit(x, f, h, c);
    ShiftedOrbitMeetsAtHandle(f, x, h, c, 0);
    return x == f(y);
  }

  method Circular<T(==)>(x: T, f: T -> T, p: T -> bool, ghost s: Shape) returns (r: bool)
    requires HasShape(f, p, x, s)
    ensures r <==> s.Cyclic? && s.h == 0
  {
    var y := CollisionPoint(x, f, p, s);
    if s.Cyclic? {
      ShiftedOrbitMeetsAtHandle(f, x, s.h, s.c, 0);
    }
    return p(y) && x == f(y);
  }

  /**
   * The first point where the orbits of x0 and x1, walked in lockstep,
   * coincide; they must coincide after n steps. The ghost m is that number of steps.
   */
  method ConvergentPoint<T(==)>(x0: T, x1: T, f: T -> T, ghost n: nat) returns (r: T, ghost m: nat)
    requires Iter(f, x0, n) == Iter(f, x1, n)
    ensures m <= n
    ensures r == Iter(f, x0, m) && r == Iter(f, x1, m)
    ensures forall j :: 0 <= j < m ==> Iter(f, x0, j) != Iter(f, x1, j)
    ensures exists j :: 0 <= j <= n && r == Iter(f, x0, j) && r == Iter(f, x1, j)
  {
    var a, b := x0, x1;
    m := 0;
    while a != b
      invariant m <= n
      invariant a == Iter(f, x0, m) && b == Iter(f, x1, m)
      invariant forall j :: 0 <= j < m ==> Iter(f, x0, j) != Iter(f, x1, j)
      decreases n - m
    {
      a := f(a);
      b := f(b);
      m := m + 1;
    }
    return a, m;
  }

  /** The connection point of a rho-shaped orbit: the first point of its cycle. */
  method ConnectionPointNonterminatingOrbit<T(==)>(x: T, f: T -> T, ghost h: nat, ghost c: nat) returns (r: T)
    requires Rho(f, x, h, c)
    ensures r == Iter(f, x, h)
  {
    var y := CollisionPointNonterminatingOrbit(x, f, h, c);
    ShiftedOrbitMeets(f, x, h, c, h);
    ghost var m;
    r, m := ConvergentPoint(x, f(y), f, h);
    ShiftedOrbitMeets(f, x, h, c, m);
  }

  /** The orbit of x and the orbit just past the collision point agree exactly from the handle on. */
  lemma ShiftedOrbitMeets<T>(f: T -> T, x: T, h: nat, c: nat, j: nat)
    requires Rho(f, x, h, c)
    ensures Iter(f, x, j) == Iter(f, f(Iter(f, x, CollisionIndex(h, c))), j) <==> j >= h
  {
    var ci := CollisionIndex(h, c);
    IterAdd(f, x, ci + 1, j);
    ShiftedOrbitMeetsAtHandle(f, x, h, c, j);
  }

  /** The first step at which the orbit of x reaches its h-th point is h. */
  lemma FirstReachOfHandle<T>(f: T -> T, x: T, h: nat, c: nat, m: nat)
    requires Rho(f, x, h, c)
    requires m <= h && Iter(f, x, m) == Iter(f, x, h)
    ensures m == h
  {
    assert m < h ==> Iter(f, x, m) != Iter(f, x, h);
  }

  /** The cycle through the h-th point returns to it after c steps and not before. */
  lemma CycleFromHandle<T>(f: T -> T, x: T, h: nat, c: nat, n: nat)
    requires Rho(f, x, h, c)
    ensures Iter(f, f(Iter(f, x, h)), c - 1) == Iter(f, x, h)
    ensures n < c - 1 ==> Iter(f, f(Iter(f, x, h)), n) != Iter(f, x, h)
  {
    IterAdd(f, x, h + 1, c - 1);
    IterAdd(f, x, h + 1, n);
    assert n < c - 1 ==> Iter(f, x, h) != Iter(f, x, h + 1 + n);
  }

  /** The terminal point of a terminating orbit, or the connection point of a rho. */
  method ConnectionPoint<T(==)>(x: T, f: T -> T, p: T -> bool, ghost s: Shape) returns (r: T)
    requires HasShape(f, p, x, s)
    ensures s.Terminal? ==> r == Iter(f, x, s.t)
    ensures s.Cyclic? ==> r == Iter(f, x, s.h)
  {
    var y := CollisionPoint(x, f, p, s);
    if !p(y) {
      return y;
    }
    ghost var h, c := s.h, s.c;
    ShiftedOrbitMeets(f, x, h, c, h);
    ghost var m;
    r, m := ConvergentPoint(x, f(y), f, h);
    ShiftedOrbitMeets(f, x, h, c, m);
  }

  /** (handle size, cycle size - 1, connection point) of a rho-shaped orbit. */
  method OrbitStructureNonterminatingOrbit<T(==)>(x: T, f: T -> T, ghost h: nat, ghost c: nat)
    returns (r: (nat, nat, T))
    requires Rho(f, x, h, c)
    ensures r == (h, c - 1, Iter(f, x, h))
  {
    var y := ConnectionPointNonterminatingOrbit(x, f, h, c);
    var m := Distance(x, y, f, h);
    FirstReachOfHandle(f, x, h, c, m);
    CycleFromHandle(f, x, h, c, 0);
    var n := Distance(f(y), y, f, c - 1);
    CycleFromHandle(f, x, h, c, n);
    return (m, n, y);
  }

  /**
   * (t, 0, terminal point) for an orbit that terminates after t steps, and
   * (handle size, cycle size - 1, connection point) for a rho-shaped one.
   */
  method OrbitStructure<T(==)>(x: T, f: T -> T, p: T -> bool, ghost s: Shape) returns (r: (nat, nat, T))
    requires HasShape(f, p, x, s)
    ensures s.Terminal? ==> r == (s.t, 0, Iter(f, x, s.t))
    ensures s.Cyclic? ==> r == (s.h, s.c - 1, Iter(f, x, s.h))
  {
    var y := ConnectionPoint(x, f, p, s);
    ghost var k := if s.Terminal? then s.t else s.h;
    var m := Distance(x, y, f, k);
    var n := 0;
    if p(y) {
      ghost var h, c := s.h, s.c;
      FirstReachOfHandle(f, x, h, c, m);
      CycleFromHandle(f, x, h, c, 0);
      n := Distance(f(y), y, f, c - 1);
      CycleFromHandle(f, x, h, c, n);
    }
    return (m, n, y);
  }

  /**
   * Walks the cycle through y, of exactly c points, looking for x: whether
   * x is among those c points.
   */
  method SearchCycle<T(==)>(x: T, y: T, f: T -> T, ghost c: nat) returns (r: bool)
    requires OnCycleOfLength(f, y, c)
    ensures r <==> exists s :: 0 <= s < c && Iter(f, y, s) == x
  {
    var z := y;
    ghost var s: nat := 0;
    while true
      invariant s < c && z == Iter(f, y, s)
      invariant forall i :: 0 <= i < s ==> Iter(f, y, i) != x
      decreases c - s
    {
      if z == x {
        return true;
      }
      z := f(z);
      assert z == Iter(f, y, s + 1);
      if z == y {
        assert s + 1 == c;
        return false;
      }
      s := s + 1;
    }
  }

  /** Whether the orbits of two rho-shaped orbits share a point. */
  method IntersectNonterminatingOrbit<T(==)>(x: T, y: T, f: T -> T, ghost hx: nat, ghost cx: nat, ghost hy: nat, ghost cy: nat)
    returns (r: bool)
    requires Rho(f, x, hx, cx) && Rho(f, y, hy, cy)
    ensures r <==> OrbitsIntersect(f, x, y)
  {
    var a := CollisionPointNonterminatingOrbit(x, f, hx, cx);
    var b := CollisionPointNonterminatingOrbit(y, f, hy, cy);
    CollisionOnCycle(f, y, hy, cy);
    r := SearchCycle(a, b, f, cy);
    IntersectLinksCycles(f, x, hx, cx, y, hy, cy, r);
  }

  /**
   * Whether the orbits of x and y share a point: never when one of them
   * terminates (each orbit has its own definition-space predicate), and
   * otherwise as for two rho-shaped orbits.
   */
  method Intersect<T(==)>(x: T, y: T, f: T -> T, px: T -> bool, py: T -> bool, ghost sx: Shape, ghost sy: Shape)
    returns (r: bool)
    requires HasShape(f, px, x, sx) && HasShape(f, py, y, sy)
    ensures r <==> sx.Cyclic? && sy.Cyclic? && OrbitsIntersect(f, x, y)
  {
    var a := CollisionPoint(x, f, px, sx);
    var b := CollisionPoint(y, f, py, sy);
    if !px(a) {
      return false;
    }
    if !py(b) {
      return false;
    }
    CollisionOnCycle(f, y, sy.h, sy.c);
    r := SearchCycle(a, b, f, sy.c);
    IntersectLinksCycles(f, x, sx.h, sx.c, y, sy.h, sy.c, r);
  }

  /** The cycle search answers the intersection question. */
  lemma IntersectLinksCycles<T>(f: T -> T, x: T, hx: nat, cx: nat, y: T, hy: nat, cy: nat, found: bool)
    requires Rho(f, x, hx, cx) && Rho(f, y, hy, cy)
    requires found <==>
      exists s :: 0 <= s < cy && Iter(f, Iter(f, y, CollisionIndex(hy, cy)), s) == Iter(f, x, CollisionIndex(hx, cx))
    ensures found <==> OrbitsIntersect(f, x, y)
  {
    var cix, ciy := CollisionIndex(hx, cx), CollisionIndex(hy, cy);
    if found {
      var s :| 0 <= s < cy && Iter(f, Iter(f, y, ciy), s) == Iter(f, x, cix);
      IterAdd(f, y, ciy, s);
      assert Iter(f, x, cix) == Iter(f, y, ciy + s);
    }
    if OrbitsIntersect(f, x, y) {
      var i: nat, j: nat :| Iter(f, x, i) == Iter(f, y, j);
      var s := IntersectingOrbitsShareCycle(f, x, hx, cx, y, hy, cy, i, j);
    }
  }
}
