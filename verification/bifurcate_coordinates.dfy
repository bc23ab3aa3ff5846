/**
 * Bifurcate coordinates over binary trees.
 *
 * A coordinate is a path of left/right moves from the root of a fixed tree
 * T; it is empty when the path leaves the tree. Its successors append a
 * move and its predecessor drops the last one, so every coordinate is
 * bidirectional. A traversal procedure is modelled by the sequence of
 * (visit, coordinate) calls it receives: the procedure's final state is a
 * function of that sequence.
 */
module BifurcateCoordinates {

  datatype Tree = Empty | Node(left: Tree, right: Tree)

  datatype Dir = Left | Right

  /** pre: before the left successor, in: between the successors, post: after the right successor. */
  datatype Visit = Pre | In | Post

  type Path = seq<Dir>

  type Event = (Visit, Path)

  /** The visit kind, the coordinate it leaves behind and the change in height of one traversal step. */
  datatype StepResult = StepResult(v: Visit, c: Path, delta: int)

  function Max(a: int, b: int): int {
    if a < b then b else a
  }

  /* ---------------------------------------------------------------------- */
  /* Coordinates                                                            */
  /* ---------------------------------------------------------------------- */

  function Child(t: Tree, d: Dir): Tree {
    match t
    case Empty => Empty
    case Node(l, r) => if d == Left then l else r
  }

  /** The subtree a coordinate designates, reading the path from the root down. */
  function Sub(t: Tree, p: Path): Tree
    decreases |p|
  {
    if |p| == 0 then t else Child(Sub(t, p[..|p| - 1]), p[|p| - 1])
  }

  predicate HasLeftSuccessor(t: Tree, c: Path)
    requires Sub(t, c).Node?
  {
    Sub(t, c).left.Node?
  }

  predicate HasRightSuccessor(t: Tree, c: Path)
    requires Sub(t, c).Node?
  {
    Sub(t, c).right.Node?
  }

  function LeftSuccessor(c: Path): Path { c + [Left] }

  function RightSuccessor(c: Path): Path { c + [Right] }

  function Predecessor(c: Path): Path
    requires |c| > 0
  {
    c[..|c| - 1]
  }

  /** A successor coordinate designates the matching child of the node at c. */
  lemma SubSnoc(t: Tree, c: Path, d: Dir)
    ensures Sub(t, c + [d]) == Child(Sub(t, c), d)
  {
    assert (c + [d])[..|c|] == c;
  }

  /** The predecessor of a node's coordinate designates a node. */
  lemma PredecessorIsNode(t: Tree, c: Path)
    requires |c| > 0 && Sub(t, c).Node?
    ensures Sub(t, Predecessor(c)).Node?
  {
  }

  /** The coordinates of a tree's non-empty nodes, relative to its root. */
  function Paths(t: Tree): set<Path> {
    match t
    case Empty => {}
    case Node(l, r) => {[]} + Prepend(Paths(l), Left) + Prepend(Paths(r), Right)
  }

  function Prepend(s: set<Path>, d: Dir): set<Path> {
    set q | q in s :: [d] + q
  }

  /** c designates a node of the subtree t rooted at coordinate base. */
  ghost predicate Below(c: Path, base: Path, t: Tree) {
    |base| <= |c| && c[..|base|] == base && Sub(t, c[|base|..]).Node?
  }

  lemma {:induction false} SubConcat(t: Tree, p: Path, q: Path)
    ensures Sub(t, p + q) == Sub(Sub(t, p), q)
    decreases |q|
  {
    if |q| > 0 {
      var q' := q[..|q| - 1];
      var pq := p + q;
      assert pq[..|pq| - 1] == p + q';
      assert pq[|pq| - 1] == q[|q| - 1];
      SubConcat(t, p, q');
      assert Sub(t, pq) == Child(Sub(t, p + q'), q[|q| - 1]);
    } else {
      assert p + q == p;
    }
  }

  lemma {:induction false} SubOfEmpty(q: Path)
    ensures Sub(Empty, q) == Empty
    decreases |q|
  {
    if |q| > 0 {
      SubOfEmpty(q[..|q| - 1]);
    }
  }

  /** The coordinates listed by `Paths` are exactly those that designate a node. */
  lemma {:induction false} PathsAreNodes(t: Tree, p: Path)
    ensures p in Paths(t) <==> Sub(t, p).Node?
    decreases |p|
  {
    if |p| > 0 {
      var d, p' := p[0], p[1..];
      assert p == [d] + p';
      SubConcat(t, [d], p');
      assert Sub(t, [d]) == Child(t, d);
      if t.Empty? {
        SubOfEmpty(p');
      } else {
        PathsAreNodes(Child(t, d), p');
        forall q | [d] + q == p
          ensures q == p'
        {
          assert ([d] + q)[1..] == q;
        }
        if d == Left {
          assert p in Paths(t) <==> p in Prepend(Paths(t.left), Left);
        } else {
          assert p in Paths(t) <==> p in Prepend(Paths(t.right), Right);
        }
      }
    }
  }

  lemma {:induction false} PrependCard(s: set<Path>, d: Dir)
    ensures |Prepend(s, d)| == |s|
    decreases |s|
  {
    if s != {} {
      var x :| x in s;
      var s' := s - {x};
      PrependCard(s', d);
      assert Prepend(s, d) == Prepend(s', d) + {[d] + x};
      forall y | y in s'
        ensures [d] + y != [d] + x
      {
        assert ([d] + y)[1..] == y;
        assert ([d] + x)[1..] == x;
      }
    }
  }

  lemma PathsOfNodeCard(t: Tree)
    requires t.Node?
    ensures |Paths(t)| == 1 + |Paths(t.left)| + |Paths(t.right)|
  {
    var a, l, r := {[]}, Prepend(Paths(t.left), Left), Prepend(Paths(t.right), Right);
    PrependCard(Paths(t.left), Left);
    PrependCard(Paths(t.right), Right);
    assert a !! l;
    assert a !! r;
    assert l !! r by {
      forall x | x in l
        ensures |x| > 0 && x[0] == Left
      {
        var q :| q in Paths(t.left) && x == [Left] + q;
      }
      forall x | x in r
        ensures |x| > 0 && x[0] == Right
      {
        var q :| q in Paths(t.right) && x == [Right] + q;
      }
    }
    assert |a + l| == |a| + |l|;
    assert |(a + l) + r| == |a + l| + |r|;
  }

  /* ---------------------------------------------------------------------- */
  /* Successor tests                                                        */
  /* ---------------------------------------------------------------------- */

  /** A non-empty coordinate with a predecessor is a left successor exactly when its last move is left. */
  function IsLeftSuccessor(t: Tree, j: Path): (b: bool)
    requires Sub(t, j).Node? && |j| > 0
    ensures b <==> j[|j| - 1] == Left
  {
    var i := Predecessor(j);
    Sub(t, i).Node? && HasLeftSuccessor(t, i) && LeftSuccessor(i) == j
  }

  function IsRightSuccessor(t: Tree, j: Path): (b: bool)
    requires Sub(t, j).Node? && |j| > 0
    ensures b <==> j[|j| - 1] == Right
  {
    var i := Predecessor(j);
    Sub(t, i).Node? && HasRightSuccessor(t, i) && RightSuccessor(i) == j
  }

  /** Every non-root node is exactly one of a left and a right successor. */
  lemma SuccessorKinds(t: Tree, j: Path)
    requires Sub(t, j).Node? && |j| > 0
    ensures IsLeftSuccessor(t, j) != IsRightSuccessor(t, j)
  {
  }

  /* ---------------------------------------------------------------------- */
  /* Recursive weight and height                                            */
  /* ---------------------------------------------------------------------- */

  /** The weight of a tree: the number of its nodes. */
  function WeightRecursive(t: Tree): (n: nat)
    ensures n == 0 <==> t.Empty?
  {
    match t
    case Empty => 0
    case Node(left, right) =>
      var l := if left.Node? then WeightRecursive(left) else 0;
      var r := if right.Node? then WeightRecursive(right) else 0;
      l + r + 1
  }

  /** The weight counts the coordinates of the tree's nodes. */
  lemma {:induction false} WeightIsNodeCount(t: Tree)
    ensures WeightRecursive(t) == |Paths(t)|
  {
    if t.Node? {
      WeightIsNodeCount(t.left);
      WeightIsNodeCount(t.right);
      PathsOfNodeCard(t);
    }
  }

  /** The height of a tree: the number of nodes on its longest root-to-leaf path. */
  function HeightRecursive(t: Tree): (n: nat)
    ensures n == 0 <==> t.Empty?
    ensures n <= WeightRecursive(t)
  {
    match t
    case Empty => 0
    case Node(left, right) =>
      var l := if left.Node? then HeightRecursive(left) else 0;
      var r := if right.Node? then HeightRecursive(right) else 0;
      Max(l, r) + 1
  }

  /**
   * The height as the source computes it: the recursive calls go to the
   * weight of the children instead of their height.
   */
  function HeightRecursiveAsWritten(t: Tree): (n: nat)
    ensures n == 0 <==> t.Empty?
    ensures HeightRecursive(t) <= n <= WeightRecursive(t)
  {
    match t
    case Empty => 0
    case Node(left, right) =>
      var l := if left.Node? then WeightRecursive(left) else 0;
      var r := if right.Node? then WeightRecursive(right) else 0;
      Max(l, r) + 1
  }

  /** Every coordinate is shallower than the height, and some coordinate reaches it. */
  lemma {:induction false} HeightIsDeepestPath(t: Tree) returns (deepest: Path)
    ensures forall p :: p in Paths(t) ==> |p| < HeightRecursive(t)
    ensures t.Node? ==> deepest in Paths(t) && |deepest| == HeightRecursive(t) - 1
  {
    deepest := [];
    if t.Node? {
      var dl := HeightIsDeepestPath(t.left);
      var dr := HeightIsDeepestPath(t.right);
      var hl, hr := HeightRecursive(t.left), HeightRecursive(t.right);
      forall p | p in Paths(t)
        ensures |p| < HeightRecursive(t)
      {
        if p != [] {
          if p in Prepend(Paths(t.left), Left) {
            var q :| q in Paths(t.left) && p == [Left] + q;
          } else {
            var q :| q in Paths(t.right) && p == [Right] + q;
          }
        }
      }
      if hl == 0 && hr == 0 {
      } else if hl >= hr {
        deepest := [Left] + dl;
        assert deepest in Prepend(Paths(t.left), Left);
      } else {
        deepest := [Right] + dr;
        assert deepest in Prepend(Paths(t.right), Right);
      }
    }
  }

  /** The as-written height exceeds the height once a left subtree has more nodes than levels. */
  lemma HeightRecursiveAsWrittenOvercounts()
    ensures HeightRecursive(Node(Node(Node(Empty, Empty), Node(Empty, Empty)), Empty)) == 3
    ensures HeightRecursiveAsWritten(Node(Node(Node(Empty, Empty), Node(Empty, Empty)), Empty)) == 4
  {
  }

  /* ---------------------------------------------------------------------- */
  /* Recursive traversal                                                    */
  /* ---------------------------------------------------------------------- */

  /**
   * The calls a procedure receives when the non-empty tree t, rooted at
   * coordinate base, is traversed recursively.
   */
  function TraverseNonempty(t: Tree, base: Path): (r: seq<Event>)
    requires t.Node?
    ensures |r| == 3 * WeightRecursive(t)
    ensures r[0] == (Pre, base) && r[|r| - 1] == (Post, base)
  {
    var l := if t.left.Node? then TraverseNonempty(t.left, LeftSuccessor(base)) else [];
    var r := if t.right.Node? then TraverseNonempty(t.right, RightSuccessor(base)) else [];
    [(Pre, base)] + l + [(In, base)] + r + [(Post, base)]
  }

  /** Every call of the traversal is at a node of t. */
  lemma {:induction false} TraverseNonemptyStaysBelow(t: Tree, base: Path)
    requires t.Node?
    ensures forall e :: e in TraverseNonempty(t, base) ==> Below(e.1, base, t)
  {
    var bl, br := LeftSuccessor(base), RightSuccessor(base);
    var l := if t.left.Node? then TraverseNonempty(t.left, bl) else [];
    var rr := if t.right.Node? then TraverseNonempty(t.right, br) else [];
    if t.left.Node? {
      TraverseNonemptyStaysBelow(t.left, bl);
    }
    if t.right.Node? {
      TraverseNonemptyStaysBelow(t.right, br);
    }
    var a, m, z := [(Pre, base)], [(In, base)], [(Post, base)];
    assert TraverseNonempty(t, base) == a + l + m + rr + z;
    forall e: Event | e in a + l + m + rr + z
      ensures Below(e.1, base, t)
    {
      InFive(e, a, l, m, rr, z);
      if e in l {
        BelowChild(e.1, base, t, Left, t.left);
      } else if e in rr {
        BelowChild(e.1, base, t, Right, t.right);
      } else {
        BelowSelf(base, t);
      }
    }
  }

  /** Every node of t receives all three visits from the traversal. */
  lemma {:induction false} TraverseNonemptyVisits(t: Tree, base: Path, v: Visit, q: Path)
    requires t.Node? && Sub(t, q).Node?
    ensures (v, base + q) in TraverseNonempty(t, base)
    decreases |q|
  {
    if q == [] {
      assert base + q == base;
      VisitsAtRoot(t, base, v);
    } else {
      var d, q' := q[0], q[1..];
      PathStep(t, base, q);
      TraverseNonemptyVisits(Child(t, d), base + [d], v, q');
      InChildCalls(t, base, d, (v, base + q));
    }
  }

  /** No element of s occurs at two positions. */
  ghost predicate NoRepeats<E>(s: seq<E>) {
    forall i, j :: 0 <= i < j < |s| ==> s[i] != s[j]
  }

  /** The traversal never makes the same call twice. */
  lemma {:induction false} TraverseNonemptyNoRepeats(t: Tree, base: Path)
    requires t.Node?
    ensures NoRepeats(TraverseNonempty(t, base))
  {
    var bl, br := LeftSuccessor(base), RightSuccessor(base);
    var l := if t.left.Node? then TraverseNonempty(t.left, bl) else [];
    var r := if t.right.Node? then TraverseNonempty(t.right, br) else [];
    if t.left.Node? {
      TraverseNonemptyNoRepeats(t.left, bl);
      ChildCallsTurn(t.left, base, Left);
    }
    if t.right.Node? {
      TraverseNonemptyNoRepeats(t.right, br);
      ChildCallsTurn(t.right, base, Right);
    }
    NoRepeatsOfNode(base, l, r);
  }

  /** Every call of the traversal of a child at base + [d] turns d at position |base|. */
  lemma ChildCallsTurn(s: Tree, base: Path, d: Dir)
    requires s.Node?
    ensures forall e :: e in TraverseNonempty(s, base + [d]) ==> |e.1| > |base| && e.1[|base|] == d
  {
    TraverseNonemptyStaysBelow(s, base + [d]);
    forall e | e in TraverseNonempty(s, base + [d])
      ensures |e.1| > |base| && e.1[|base|] == d
    {
      assert e.1[|base|] == e.1[..|base| + 1][|base|];
    }
  }

  /** The calls of a node: its own three, and those of its children, which turn left and right below it. */
  lemma NoRepeatsOfNode(base: Path, l: seq<Event>, r: seq<Event>)
    requires NoRepeats(l) && NoRepeats(r)
    requires forall e :: e in l ==> |e.1| > |base| && e.1[|base|] == Left
    requires forall e :: e in r ==> |e.1| > |base| && e.1[|base|] == Right
    ensures NoRepeats([(Pre, base)] + l + [(In, base)] + r + [(Post, base)])
  {
    var a, m, z := [(Pre, base)], [(In, base)], [(Post, base)];
    NoRepeatsConcat(a, l);
    forall e | e in a + l
      ensures e !in m
    {
      assert e in a || e in l;
    }
    NoRepeatsConcat(a + l, m);
    forall e | e in a + l + m
      ensures e !in r
    {
      assert e in a + l || e in m;
      assert e in a || e in l || e in m;
    }
    NoRepeatsConcat(a + l + m, r);
    forall e | e in a + l + m + r
      ensures e !in z
    {
      assert e in a + l + m || e in r;
      assert e in a + l || e in m || e in r;
      assert e in a || e in l || e in m || e in r;
    }
    NoRepeatsConcat(a + l + m + r, z);
  }

  lemma NoRepeatsConcat<E>(a: seq<E>, b: seq<E>)
    requires NoRepeats(a) && NoRepeats(b)
    requires forall e :: e in a ==> e !in b
    ensures NoRepeats(a + b)
  {
    forall i, j | 0 <= i < j < |a + b|
      ensures (a + b)[i] != (a + b)[j]
    {
      if j < |a| {
        assert (a + b)[i] == a[i] && (a + b)[j] == a[j];
      } else if i >= |a| {
        assert (a + b)[i] == b[i - |a|] && (a + b)[j] == b[j - |a|];
      } else {
        assert (a + b)[i] == a[i] && a[i] in a;
        assert (a + b)[j] == b[j - |a|] && b[j - |a|] in b;
      }
    }
  }

  /** Each node of t receives each visit exactly once: at one position of the traversal and no other. */
  lemma TraverseNonemptyVisitsOnce(t: Tree, base: Path, v: Visit, q: Path) returns (i: nat)
    requires t.Node? && Sub(t, q).Node?
    ensures i < |TraverseNonempty(t, base)| && TraverseNonempty(t, base)[i] == (v, base + q)
    ensures forall j :: 0 <= j < |TraverseNonempty(t, base)| && TraverseNonempty(t, base)[j] == (v, base + q) ==> j == i
  {
    var tr := TraverseNonempty(t, base);
    TraverseNonemptyVisits(t, base, v, q);
    TraverseNonemptyNoRepeats(t, base);
    i := IndexOf(tr, (v, base + q));
  }

  lemma VisitsAtRoot(t: Tree, base: Path, v: Visit)
    requires t.Node?
    ensures (v, base) in TraverseNonempty(t, base)
  {
    var l := if t.left.Node? then TraverseNonempty(t.left, LeftSuccessor(base)) else [];
    var r := if t.right.Node? then TraverseNonempty(t.right, RightSuccessor(base)) else [];
    var tr := [(Pre, base)] + l + [(In, base)] + r + [(Post, base)];
    assert TraverseNonempty(t, base) == tr;
    assert tr[|[(Pre, base)] + l|] == (In, base);
  }

  /** The calls of a child's traversal are calls of the parent's traversal. */
  lemma InChildCalls(t: Tree, base: Path, d: Dir, e: Event)
    requires t.Node? && Child(t, d).Node?
    requires e in TraverseNonempty(Child(t, d), base + [d])
    ensures e in TraverseNonempty(t, base)
  {
    var l := if t.left.Node? then TraverseNonempty(t.left, LeftSuccessor(base)) else [];
    var r := if t.right.Node? then TraverseNonempty(t.right, RightSuccessor(base)) else [];
    assert TraverseNonempty(t, base) == [(Pre, base)] + l + [(In, base)] + r + [(Post, base)];
    assert e in l || e in r;
  }

  /** A node below t by a non-empty path lies below the child the path starts with. */
  lemma PathStep(t: Tree, base: Path, q: Path)
    requires |q| > 0 && Sub(t, q).Node?
    ensures Child(t, q[0]).Node? && Sub(Child(t, q[0]), q[1..]).Node?
    ensures base + q == (base + [q[0]]) + q[1..]
  {
    assert q == [q[0]] + q[1..];
    SubConcat(t, [q[0]], q[1..]);
    SubOfEmpty(q[1..]);
    assert Sub(t, [q[0]]) == Child(t, q[0]);
  }

  /** Below a coordinate of t0 means: extending it and designating a node of t0. */
  lemma BelowIff(c: Path, base: Path, t0: Tree)
    ensures Below(c, base, Sub(t0, base)) <==> |base| <= |c| && c[..|base|] == base && Sub(t0, c).Node?
  {
    if |base| <= |c| && c[..|base|] == base {
      assert c == base + c[|base|..];
      SubConcat(t0, base, c[|base|..]);
    }
  }

  lemma BelowSelf(base: Path, t: Tree)
    requires t.Node?
    ensures Below(base, base, t)
  {
    assert base[|base|..] == [];
  }

  lemma BelowChild(c: Path, base: Path, t: Tree, d: Dir, child: Tree)
    requires t.Node? && child == Child(t, d)
    requires Below(c, base + [d], child)
    ensures Below(c, base, t)
    ensures |c| > |base|
  {
    var q := c[|base| + 1..];
    assert c[..|base|] == c[..|base| + 1][..|base|];
    assert c[|base|..] == [d] + q;
    SubConcat(t, [d], q);
    assert Sub(t, [d]) == Child(t, d);
  }

  /** The closing post visit of the root is the only one: no earlier call has it. */
  lemma TraverseNonemptyEndsOnce(t: Tree, base: Path)
    requires t.Node?
    ensures (Post, base) !in TraverseNonempty(t, base)[..|TraverseNonempty(t, base)| - 1]
  {
    var bl, br := LeftSuccessor(base), RightSuccessor(base);
    var l := if t.left.Node? then TraverseNonempty(t.left, bl) else [];
    var r := if t.right.Node? then TraverseNonempty(t.right, br) else [];
    var front := [(Pre, base)] + l + [(In, base)] + r;
    assert TraverseNonempty(t, base) == front + [(Post, base)];
    DropLast(front, (Post, base));
    if t.left.Node? {
      PostNotInDeeper(t.left, bl, base);
    }
    if t.right.Node? {
      PostNotInDeeper(t.right, br, base);
    }
    NotInFour((Post, base), [(Pre, base)], l, [(In, base)], r);
  }

  /** A traversal from a deeper coordinate never visits the shallower one. */
  lemma PostNotInDeeper(s: Tree, deeper: Path, base: Path)
    requires s.Node? && |deeper| > |base|
    ensures (Post, base) !in TraverseNonempty(s, deeper)
  {
    TraverseNonemptyStaysBelow(s, deeper);
  }

  lemma DropLast<E>(x: seq<E>, z: E)
    ensures (x + [z])[..|x|] == x
  {
  }

  lemma InFive<E>(e: E, a: seq<E>, b: seq<E>, c: seq<E>, d: seq<E>, f: seq<E>)
    ensures e in a + b + c + d + f <==> e in a || e in b || e in c || e in d || e in f
  {
  }

  lemma NotInFour<E>(e: E, a: seq<E>, b: seq<E>, c: seq<E>, d: seq<E>)
    requires e !in a && e !in b && e !in c && e !in d
    ensures e !in a + b + c + d
  {
  }



  /** Extending a prefix of s by one call appends that call. */
  lemma PrefixSnoc(s: seq<Event>, k: nat)
    requires k < |s|
    ensures s[..k + 1] == s[..k] + [s[k]]
  {
  }

  /** Extending a prefix by one call adds one to the count when that call is a pre visit. */
  lemma PrefixCountPre(s: seq<Event>, k: nat)
    requires k < |s|
    ensures CountPre(s[..k + 1]) == CountPre(s[..k]) + (if s[k].0 == Pre then 1 else 0)
  {
    assert s[..k + 1][..k] == s[..k];
  }

  /** Extending a prefix by one call raises its deepest level to at least that call's level. */
  lemma PrefixMaxLevel(s: seq<Event>, k: nat)
    requires k < |s|
    ensures MaxLevel(s[..k + 1]) == Max(MaxLevel(s[..k]), |s[k].1| + 1)
  {
    assert s[..k + 1][..k] == s[..k];
  }

  /** The number of pre visits in a sequence of calls. */
  function CountPre(s: seq<Event>): nat {
    if |s| == 0 then 0 else CountPre(s[..|s| - 1]) + (if s[|s| - 1].0 == Pre then 1 else 0)
  }

  lemma {:induction false} CountPreConcat(a: seq<Event>, b: seq<Event>)
    ensures CountPre(a + b) == CountPre(a) + CountPre(b)
    decreases |b|
  {
    if |b| > 0 {
      assert (a + b)[..|a + b| - 1] == a + b[..|b| - 1];
      CountPreConcat(a, b[..|b| - 1]);
    } else {
      assert a + b == a;
    }
  }

  /** Each node receives one pre visit, so counting them gives the weight. */
  lemma {:induction false} TraverseNonemptyPreCount(t: Tree, base: Path)
    requires t.Node?
    ensures CountPre(TraverseNonempty(t, base)) == WeightRecursive(t)
  {
    var l := if t.left.Node? then TraverseNonempty(t.left, LeftSuccessor(base)) else [];
    var r := if t.right.Node? then TraverseNonempty(t.right, RightSuccessor(base)) else [];
    if t.left.Node? {
      TraverseNonemptyPreCount(t.left, LeftSuccessor(base));
    }
    if t.right.Node? {
      TraverseNonemptyPreCount(t.right, RightSuccessor(base));
    }
    var wl := if t.left.Node? then WeightRecursive(t.left) else 0;
    var wr := if t.right.Node? then WeightRecursive(t.right) else 0;
    assert WeightRecursive(t) == wl + wr + 1;
    CountPreOfNode(base, l, r);
  }

  /** A node's traversal has one pre visit more than its subtrees' traversals together. */
  lemma CountPreOfNode(base: Path, l: seq<Event>, r: seq<Event>)
    ensures CountPre([(Pre, base)] + l + [(In, base)] + r + [(Post, base)]) == CountPre(l) + CountPre(r) + 1
  {
    CountPreSingleton((Pre, base));
    CountPreSingleton((In, base));
    CountPreSingleton((Post, base));
    CountPreOfFive([(Pre, base)], l, [(In, base)], r, [(Post, base)]);
  }

  lemma CountPreSingleton(e: Event)
    ensures CountPre([e]) == if e.0 == Pre then 1 else 0
  {
    assert [e][..0] == [];
  }

  /** The pre visits of five consecutive runs of calls. */
  lemma CountPreOfFive(a: seq<Event>, l: seq<Event>, m: seq<Event>, r: seq<Event>, z: seq<Event>)
    ensures CountPre(a + l + m + r + z) == CountPre(a) + CountPre(l) + CountPre(m) + CountPre(r) + CountPre(z)
  {
    CountPreConcat(a, l);
    CountPreConcat(a + l, m);
    CountPreConcat(a + l + m, r);
    CountPreConcat(a + l + m + r, z);
  }

  /** The largest 1 + |c| among the coordinates c of a sequence of calls (0 when there are none). */
  function MaxLevel(s: seq<Event>): nat {
    if |s| == 0 then 0 else Max(MaxLevel(s[..|s| - 1]), |s[|s| - 1].1| + 1)
  }

  lemma {:induction false} MaxLevelConcat(a: seq<Event>, b: seq<Event>)
    ensures MaxLevel(a + b) == Max(MaxLevel(a), MaxLevel(b))
    decreases |b|
  {
    if |b| > 0 {
      assert (a + b)[..|a + b| - 1] == a + b[..|b| - 1];
      MaxLevelConcat(a, b[..|b| - 1]);
    } else {
      assert a + b == a;
    }
  }

  /** The deepest call of a traversal is one level below base per node on the longest path. */
  lemma {:induction false} TraverseNonemptyMaxLevel(t: Tree, base: Path)
    requires t.Node?
    ensures MaxLevel(TraverseNonempty(t, base)) == |base| + HeightRecursive(t)
  {
    var bl, br := LeftSuccessor(base), RightSuccessor(base);
    var l := if t.left.Node? then TraverseNonempty(t.left, bl) else [];
    var r := if t.right.Node? then TraverseNonempty(t.right, br) else [];
    var hl := if t.left.Node? then HeightRecursive(t.left) else 0;
    var hr := if t.right.Node? then HeightRecursive(t.right) else 0;
    var a, m, z := [(Pre, base)], [(In, base)], [(Post, base)];
    assert TraverseNonempty(t, base) == a + l + m + r + z;
    assert HeightRecursive(t) == Max(hl, hr) + 1;
    if t.left.Node? {
      TraverseNonemptyMaxLevel(t.left, bl);
    }
    if t.right.Node? {
      TraverseNonemptyMaxLevel(t.right, br);
    }
    MaxLevelOfNode(base, l, r, hl, hr);
  }

  /** The deepest call of a node's traversal, from the deepest calls of its subtrees' traversals. */
  lemma MaxLevelOfNode(base: Path, l: seq<Event>, r: seq<Event>, hl: nat, hr: nat)
    requires MaxLevel(l) == |base| + 1 + hl || (l == [] && hl == 0)
    requires MaxLevel(r) == |base| + 1 + hr || (r == [] && hr == 0)
    ensures MaxLevel([(Pre, base)] + l + [(In, base)] + r + [(Post, base)]) == |base| + 1 + Max(hl, hr)
  {
    var top := |base| + 1;
    MaxLevelSingleton((Pre, base));
    MaxLevelSingleton((In, base));
    MaxLevelSingleton((Post, base));
    MaxLevelOfFive([(Pre, base)], l, [(In, base)], r, [(Post, base)]);
    MaxOfLevels(top, MaxLevel(l), MaxLevel(r), hl, hr);
  }

  /** The arithmetic of the levels around a node at level top with subtrees of heights hl and hr. */
  lemma MaxOfLevels(top: int, ml: int, mr: int, hl: nat, hr: nat)
    requires ml <= top + hl && (ml == top + hl || hl == 0)
    requires mr <= top + hr && (mr == top + hr || hr == 0)
    ensures Max(Max(Max(Max(top, ml), top), mr), top) == top + Max(hl, hr)
  {
  }

  /** The deepest call of five consecutive runs of calls. */
  lemma MaxLevelOfFive(a: seq<Event>, l: seq<Event>, m: seq<Event>, r: seq<Event>, z: seq<Event>)
    ensures MaxLevel(a + l + m + r + z) == Max(Max(Max(Max(MaxLevel(a), MaxLevel(l)), MaxLevel(m)), MaxLevel(r)), MaxLevel(z))
  {
    MaxLevelConcat(a, l);
    MaxLevelConcat(a + l, m);
    MaxLevelConcat(a + l + m, r);
    MaxLevelConcat(a + l + m + r, z);
  }

  lemma MaxLevelSingleton(e: Event)
    ensures MaxLevel([e]) == |e.1| + 1
  {
    assert [e][..0] == [];
  }

  /* ---------------------------------------------------------------------- */
  /* Iterative traversal                                                    */
  /* ---------------------------------------------------------------------- */

  /** A step may be taken from a node; from a post visit it needs a predecessor. */
  predicate Steppable(t: Tree, e: Event) {
    Sub(t, e.1).Node? && (e.0 == Post ==> |e.1| > 0)
  }

  /**
   * One step of the iterative traversal: descend to the left successor from
   * a pre visit, to the right successor from an in visit, and climb to the
   * predecessor from a post visit. The result's delta is the change in height.
   */
  function TraverseStepCorrected(t: Tree, v: Visit, c: Path): (r: StepResult)
    requires Steppable(t, (v, c))
    ensures Sub(t, r.c).Node?
    ensures r.delta == |r.c| - |c| && -1 <= r.delta <= 1
    ensures r.delta == 1 <==> r.v == Pre
  {
    match v
    case Pre =>
      SubSnoc(t, c, Left);
      if HasLeftSuccessor(t, c) then StepResult(Pre, LeftSuccessor(c), 1) else StepResult(In, c, 0)
    case In =>
      SubSnoc(t, c, Right);
      if HasRightSuccessor(t, c) then StepResult(Pre, RightSuccessor(c), 1) else StepResult(Post, c, 0)
    case Post =>
      PredecessorIsNode(t, c);
      StepResult(if IsLeftSuccessor(t, c) then In else Post, Predecessor(c), -1)
  }

  /** The step as the source writes it: descending to the right successor keeps the in visit. */
  function TraverseStepAsWritten(t: Tree, v: Visit, c: Path): (r: StepResult)
    requires Steppable(t, (v, c))
    ensures Sub(t, r.c).Node?
    ensures r.delta == |r.c| - |c| && -1 <= r.delta <= 1
    ensures r.v != TraverseStepCorrected(t, v, c).v <==> v == In && HasRightSuccessor(t, c)
    ensures r.c == TraverseStepCorrected(t, v, c).c && r.delta == TraverseStepCorrected(t, v, c).delta
    ensures v == In && HasRightSuccessor(t, c) ==> r.v == In
  {
    match v
    case Pre =>
      SubSnoc(t, c, Left);
      if HasLeftSuccessor(t, c) then StepResult(Pre, LeftSuccessor(c), 1) else StepResult(In, c, 0)
    case In =>
      SubSnoc(t, c, Right);
      if HasRightSuccessor(t, c) then StepResult(In, RightSuccessor(c), 1) else StepResult(Post, c, 0)
    case Post =>
      PredecessorIsNode(t, c);
      StepResult(if IsLeftSuccessor(t, c) then In else Post, Predecessor(c), -1)
  }

  function Next(t: Tree, e: Event): Event
    requires Steppable(t, e)
  {
    var r := TraverseStepCorrected(t, e.0, e.1);
    (r.v, r.c)
  }

  /** Each call of s is followed by the one a traversal step leads to. */
  ghost predicate FollowsSteps(t: Tree, s: seq<Event>) {
    forall i :: 0 <= i < |s| - 1 ==> Steppable(t, s[i]) && Next(t, s[i]) == s[i + 1]
  }

  lemma FollowsStepsConcat(t: Tree, a: seq<Event>, b: seq<Event>)
    requires |a| > 0 && |b| > 0
    requires FollowsSteps(t, a) && FollowsSteps(t, b)
    requires Steppable(t, a[|a| - 1]) && Next(t, a[|a| - 1]) == b[0]
    ensures FollowsSteps(t, a + b)
  {
    forall i | 0 <= i < |a + b| - 1
      ensures Steppable(t, (a + b)[i]) && Next(t, (a + b)[i]) == (a + b)[i + 1]
    {
      if i < |a| - 1 {
      } else if i == |a| - 1 {
      } else {
        assert (a + b)[i] == b[i - |a|];
      }
    }
  }

  /**
   * The iterative steps reproduce the recursive traversal: starting from the
   * pre visit of a node, repeated steps make exactly its calls, in order.
   */
  lemma {:induction false} TraverseStepFollowsTraversal(t: Tree, base: Path)
    requires Sub(t, base).Node?
    ensures FollowsSteps(t, TraverseNonempty(Sub(t, base), base))
    decreases Sub(t, base)
  {
    var s := Sub(t, base);
    var bl, br := LeftSuccessor(base), RightSuccessor(base);
    SubSnoc(t, base, Left);
    SubSnoc(t, base, Right);
    var l := if s.left.Node? then TraverseNonempty(s.left, bl) else [];
    var r := if s.right.Node? then TraverseNonempty(s.right, br) else [];
    if s.left.Node? {
      TraverseStepFollowsTraversal(t, bl);
    }
    if s.right.Node? {
      TraverseStepFollowsTraversal(t, br);
    }
    FollowsIntoLeft(t, base, l);
    FollowsIntoRight(t, base, r);
    FollowsStepsOverlap(t, [(Pre, base)] + l, (In, base), r + [(Post, base)]);
    ConcatAssoc([(Pre, base)] + l + [(In, base)], r, [(Post, base)]);
  }

  /** Two step-following runs that share their meeting call join into one. */
  lemma FollowsStepsOverlap(t: Tree, x: seq<Event>, e: Event, y: seq<Event>)
    requires FollowsSteps(t, x + [e]) && FollowsSteps(t, [e] + y)
    ensures FollowsSteps(t, x + [e] + y)
  {
    var w, u, v := x + [e] + y, x + [e], [e] + y;
    forall i | 0 <= i < |w| - 1
      ensures Steppable(t, w[i]) && Next(t, w[i]) == w[i + 1]
    {
      if i < |x| {
        assert w[i] == u[i] && w[i + 1] == u[i + 1];
      } else {
        assert w[i] == v[i - |x|] && w[i + 1] == v[i - |x| + 1];
      }
    }
  }

  lemma ConcatAssoc<E>(x: seq<E>, y: seq<E>, z: seq<E>)
    ensures x + y + z == x + (y + z)
  {
  }

  /** From the pre visit of a node the steps run through its left subtree back to its in visit. */
  lemma FollowsIntoLeft(t: Tree, base: Path, l: seq<Event>)
    requires Sub(t, base).Node?
    requires Sub(t, base).left.Node? ==> l == TraverseNonempty(Sub(t, base).left, LeftSuccessor(base)) && FollowsSteps(t, l)
    requires Sub(t, base).left.Empty? ==> l == []
    ensures FollowsSteps(t, [(Pre, base)] + l + [(In, base)])
  {
    var a, bl := [(Pre, base)], LeftSuccessor(base);
    SubSnoc(t, base, Left);
    if Sub(t, base).left.Node? {
      FollowsStepsConcat(t, a, l);
      assert Predecessor(bl) == base;
      FollowsStepsConcat(t, a + l, [(In, base)]);
    } else {
      FollowsStepsConcat(t, a, [(In, base)]);
      assert a + l == a;
    }
  }

  /** From the in visit of a node the steps run through its right subtree to its post visit. */
  lemma FollowsIntoRight(t: Tree, base: Path, r: seq<Event>)
    requires Sub(t, base).Node?
    requires Sub(t, base).right.Node? ==> r == TraverseNonempty(Sub(t, base).right, RightSuccessor(base)) && FollowsSteps(t, r)
    requires Sub(t, base).right.Empty? ==> r == []
    ensures FollowsSteps(t, [(In, base)] + (r + [(Post, base)]))
  {
    var br := RightSuccessor(base);
    SubSnoc(t, base, Right);
    if Sub(t, base).right.Node? {
      assert Predecessor(br) == base;
      FollowsStepsConcat(t, r, [(Post, base)]);
      FollowsStepsConcat(t, [(In, base)], r + [(Post, base)]);
    } else {
      assert r + [(Post, base)] == [(Post, base)];
      FollowsStepsConcat(t, [(In, base)], [(Post, base)]);
    }
  }


  /** Facts about the traversal tr from root that the iterative algorithms share. */
  lemma TraversalFacts(t: Tree, root: Path, tr: seq<Event>)
    requires Sub(t, root).Node? && tr == TraverseNonempty(Sub(t, root), root)
    ensures FollowsSteps(t, tr)
    ensures forall k :: 0 <= k < |tr| - 1 ==> tr[k] != (Post, root)
    ensures forall k :: 0 <= k < |tr| ==> |tr[k].1| >= |root|
  {
    TraverseStepFollowsTraversal(t, root);
    TraverseNonemptyEndsOnce(Sub(t, root), root);
    TraverseNonemptyStaysBelow(Sub(t, root), root);
    forall k | 0 <= k < |tr| - 1
      ensures tr[k] != (Post, root)
    {
      assert tr[k] == tr[..|tr| - 1][k];
    }
    forall k | 0 <= k < |tr|
      ensures |tr[k].1| >= |root|
    {
      assert tr[k] in tr;
    }
  }

  /**
   * One step of the iterative traversal from the k-th call leads to the
   * next call, stays below root, and reaches the post visit of root only at
   * the last call.
   */
  lemma StepOfTraversal(t: Tree, root: Path, tr: seq<Event>, k: nat)
    requires Sub(t, root).Node? && tr == TraverseNonempty(Sub(t, root), root)
    requires k < |tr| - 1
    ensures Steppable(t, tr[k]) && Next(t, tr[k]) == tr[k + 1]
    ensures |tr[k + 1].1| >= |root|
    ensures tr[k + 1] == (Post, root) <==> k + 1 == |tr| - 1
    ensures k + 1 == |tr| - 1 ==> tr[..k + 2] == tr
  {
    TraversalFacts(t, root, tr);
  }

  /** Counts the pre visits of an iterative traversal from root. */
  method Weight(t: Tree, root: Path) returns (n: nat)
    ensures n == WeightRecursive(Sub(t, root))
  {
    if Sub(t, root).Empty? {
      return 0;
    }
    ghost var tr := TraverseNonempty(Sub(t, root), root);
    var v, c := Pre, root;
    n := 1;
    ghost var k := 0;
    while true
      invariant 0 <= k < |tr| - 1
      invariant tr[k] == (v, c)
      invariant n == CountPre(tr[..k + 1])
      decreases |tr| - k
    {
      StepOfTraversal(t, root, tr, k);
      WeightStep(t, root, tr, k);
      var step := TraverseStepCorrected(t, v, c);
      v, c := step.v, step.c;
      k := k + 1;
      if v == Pre {
        n := n + 1;
      }
      if c == root && v == Post {
        return n;
      }
    }
  }

  /** One step of the counting loop: the count of the longer prefix, and the weight at the end. */
  lemma WeightStep(t: Tree, root: Path, tr: seq<Event>, k: nat)
    requires Sub(t, root).Node? && tr == TraverseNonempty(Sub(t, root), root)
    requires k + 1 < |tr| && (k + 1 == |tr| - 1 ==> tr[..k + 2] == tr)
    ensures CountPre(tr[..k + 2]) == CountPre(tr[..k + 1]) + (if tr[k + 1].0 == Pre then 1 else 0)
    ensures k + 1 == |tr| - 1 ==> CountPre(tr[..k + 2]) == WeightRecursive(Sub(t, root))
  {
    PrefixCountPre(tr, k + 1);
    TraverseNonemptyPreCount(Sub(t, root), root);
  }

  /** The largest level reached by an iterative traversal from root. */
  method Height(t: Tree, root: Path) returns (n: nat)
    ensures n == HeightRecursive(Sub(t, root))
  {
    if Sub(t, root).Empty? {
      return 0;
    }
    ghost var tr := TraverseNonempty(Sub(t, root), root);
    var v, c := Pre, root;
    n := 1;
    var m: nat := 1;
    ghost var k := 0;
    while true
      invariant 0 <= k < |tr| - 1
      invariant tr[k] == (v, c)
      invariant m == |c| - |root| + 1
      invariant n == MaxLevel(tr[..k + 1]) - |root|
      decreases |tr| - k
    {
      StepOfTraversal(t, root, tr, k);
      HeightStep(t, root, tr, k);
      var step := TraverseStepCorrected(t, v, c);
      v, c := step.v, step.c;
      m := m - 1 + (step.delta + 1);
      n := Max(n, m);
      k := k + 1;
      if c == root && v == Post {
        return n;
      }
    }
  }

  /** One step of the height loop: the deepest level of the longer prefix, and the height at the end. */
  lemma HeightStep(t: Tree, root: Path, tr: seq<Event>, k: nat)
    requires Sub(t, root).Node? && tr == TraverseNonempty(Sub(t, root), root)
    requires k + 1 < |tr| && (k + 1 == |tr| - 1 ==> tr[..k + 2] == tr)
    ensures MaxLevel(tr[..k + 2]) == Max(MaxLevel(tr[..k + 1]), |tr[k + 1].1| + 1)
    ensures k + 1 == |tr| - 1 ==> MaxLevel(tr[..k + 2]) == |root| + HeightRecursive(Sub(t, root))
  {
    PrefixMaxLevel(tr, k + 1);
    TraverseNonemptyMaxLevel(Sub(t, root), root);
  }

  /** Whether y is a node of the tree rooted at x, found by an iterative traversal from x. */
  method Reachable(t: Tree, x: Path, y: Path) returns (r: bool)
    ensures r <==> Sub(t, x).Node? && |x| <= |y| && y[..|x|] == x && Sub(t, y).Node?
  {
    if Sub(t, x).Empty? {
      return false;
    }
    ghost var n := 3 * WeightRecursive(Sub(t, x));
    var v, c := Pre, x;
    ghost var k := 0;
    while true
      invariant 0 <= k < n - 1
      invariant Walk(t, (Pre, x), k) == (v, c)
      invariant !WalkedThrough(t, x, k, y)
      decreases n - k
    {
      if c == y {
        WalkStaysBelow(t, x, k);
        return true;
      }
      WalkAdvance(t, x, y, k, v, c);
      var step := TraverseStepCorrected(t, v, c);
      v, c := step.v, step.c;
      k := k + 1;
      if c == x && v == Post {
        break;
      }
    }
    WalkMissesUnreachable(t, x, y, k);
    return false;
  }

  /** The call reached by k steps from the pre visit of x (steps stop where none is possible). */
  ghost function Walk(t: Tree, e: Event, k: nat): Event {
    if k == 0 then e
    else
      var p := Walk(t, e, k - 1);
      if Steppable(t, p) then Next(t, p) else p
  }

  /** One of the first k calls of the walk from x has coordinate y. */
  ghost predicate WalkedThrough(t: Tree, x: Path, k: nat, y: Path) {
    k > 0 && (Walk(t, (Pre, x), k - 1).1 == y || WalkedThrough(t, x, k - 1, y))
  }

  /** The walk of steps from the pre visit of x makes the calls of the recursive traversal from x. */
  lemma {:induction false} WalkIsTraversal(t: Tree, x: Path, k: nat)
    requires Sub(t, x).Node? && k < |TraverseNonempty(Sub(t, x), x)|
    ensures Walk(t, (Pre, x), k) == TraverseNonempty(Sub(t, x), x)[k]
  {
    if k > 0 {
      WalkIsTraversal(t, x, k - 1);
      TraverseStepFollowsTraversal(t, x);
    }
  }

  /** One step of the walk from x, which reaches the post visit of x only at the last call. */
  lemma WalkStep(t: Tree, x: Path, k: nat)
    requires Sub(t, x).Node? && k + 1 < 3 * WeightRecursive(Sub(t, x))
    ensures Steppable(t, Walk(t, (Pre, x), k))
    ensures Walk(t, (Pre, x), k + 1) == Next(t, Walk(t, (Pre, x), k))
    ensures Walk(t, (Pre, x), k + 1) == (Post, x) <==> k + 1 == 3 * WeightRecursive(Sub(t, x)) - 1
  {
    var tr := TraverseNonempty(Sub(t, x), x);
    WalkIsTraversal(t, x, k);
    WalkIsTraversal(t, x, k + 1);
    StepOfTraversal(t, x, tr, k);
  }

  /** The walk from x, not yet at y, takes a step that does not meet y either. */
  lemma WalkAdvance(t: Tree, x: Path, y: Path, k: nat, v: Visit, c: Path)
    requires Sub(t, x).Node? && k + 1 < 3 * WeightRecursive(Sub(t, x))
    requires Walk(t, (Pre, x), k) == (v, c) && !WalkedThrough(t, x, k, y) && c != y
    ensures Steppable(t, (v, c))
    ensures var s := TraverseStepCorrected(t, v, c);
      && Walk(t, (Pre, x), k + 1) == (s.v, s.c)
      && !WalkedThrough(t, x, k + 1, y)
      && ((s.v, s.c) != (Post, x) ==> k + 2 < 3 * WeightRecursive(Sub(t, x)))
  {
    WalkStep(t, x, k);
  }

  /** Every call of the walk from x is at a node below x. */
  lemma WalkStaysBelow(t: Tree, x: Path, k: nat)
    requires Sub(t, x).Node? && k < 3 * WeightRecursive(Sub(t, x))
    ensures var c := Walk(t, (Pre, x), k).1; |x| <= |c| && c[..|x|] == x && Sub(t, c).Node?
  {
    var tr := TraverseNonempty(Sub(t, x), x);
    WalkIsTraversal(t, x, k);
    TraverseNonemptyStaysBelow(Sub(t, x), x);
    assert tr[k] in tr;
    BelowIff(tr[k].1, x, t);
  }

  /** A coordinate the walk from x does not meet before it returns to the post visit of x is not a node below x. */
  lemma WalkMissesUnreachable(t: Tree, x: Path, y: Path, k: nat)
    requires Sub(t, x).Node? && k < 3 * WeightRecursive(Sub(t, x))
    requires Walk(t, (Pre, x), k) == (Post, x) && !WalkedThrough(t, x, k, y)
    ensures !(|x| <= |y| && y[..|x|] == x && Sub(t, y).Node?)
  {
    WalkIsTraversal(t, x, k);
    PostOnlyAtEnd(Sub(t, x), x, k);
    VisitedBeforeEnd(t, x, y, k);
    BelowIff(y, x, t);
  }

  /** The traversal from base makes the post visit of base at its last call only. */
  lemma PostOnlyAtEnd(s: Tree, base: Path, k: nat)
    requires s.Node? && k < |TraverseNonempty(s, base)| && TraverseNonempty(s, base)[k] == (Post, base)
    ensures k == |TraverseNonempty(s, base)| - 1
  {
    var tr := TraverseNonempty(s, base);
    TraverseNonemptyEndsOnce(s, base);
    NotInPrefix(tr, |tr| - 1, (Post, base));
  }

  lemma NotInPrefix<E>(s: seq<E>, n: nat, e: E)
    requires n <= |s| && e !in s[..n]
    ensures forall i :: 0 <= i < n ==> s[i] != e
  {
    forall i | 0 <= i < n
      ensures s[i] != e
    {
      assert s[i] == s[..n][i];
    }
  }

  /** Every node below x is met by the walk from x before its last call. */
  lemma VisitedBeforeEnd(t: Tree, x: Path, y: Path, k: nat)
    requires Sub(t, x).Node? && k == 3 * WeightRecursive(Sub(t, x)) - 1
    ensures Below(y, x, Sub(t, x)) ==> WalkedThrough(t, x, k, y)
  {
    if Below(y, x, Sub(t, x)) {
      var tr := TraverseNonempty(Sub(t, x), x);
      BelowIsVisited(Sub(t, x), x, y);
      var i := IndexOf(tr, (Pre, y));
      WalkIsTraversal(t, x, i);
      WalkedThroughAt(t, x, k, y, i);
    }
  }

  lemma {:induction false} WalkedThroughAt(t: Tree, x: Path, k: nat, y: Path, i: nat)
    requires i < k && Walk(t, (Pre, x), i).1 == y
    ensures WalkedThrough(t, x, k, y)
    decreases k
  {
    if i < k - 1 {
      WalkedThroughAt(t, x, k - 1, y, i);
    }
  }

  /** The traversal from x makes the pre visit of every node below x. */
  lemma BelowIsVisited(s: Tree, x: Path, y: Path)
    requires s.Node? && Below(y, x, s)
    ensures (Pre, y) in TraverseNonempty(s, x)
  {
    var q := y[|x|..];
    assert y == x + q;
    TraverseNonemptyVisits(s, x, Pre, q);
  }

  lemma IndexOf<E>(s: seq<E>, e: E) returns (i: nat)
    requires e in s
    ensures i < |s| && s[i] == e
  {
    i :| 0 <= i < |s| && s[i] == e;
  }

  /** The calls an iterative traversal from root makes: the same as the recursive traversal. */
  method Traverse(t: Tree, root: Path) returns (calls: seq<Event>)
    ensures Sub(t, root).Empty? ==> calls == []
    ensures Sub(t, root).Node? ==> calls == TraverseNonempty(Sub(t, root), root)
  {
    if Sub(t, root).Empty? {
      return [];
    }
    ghost var tr := TraverseNonempty(Sub(t, root), root);
    var v, c := Pre, root;
    calls := [(Pre, root)];
    ghost var k := 0;
    while true
      invariant 0 <= k < |tr| - 1
      invariant tr[k] == (v, c)
      invariant calls == tr[..k + 1]
      decreases |tr| - k
    {
      StepOfTraversal(t, root, tr, k);
      var step := TraverseStepCorrected(t, v, c);
      v, c := step.v, step.c;
      calls := calls + [(v, c)];
      k := k + 1;
      PrefixSnoc(tr, k);
      if c == root && v == Post {
        return calls;
      }
    }
  }

  /**
   * With the as-written step, the walk over a root whose right child has a
   * left child never makes a pre visit after the first one and misses the
   * node [Right, Left]: the iterative weight would report 1 for a tree of
   * weight 3.
   */
  lemma TraverseStepAsWrittenSkipsNodes()
    ensures var t := Node(Empty, Node(Node(Empty, Empty), Empty));
      && WeightRecursive(t) == 3
      && [Right, Left] in Paths(t)
      && TraverseStepAsWritten(t, Pre, []) == StepResult(In, [], 0)
      && TraverseStepAsWritten(t, In, []) == StepResult(In, [Right], 1)
      && TraverseStepAsWritten(t, In, [Right]) == StepResult(Post, [Right], 0)
      && TraverseStepAsWritten(t, Post, [Right]) == StepResult(Post, [], -1)
      && TraverseStepCorrected(t, In, []) == StepResult(Pre, [Right], 1)
  {
    var t := Node(Empty, Node(Node(Empty, Empty), Empty));
    assert [Right, Left] == [Right] + [Left];
    assert [Left] == [Left] + [];
    assert [Left] in Prepend(Paths(Node(Empty, Empty)), Left);
    assert [Right, Left] in Prepend(Paths(t.right), Right);
    assert [Right][..0] == [];
  }
}
