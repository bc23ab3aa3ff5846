# Elements of Programming, modelled in Dafny

This project models the generic algorithms of a C++ rendering of
Stepanov and McJones' *Elements of Programming*. The algorithms are written
against abstract operations: an associative operation, a transformation, a
predicate, a strict weak ordering and a bifurcate coordinate. In the model each
abstract operation is a Dafny function value (`op`, `f`, `p`, `r`). Each concept
axiom is a predicate over that value, such as `Associative(op)` or
`StrictWeakOrdering(r)`. Every algorithm is a function or a loop method whose
contract, or a lemma about it, is stated against an independent reference
definition. The small relation builders of `relations.hpp` are described by
what they mean for the ordering: "at most", "not below", "above".

The reference definitions are:

- `power` and its refinements are compared with the left-associated fold `PowerLeftAssociated`.
- The orbit algorithms are compared with the iterate `Iter(f, x, n)` and a rho-shaped or terminating orbit shape, carried by ghost witnesses.
- The bifurcate traversals are compared with the recursive traversal and the set of node paths.
- The selection networks are compared with rank counting and with a stable order on (value, position) items.
- The remainder and gcd loops are compared with Euclidean `%` and the greatest-common-divisor predicate.
- The sequence algorithms (a sequence plus integer positions standing for iterators) are compared with "first position satisfying p" and with counting.

Modules follow the source headers:

- `Integer` covers `number.hpp`.
- `AssociativeOp` covers `associative_operations.hpp`.
- `Fib` covers `fibonacci.hpp`.
- `Orbits` holds the iteration facts; `OrbitTrf` holds the `orbit_transformations.hpp` algorithms.
- `BifurcateCoordinates` covers `bifurcate_coordinates.hpp`.
- `Relations` covers `relations.hpp`.
- `Ordering` covers `linear_ordering.hpp`.
- `Remainder` and `GCD` cover `division.hpp`.
- `Algorithms` covers `algorithms.hpp`.
- `Preconditions` covers `preconditions.hpp`.
- `Arith` and `Counting` are shared helper lemmas.

Integers are unbounded everywhere except in `Preconditions`. There, the
32-bit sum is modelled as a two's-complement wrap, which is what
`check_int_addition` relies on (C++ leaves signed overflow undefined).

## Model

| member | source | states |
|---|---|---|
| Integer.IsOdd | src/number.hpp:15-20 | n is odd exactly when it is twice its floor half plus one |
| Integer.IsEven | src/number.hpp:22-27 | n is even exactly when it is twice its floor half |
| Integer.DivideBy2 | src/number.hpp:30-35 | the shift right is the floor of n/2 (rounds towards minus infinity) |
| Integer.MultiplyBy2 | src/number.hpp:37-42 | the doubled value is even and halves back to n |
| Integer.HalfNonnegative | src/number.hpp:44-49 | for n >= 0 the half is in [0, n], strictly below n when n > 0, and n is twice it or twice it plus one |
| Integer.HalfAndParity | src/number.hpp:15-49 | n is twice its half plus its parity bit; on n >= 0 both halvings agree |
| Integer.SignTrichotomy | src/number.hpp:52-78 | exactly one of positive, negative, zero holds; one is positive and odd; zero is even |
| AssociativeOp.PowerAdd | src/associative_operations.hpp:27-34 | under an associative op, a^(m+n) = a^m op a^n |
| AssociativeOp.PowerOfSquare | src/associative_operations.hpp:51-62 | (a op a)^n = a^(2n), the squaring every halving loop relies on |
| AssociativeOp.AccumulateStep | src/associative_operations.hpp:91-103 | one round (fold a into r when n is odd, square a, halve n) keeps r op a^n unchanged |
| AssociativeOp.HalvePower | src/associative_operations.hpp:51-62 | a^n is (a op a)^(n/2), times a when n is odd |
| AssociativeOp.RightEqualsLeft | src/associative_operations.hpp:37-44 | the right-associated power equals the left-associated one under associativity |
| AssociativeOp.Power0 | src/associative_operations.hpp:51-62 | for n > 0 the halving recursion computes a^n |
| AssociativeOp.Power1 | src/associative_operations.hpp:70-83 | the single-recursive-call variant computes a^n for n > 0 |
| AssociativeOp.PowerAccumulate0 | src/associative_operations.hpp:91-103 | returns r op a^n, and r itself when n = 0 |
| AssociativeOp.PowerAccumulate1 | src/associative_operations.hpp:110-123 | the variant stopping at n = 1 returns r op a^n |
| AssociativeOp.PowerAccumulate2 | src/associative_operations.hpp:131-144 | the variant testing n = 1 inside the odd case returns r op a^n |
| AssociativeOp.PowerAccumulate3 | src/associative_operations.hpp:153-169 | the strictly tail-recursive variant returns r op a^n |
| AssociativeOp.PowerAccumulate4 | src/associative_operations.hpp:177-194 | the loop form returns r op a^n for every n >= 0 |
| AssociativeOp.PowerAccumulatePositive0 | src/associative_operations.hpp:198-214 | for n > 0 the loop without the zero test returns r op a^n |
| AssociativeOp.PowerAccumulate5 | src/associative_operations.hpp:218-225 | returns r when n = 0 and r op a^n otherwise |
| AssociativeOp.Power2 | src/associative_operations.hpp:229-235 | a op a^(n-1) is a^n for n > 0 |
| AssociativeOp.Power3 | src/associative_operations.hpp:243-257 | squaring away the trailing zero bits first still gives a^n |
| AssociativeOp.PowerAccumulatePositive | src/associative_operations.hpp:261-275 | for n > 0 returns r op a^n using at most 2 floor(log2 n) + 1 applications of op |
| AssociativeOp.PowerAccumulate | src/associative_operations.hpp:279-285 | returns r unchanged for n = 0 and r op a^n for n > 0 |
| AssociativeOp.Power | src/associative_operations.hpp:289-301 | for n > 0 returns a^n with at most 2 floor(log2 n) applications of op; for n = 1 returns a with none |
| AssociativeOp.PowerWithIdentity | src/associative_operations.hpp:305-311 | returns the identity for n = 0 and a^n otherwise |
| Fib.MatrixMultiplyAssociative | src/fibonacci.hpp:13-21 | the pair product is associative, so `power` may be applied to it |
| Fib.PowerOfUnitPair | src/fibonacci.hpp:13-33 | (1, 0)^n is (F(n), F(n-1)) for n > 0 |
| Fib.AdditionLaw | src/fibonacci.hpp:13-21 | the product of (F(a), F(a-1)) and (F(b), F(b-1)) is (F(a+b), F(a+b-1)) |
| Fib.Fibonacci | src/fibonacci.hpp:24-33 | returns the n-th Fibonacci number for every n >= 0, including 0 and 1 |
| Orbits.IterAdd | src/orbit_transformations.hpp:25-38 | f^(m+n)(x) = f^n(f^m(x)) |
| Orbits.IterEqualIff | src/orbit_transformations.hpp:78-93 | two points of a rho-shaped orbit coincide exactly when their indices fold to the same position of the rho |
| Orbits.FirstMeeting | src/orbit_transformations.hpp:78-93 | the slow and fast walkers f^k(x) and f^(2k+1)(x) first meet at the collision index |
| Orbits.CollisionOnCycle | src/orbit_transformations.hpp:78-93 | the collision point lies on a cycle of exactly c points |
| Orbits.ShiftedOrbitMeetsAtHandle | src/orbit_transformations.hpp:131-137 | f^j(x) meets f^j of the point after the collision point exactly from the handle length on |
| Orbits.IntersectingOrbitsShareCycle | src/orbit_transformations.hpp:183-201 | two rho-shaped orbits that share a point reach one collision point from the other within one cycle |
| Orbits.ShapesExclusive | src/orbit_transformations.hpp:44-73 | an orbit cannot both terminate and be cyclic |
| OrbitTrf.Distance | src/orbit_transformations.hpp:25-38 | when y is on the orbit of x, returns the least n with f^n(x) = y |
| OrbitTrf.CollisionPointNonterminatingOrbit | src/orbit_transformations.hpp:78-93 | returns the point at the collision index, which lies in [h, h + c) |
| OrbitTrf.CollisionPoint | src/orbit_transformations.hpp:44-63 | returns the terminal point of a terminating orbit or the collision point of a cyclic one; p holds of it exactly when the orbit is cyclic |
| OrbitTrf.Terminating | src/orbit_transformations.hpp:67-73 | true exactly when the orbit terminates |
| OrbitTrf.CircularNonterminatingOrbit | src/orbit_transformations.hpp:96-102 | true exactly when the handle is empty |
| OrbitTrf.Circular | src/orbit_transformations.hpp:106-113 | true exactly when the orbit is cyclic with an empty handle |
| OrbitTrf.ConvergentPoint | src/orbit_transformations.hpp:117-128 | returns f^m(x0) = f^m(x1) for the least such m |
| OrbitTrf.ConnectionPointNonterminatingOrbit | src/orbit_transformations.hpp:131-137 | returns f^h(x), the first point of the cycle |
| OrbitTrf.ConnectionPoint | src/orbit_transformations.hpp:141-149 | returns the terminal point or the first point of the cycle |
| OrbitTrf.OrbitStructureNonterminatingOrbit | src/orbit_transformations.hpp:215-224 | returns (h, c - 1, f^h(x)) |
| OrbitTrf.OrbitStructure | src/orbit_transformations.hpp:226-247 | returns (t, 0, terminal point) for an orbit of t + 1 points ending at step t, and (h, c - 1, connection point) for a cyclic one |
| OrbitTrf.SearchCycle | src/orbit_transformations.hpp:183-201 | walking once round the cycle of y finds x exactly when x is on that cycle |
| OrbitTrf.IntersectNonterminatingOrbit | src/orbit_transformations.hpp:183-201 | true exactly when the two orbits share a point |
| OrbitTrf.Intersect | src/orbit_transformations.hpp:157-180 | true exactly when both orbits are cyclic and share a point; false whenever either terminates |
| OrbitTrf.IntersectLinksCycles | src/orbit_transformations.hpp:183-201 | the outcome of the cycle search is the answer to whether the orbits intersect |
| BifurcateCoordinates.IsLeftSuccessor | src/bifurcate_coordinates.hpp:21-28 | a coordinate is a left successor exactly when its last move is left |
| BifurcateCoordinates.IsRightSuccessor | src/bifurcate_coordinates.hpp:31-38 | a coordinate is a right successor exactly when its last move is right |
| BifurcateCoordinates.SuccessorKinds | src/bifurcate_coordinates.hpp:21-38 | every non-root node is exactly one of a left and a right successor |
| BifurcateCoordinates.WeightRecursive | src/bifurcate_coordinates.hpp:50-73 | the weight is 0 exactly for the empty coordinate |
| BifurcateCoordinates.WeightIsNodeCount | src/bifurcate_coordinates.hpp:50-73 | the weight is the number of coordinates that designate nodes |
| BifurcateCoordinates.HeightRecursive | src/bifurcate_coordinates.hpp:76-99 | for the corrected height_recursive, which recurses into itself: the height is 0 exactly for the empty coordinate and never exceeds the weight |
| BifurcateCoordinates.HeightIsDeepestPath | src/bifurcate_coordinates.hpp:76-99 | for the corrected height_recursive, every node lies less than the height deep, and some node lies exactly height - 1 deep |
| BifurcateCoordinates.HeightRecursiveAsWritten | src/bifurcate_coordinates.hpp:76-99 | the code as written (recursing into the weight) lies between the height and the weight |
| BifurcateCoordinates.HeightRecursiveAsWrittenOvercounts | src/bifurcate_coordinates.hpp:92-96 | on a tree of height 3 the code as written answers 4 |
| BifurcateCoordinates.TraverseNonempty | src/bifurcate_coordinates.hpp:103-126 | 3 x weight calls, opening with (pre, c) and closing with (post, c) |
| BifurcateCoordinates.TraverseNonemptyStaysBelow | src/bifurcate_coordinates.hpp:103-126 | every call is at a node of the traversed subtree |
| BifurcateCoordinates.TraverseNonemptyVisits | src/bifurcate_coordinates.hpp:103-126 | every node of the subtree receives pre, in and post calls |
| BifurcateCoordinates.TraverseNonemptyNoRepeats | src/bifurcate_coordinates.hpp:103-126 | no (visit, coordinate) call occurs twice |
| BifurcateCoordinates.TraverseNonemptyVisitsOnce | src/bifurcate_coordinates.hpp:103-126 | every node of the subtree receives each of pre, in and post at exactly one position of the call sequence |
| BifurcateCoordinates.TraverseNonemptyPreCount | src/bifurcate_coordinates.hpp:103-126 | the pre calls number exactly the weight, so each node gets exactly one |
| BifurcateCoordinates.TraverseNonemptyMaxLevel | src/bifurcate_coordinates.hpp:103-126 | the deepest call is height - 1 levels below the start |
| BifurcateCoordinates.TraverseStepCorrected | src/bifurcate_coordinates.hpp:132-164 | the step stays on nodes, and its result is the change in depth (-1, 0 or +1); it is +1 exactly when the new visit is pre |
| BifurcateCoordinates.TraverseStepAsWritten | src/bifurcate_coordinates.hpp:147-152 | the code as written moves to the same coordinate with the same change in depth as the corrected step; its visit differs exactly on the in visit with a right successor, where it stays in |
| BifurcateCoordinates.TraverseStepFollowsTraversal | src/bifurcate_coordinates.hpp:132-164 | repeated corrected steps from (pre, c) make exactly the calls of the recursive traversal, in order |
| BifurcateCoordinates.TraverseStepAsWrittenSkipsNodes | src/bifurcate_coordinates.hpp:147-152 | with the code as written, the walk over a three-node tree never visits the node [right, left] |
| BifurcateCoordinates.Weight | src/bifurcate_coordinates.hpp:192-214 | the iterative weight, run with the corrected step, equals the recursive weight |
| BifurcateCoordinates.Height | src/bifurcate_coordinates.hpp:217-237 | the iterative height, run with the corrected step, equals the recursive height |
| BifurcateCoordinates.Reachable | src/bifurcate_coordinates.hpp:168-188 | run with the corrected step, true exactly when y is a node of the subtree rooted at x |
| BifurcateCoordinates.WalkIsTraversal | src/bifurcate_coordinates.hpp:168-188 | the k-th coordinate the reachability loop holds is the k-th call of the recursive traversal from x |
| BifurcateCoordinates.WalkStep | src/bifurcate_coordinates.hpp:168-188 | each step of the loop is possible, and the loop comes back to the post visit of x only at the last call |
| BifurcateCoordinates.WalkStaysBelow | src/bifurcate_coordinates.hpp:168-188 | every coordinate the loop holds extends x and designates a node |
| BifurcateCoordinates.WalkMissesUnreachable | src/bifurcate_coordinates.hpp:168-188 | a coordinate the loop never holds before returning to x is not a node below x |
| BifurcateCoordinates.Traverse | src/bifurcate_coordinates.hpp:241-258 | run with the corrected step, the iterative traversal makes the same calls as the recursive one, and none for an empty coordinate |
| Relations.NegativeTransitive | src/relations.hpp:88-116 | under a strict weak ordering, a below c puts every b above a or below c |
| Relations.CompareStrictOrReflexive | src/relations.hpp:88-116 | the strict form is r(a, b); the reflexive form also holds between equivalents |
| Relations.ComplementOfConverse | src/relations.hpp:120-137 | for a strict weak ordering the result is the "at most" relation of r: it relates a to b exactly when a is below or equivalent to b; it is reflexive whenever r is irreflexive |
| Relations.ComplementOfConverseIsTotalPreorder | src/relations.hpp:120-137 | for a strict weak ordering the result is reflexive, transitive and total |
| Relations.LowerBoundPredicate | src/relations.hpp:140-158 | for a strict weak ordering, holds of x exactly when x is above or equivalent to a; it holds of a itself whenever r is irreflexive |
| Relations.UpperBoundPredicate | src/relations.hpp:161-179 | under a strict weak ordering it never holds of a, and wherever it holds the lower-bound predicate of a holds too |
| Relations.BoundPredicatesPartition | src/relations.hpp:140-179 | on an increasing sequence both predicates are false-then-true, and the upper one implies the lower one |
| Ordering.Select02Selects | src/linear_ordering.hpp:57-63 | returns a minimum of the two, and a when they are equivalent |
| Ordering.Select12Selects | src/linear_ordering.hpp:66-72 | returns a maximum of the two, and b when they are equivalent |
| Ordering.Select03Selects | src/linear_ordering.hpp:75-80 | returns a minimum of three, and the first in argument order among the minimal ones |
| Ordering.Select23Selects | src/linear_ordering.hpp:83-88 | returns a maximum of three, and the last in argument order among the maximal ones |
| Ordering.Select13AbSelects | src/linear_ordering.hpp:92-98 | given a not above b, returns a median of three |
| Ordering.Select13Selects | src/linear_ordering.hpp:101-107 | returns a median of three with no precondition on the order of the arguments |
| Ordering.Select14AbCdSelects | src/linear_ordering.hpp:111-117 | given a not above b and c not above d, returns the second smallest of four |
| Ordering.Select14AbSelects | src/linear_ordering.hpp:119-125 | given a not above b, returns the second smallest of four |
| Ordering.Select14Selects | src/linear_ordering.hpp:127-133 | returns the second smallest of four |
| Ordering.Select14IsStable | src/linear_ordering.hpp:127-133 | the untemplated second-of-four returns the argument the stable selector picks when a, b, c, d carry positions 0 to 3 |
| Ordering.BeforeIsStrictTotalOrder | src/linear_ordering.hpp:162-179 | ordering by value and then by position is a strict total order on items at distinct positions |
| Ordering.CompareIsBefore | src/linear_ordering.hpp:23-51 | the strict-or-reflexive comparison chosen by the position order is exactly the stable order |
| Ordering.StableSelect02Selects | src/linear_ordering.hpp:162-169 | returns the item ranked first in the stable order |
| Ordering.StableSelect12 | src/linear_ordering.hpp:172-179 | the corrected selector (strict exactly when `ia < ib`) returns one of its two arguments |
| Ordering.StableSelect12AsWritten | src/linear_ordering.hpp:172-179 | the selector as written (strict when `ia > ib`) returns one of its two arguments |
| Ordering.StableSelect12AsWrittenSelects | src/linear_ordering.hpp:172-179 | the selector as written still returns a largest of the two values; only the choice between equivalents is reversed |
| Ordering.StableSelect12Selects | src/linear_ordering.hpp:172-179 | the corrected selector returns the item ranked second in the stable order |
| Ordering.StableSelect12AsWrittenPicksFirst | src/linear_ordering.hpp:176 | with equal keys, the comparison as written returns the earlier item as the larger |
| Ordering.StableSelect14AbCdSelects | src/linear_ordering.hpp:182-189 | returns the item ranked second of four |
| Ordering.StableSelect14AbSelects | src/linear_ordering.hpp:191-198 | returns the item ranked second of four |
| Ordering.StableSelect14Selects | src/linear_ordering.hpp:200-207 | returns the item ranked second of four |
| Ordering.StableSelect25AbCdSelects | src/linear_ordering.hpp:211-219 | given the two ordered pairs, returns the item ranked third of five |
| Ordering.StableSelect25AbSelects | src/linear_ordering.hpp:222-230 | given a before b, returns the item ranked third of five |
| Ordering.StableSelect25Selects | src/linear_ordering.hpp:233-241 | the corrected selector returns the item ranked third of five |
| Ordering.Median5 | src/linear_ordering.hpp:244-250 | the median over the corrected select_2_5 returns one of its five arguments |
| Ordering.StableSelect25AsWritten | src/linear_ordering.hpp:233-241 | select_2_5 as written, which swaps the positions of c and d but not their values, returns the value of one of its five arguments |
| Ordering.Median5AsWritten | src/linear_ordering.hpp:244-250 | the median over select_2_5 as written returns one of its five arguments |
| Ordering.Median5AsWrittenIsMedian | src/linear_ordering.hpp:233-250 | the median as written is still a median: at most two of the five are below the result and at most two above it |
| Ordering.Median5IsMedian | src/linear_ordering.hpp:244-250 | for the corrected median, at most two of the five are below the result and at most two above it |
| Ordering.SelectorsKeepArgumentOrder | src/test/test_stability_order_select.cpp:54-148 | with all keys equivalent, the selectors return the argument in their own position: a, b, a, b, c, b and the median c, both for the median as written and for the corrected one |
| Ordering.Median5AsWrittenIsUnstable | src/linear_ordering.hpp:239 | on keys 3, 0, 1, 1, 2 the median as written returns c where the stable median is d |
| Remainder.SlowRemainder | src/division.hpp:19-30 | returns a mod b |
| Remainder.SlowQuotient | src/division.hpp:32-45 | returns the number n of subtractions with n b <= a < (n + 1) b, which is a div b |
| Remainder.RemainderRecursive | src/division.hpp:47-59 | returns a mod b for a >= b, and the negative a - b below b |
| Remainder.RemainderOfDoubled | src/division.hpp:47-59 | the remainder by 2b is the remainder by b, or exceeds it by b |
| Remainder.RemainderNonnegative | src/division.hpp:62-69 | returns a mod b for a >= 0, b > 0 |
| Remainder.LargestDoubling | src/division.hpp:72-81 | returns c = b 2^k with c <= a < 2c when b <= a |
| Remainder.RemainderNonnegativeIterative | src/division.hpp:84-101 | returns a mod b by halving the largest doubling |
| GCD.SubtractKeepsDivisors | src/division.hpp:108-128 | (a - b, b) and (a, b) have the same common divisors |
| GCD.RemainderKeepsDivisors | src/division.hpp:160-181 | (a mod b, b) and (a, b) have the same common divisors |
| GCD.GcdWithZero | src/division.hpp:131-157 | a > 0 is the greatest common divisor of a and 0 |
| GCD.SubtractiveGcdNonzero | src/division.hpp:108-128 | returns the greatest common divisor of two positive numbers |
| GCD.SubtractiveGcd | src/division.hpp:131-157 | returns the greatest common divisor when a, b >= 0 are not both 0 |
| GCD.FastSubtractiveGcd | src/division.hpp:160-181 | returns the greatest common divisor when a, b >= 0 are not both 0 |
| Algorithms.FirstSatisfyingUnique | src/algorithms.hpp:159-170 | the first position satisfying p (or the end) is unique |
| Algorithms.FindIf | src/algorithms.hpp:159-170 | returns the first position of [f, l) satisfying p, or l |
| Algorithms.FindIfUnguarded | src/algorithms.hpp:172-183 | when some element satisfies p, returns the same first position, before l |
| Algorithms.FindIfNot | src/algorithms.hpp:215-226 | returns the first position failing p, or l |
| Algorithms.FindIfNotUnguarded | src/algorithms.hpp:229-240 | when some element fails p, returns the first such position, before l |
| Algorithms.Find | src/algorithms.hpp:97-109 | returns the first position holding x, or l |
| Algorithms.FindNot | src/algorithms.hpp:129-141 | returns the first position not holding x, or l |
| Algorithms.FindIfN | src/algorithms.hpp:186-199 | returns (position, remaining) with position = f + n - remaining at the first hit; remaining is 0 exactly when there is no hit |
| Algorithms.FindIfNotN | src/algorithms.hpp:242-255 | as FindIfN for the first element failing p |
| Algorithms.FindN | src/algorithms.hpp:111-124 | as FindIfN for the first element equal to x |
| Algorithms.FindNotN | src/algorithms.hpp:143-156 | as FindIfN for the first element different from x |
| Algorithms.All | src/algorithms.hpp:258-266 | true exactly when every element satisfies p |
| Algorithms.NotAll | src/algorithms.hpp:279-286 | true exactly when some element fails p |
| Algorithms.None | src/algorithms.hpp:300-308 | true exactly when no element satisfies p |
| Algorithms.Some | src/algorithms.hpp:322-329 | true exactly when some element satisfies p |
| Algorithms.AllN | src/algorithms.hpp:268-276 | true exactly when every element of the counted range satisfies p |
| Algorithms.NotAllN | src/algorithms.hpp:289-297 | true exactly when some element of the counted range fails p |
| Algorithms.NoneN | src/algorithms.hpp:311-319 | true exactly when no element of the counted range satisfies p |
| Algorithms.SomeN | src/algorithms.hpp:332-340 | true exactly when some element of the counted range satisfies p |
| Algorithms.CountIfFrom | src/algorithms.hpp:343-358 | returns j plus the number of elements satisfying p |
| Algorithms.CountIf | src/algorithms.hpp:361-368 | returns the number of elements satisfying p, at most the length |
| Algorithms.CountIfN | src/algorithms.hpp:371-387 | returns the end of the counted range and j plus the number of its elements satisfying p |
| Algorithms.CountIfNotFrom | src/algorithms.hpp:400-415 | returns j plus the number of elements failing p |
| Algorithms.CountIfAndNotPartition | src/algorithms.hpp:343-415 | the counts of p and of not-p add up to the length of the range |
| Algorithms.FoldSplit | src/algorithms.hpp:485-501 | under an associative op the left fold splits at every inner position |
| Algorithms.ReduceNonempty | src/algorithms.hpp:485-501 | returns the left fold of fun over the non-empty range |
| Algorithms.Reduce | src/algorithms.hpp:525-540 | returns z on the empty range and the left fold otherwise |
| Algorithms.FindMismatch | src/algorithms.hpp:635-652 | advances both ranges in lockstep while r holds and stops at the first end or failure of r |
| Algorithms.FindAdjacentMismatch | src/algorithms.hpp:735-756 | returns the first position i after f with r failing between s[i - 1] and s[i], or l |
| Algorithms.FindAdjacentMismatchForward | src/algorithms.hpp:758-778 | the forward-iterator version returns the same position |
| Algorithms.AdjacentMismatchUnique | src/algorithms.hpp:735-778 | the two versions cannot disagree |
| Algorithms.AdjacentSuffices | src/algorithms.hpp:845-852 | no adjacent mismatch under the complement of the converse makes the range increasing |
| Algorithms.AdjacentNecessary | src/algorithms.hpp:845-852 | conversely, on an increasing range the search under the complement of the converse finds no mismatch and reaches the end |
| Algorithms.PartitionPointN | src/algorithms.hpp:904-925 | on a false-then-true range returns the first position satisfying p, within the range |
| Algorithms.LowerBoundN | src/algorithms.hpp:938-946 | on an increasing range returns the first position not below a |
| Algorithms.UpperBoundN | src/algorithms.hpp:960-968 | on an increasing range returns the first position above a |
| Algorithms.LowerBound | src/algorithms.hpp:949-957 | the bounded form of the lower bound |
| Algorithms.UpperBound | src/algorithms.hpp:971-979 | the bounded form of the upper bound |
| Algorithms.BoundsEnclosEquivalents | src/algorithms.hpp:938-979 | the lower bound is at most the upper bound, and the elements between them are exactly those equivalent to a |
| Preconditions.Wrap32 | src/preconditions.hpp:48-57 | the wrapped sum is a 32-bit value congruent to the sum modulo 2^32, and equal to it when it fits |
| Preconditions.CheckIntAddition | src/preconditions.hpp:46-71 | true exactly when the mathematical sum of two 32-bit ints fits in 32 bits; always true for mixed signs |
| Preconditions.CheckIntAdditionAgreesWithLimits | src/preconditions.hpp:60-68 | the commented-out limit-based variant decides the same thing |

## Left out

- The `visit` procedure argument of the traversals is modelled by the sequence of (visit, coordinate) calls it receives. Its side effects are not modelled.
- `select_2_4` and its helpers (src/linear_ordering.hpp:136-159) are not modelled: they drop the results of their inner calls.
- `orbit_actions.hpp` is not part of this model. It is an in-place duplicate of the orbit code that does not compile.
- `convergent_point_guarded` is not part of this model: its body is empty.
- `is_dag` is not part of this model: it is a stub.
- The broken functions of `algorithms.hpp` are not modelled. They are `count_if_not_n`, `count`/`count_n`/`count_not`/`count_not_n`, `reduce_nonempty_n`, `reduce_nonzeros`, `find_mismatch_n*`, `find_backward_if`, `find_adjacent_mismatch_n`, `relation_preserving*` and, through them, `strictly_increasing_range(_n)` and `increasing_range(_n)`, `partitioned` (it reads an undefined `p`), `partitioned_n`, `partition_point`, `lower_upper_bound_n`, `is_palindrome` and `for_each*`. Each fails to compile or has logic that does not match its name.
- The containers, iterator adaptors and operator wrappers (`list.hpp`, `vector.hpp`, `iterator.hpp`, `algebraic_operations.hpp`, `ordering_operations.hpp`) are not part of this model. Dafny sequences, indices and native operators stand in for them.
- The concept headers are not modelled as such. Only their semantic axioms appear, as predicates: associativity, strict weak ordering, and parent and child links by construction of paths.
- Fixed-width integer overflow is not modelled outside `Preconditions`: all other arithmetic is on unbounded integers.
- Preconditions.CheckIntAddition: models the 32-bit sum as a two's-complement wrap. C++ leaves signed overflow undefined, so a compiler may fold `a + b < 0` for two negatives to true.
- Orbit witnesses (handle, cycle and terminal step) are ghost parameters. They state the source's precondition that the orbit is rho-shaped or terminates; the algorithms never read them.
- OrbitTrf.Distance: requires a ghost step count at which y is reached. This is the source's precondition "y reachable from x" made explicit.
- Algorithms.Reduce and Algorithms.ReduceNonempty: `fun` is applied to positions, as the source applies it to the iterator.
- The undefined helpers `Integer::successor`, `Integer::half` and `Integer::max` are modelled as +1, floor halving and max.
- `traverse_step`'s comment asks for "has a predecessor and v != post", which contradicts its own post branch. The model's precondition is the one the body needs: the coordinate is a node, and it has a predecessor when v is post.
- The iterative drivers `weight`, `height`, `traverse` and `reachable` do not compile as written (unqualified `pre`/`post`, undefined `c`, a missing return). They are modelled with the corrected step and with their evident intent.
- `power_1`'s `= return` slip (src/associative_operations.hpp:77) is modelled as the evident `return`. `all_n`'s misuse of `constexpr` is modelled the same way.

## Findings

| source | as written | input that shows it | evidently intended | confidence | as-written member | corrected member |
|---|---|---|---|---|---|---|
| src/bifurcate_coordinates.hpp:147-152 | the in branch descends to the right successor and leaves v as in | tree with root, right child and that child's left child: the walk goes pre, in at the root, then in at [right], never visiting [right, left] | set v to pre after descending right, so the right subtree is traversed | high, not executed | BifurcateCoordinates.TraverseStepAsWritten, BifurcateCoordinates.TraverseStepAsWrittenSkipsNodes | BifurcateCoordinates.TraverseStepCorrected, BifurcateCoordinates.TraverseStepFollowsTraversal |
| src/bifurcate_coordinates.hpp:92-96 | `height_recursive` recurses into `weight_recursive` on its children | a root whose left child has two leaves: height 3, answer 4 | recurse into `height_recursive` | high, not executed | BifurcateCoordinates.HeightRecursiveAsWritten, BifurcateCoordinates.HeightRecursiveAsWrittenOvercounts | BifurcateCoordinates.HeightRecursive, BifurcateCoordinates.HeightIsDeepestPath |
| src/linear_ordering.hpp:176 | the templated `select_1_2` compares strictly when `ia > ib` | two equal keys at positions 0 and 1: the item at position 0 is returned as the larger | compare strictly when `ia < ib`, as `select_0_2` and the untemplated `select_1_2` do, so the later one of two equivalents is the larger | high, not executed | Ordering.StableSelect12AsWritten, Ordering.StableSelect12AsWrittenPicksFirst | Ordering.StableSelect12, Ordering.StableSelect12Selects |
| src/linear_ordering.hpp:239 | when `select_2_5` swaps a and b it also swaps the positions of c and d (`ib, ia, id, ic, ie`) but passes the values c, d unswapped | `median_5` on keys 3, 0, 1, 1, 2: returns c, while the stable median is d | pass `ib, ia, ic, id, ie`, keeping each position with its value | medium, not executed | Ordering.StableSelect25AsWritten, Ordering.Median5AsWritten, Ordering.Median5AsWrittenIsUnstable | Ordering.StableSelect25, Ordering.StableSelect25Selects, Ordering.Median5IsMedian |
