# HVec in Dafny

A model of `HVec.h`, a small header-only C++ library that provides two things:

- `HVec<dim>`: a vector of `dim` float components stored in a `std::array`;
- `shell_sort`: a Shell sort over a random-access range that uses Ciura's gap sequence.

The model has five modules:

- `VecMath` (`vec_math.dfy`) works at the value level. A vector is the `seq<real>` of its components. It defines:
  - the length comparisons;
  - the new value of the components after `mul` and after `norm`;
  - the two cross products;
  - the two stub operations.

  The lemmas state what the library promises about each of these.
- `HVecs` (`hvec.dfy`) is the library's own form. `HVec` is a class with a component buffer `d: array<real>`. The methods follow the C++ code:
  - `mul` and `norm` overwrite the buffer in place;
  - `vlen`'s sum of squares is a loop;
  - `std::max_element` is a loop.

  Each method is proved against a `VecMath` definition:
  - `Mul` against `Scaled`;
  - `Norm` against `Normalized`;
  - `SumOfSquares` against `SqLen`;
  - `Cprod2` and `Cprod3` against `Cross2` and `Cross3`;
  - the six comparison methods against the predicates of the same names, so `DerivedOperators` and the other lemmas about those predicates apply to them.
- `Sorting` (`shell_sort.dfy`) models `shell_sort` over an `array<T>`. The element comparison `*j > *(j - d)` becomes `key(x) > key(y)` for a key function `T -> real`. The sort works in place with strided insertion passes that only swap elements.
- `VecSort` (`vec_sort.dfy`) applies the sort to vectors the way the test suite does. `HVec::operator>` compares lengths, so the key is the squared length.
- `RealFacts` (`real_facts.dfy`) holds the facts about real arithmetic that the proofs use: squares, products, reciprocals and Lagrange's identity.

Components are exact reals. `vlen` is the square root of the sum of squares. The square root is monotone, so comparing lengths is the same as comparing squared lengths (`LengthComparedBySquares`). The comparison operators are therefore stated on `SqLen`, and `vlen` itself appears only as the relation `IsLength`.

Three points about the code shape the model:

- **Sort order.** The inner loop of `shell_sort` swaps while `*j > *(j - d)` (`HVec.h:154`). So the range ends up in non-increasing order, largest first. The sort test expects the vectors longest first (`HVec_tests.cpp:186-202`). `ShellSort` is therefore proved non-increasing.
- **`sum` and `dprod`.** Both are stubs marked `// TODO implementation`. Both only throw `std::logic_error("Function not yet implemented")` (`HVec.h:83`, `HVec.h:114`). `Sum` and `Dprod` therefore always return that error.
- **`mul` and `norm`.** Both update the receiver in place and return nothing (`HVec.h:88-107`). `HVec.Mul` and `HVec.Norm` therefore modify `d`.

## Model

| member | source | states |
|---|---|---|
| VecMath.SqLen | HVec.h:54-62 | the sum of squares under `vlen`'s square root is never negative |
| VecMath.SqLenZero | HVec.h:54-62 | a vector has length zero exactly when every component is zero |
| VecMath.IsLength | HVec.h:54-62 | `l` is `vlen` of `v`: non-negative, and its square is the sum of squares |
| VecMath.LengthComparedBySquares | HVec.h:64-76 | for the true lengths `la`, `lb` of two vectors, `la < lb` iff the squared lengths compare the same way, and likewise for `==` |
| VecMath.Less | HVec.h:64-69 | `operator<` on values: the squared length of `a` is smaller than that of `b` (by `LengthComparedBySquares`, the same as comparing `vlen`) |
| VecMath.Equal | HVec.h:71-76 | `operator==` on values: the squared lengths are equal, whatever the components |
| VecMath.Greater | HVec.h:27 | `operator>` on values: `b < a` |
| VecMath.LessEq | HVec.h:28 | `operator<=` on values: not `a > b` |
| VecMath.GreaterEq | HVec.h:29 | `operator>=` on values: not `a < b` |
| VecMath.NotEqual | HVec.h:31 | `operator!=` on values: not `a == b` |
| VecMath.DerivedOperators | HVec.h:27-31 | `>` is `<` with the operands flipped; `<=`, `>=` and `!=` hold exactly when the squared lengths compare by `<=`, `>=` and `!=` |
| VecMath.Trichotomy | HVec.h:26-31 | exactly one of `a < b`, `a > b`, `a == b` holds |
| VecMath.LessIsStrictWeakOrder | HVec.h:64-76 | `<` is irreflexive and transitive; neither `a < b` nor `b < a` exactly when `a == b`; `==` is an equivalence |
| VecMath.SameLengthEqual | HVec.h:71-76 | any two vectors of the same length are `==`, and `<=` holds both ways between them |
| VecMath.EqualIgnoresDirection | HVec.h:71-76 | for example `[1,0]` and `[0,1]`: different vectors that are `==` and `<=` each other both ways |
| VecMath.VlenExamples | HVec_tests.cpp:128-133 | the length of `{1,2,3}` lies between 3.7416 and 3.7417, so it passes the one-sided check against 3.742; `{0,0,1}` has length 1 |
| VecMath.OperatorExamples | HVec_tests.cpp:135-179 | each comparison test has the outcome the test expects, including the failing `op < alt` case |
| VecMath.Scaled | HVec.h:88-95 | the new components after `mul(a)`, each one times `a` by definition; the contract states the count is unchanged, and the lemmas below give the effect on length, order and `mul(1/a)` |
| VecMath.ScaledSqLen | HVec.h:88-95 | `mul(a)` multiplies the squared length by `a*a` |
| VecMath.ScalingKeepsOrder | HVec.h:88-95 | scaling two vectors by the same non-zero factor changes neither `<` nor `==` between them |
| VecMath.ScaledInverse | HVec.h:88-95 | `mul(1/a)` after `mul(a)` gives the original components back |
| VecMath.Abs | HVec.h:103-105 | `n > 0 ? n : -n`: non-negative, and either `n` or `-n` |
| VecMath.MaxAbs | HVec.h:102-106 | the largest absolute component, kept unless a later one is strictly larger, as `std::max_element` scans; the contract states it is non-negative, and the lemmas below show it bounds every absolute component and is attained |
| VecMath.MaxAbsBound | HVec.h:102-106 | the maximum of the absolute components bounds each of them |
| VecMath.MaxAbsAttained | HVec.h:102-106 | some component attains that maximum |
| VecMath.MaxAbsUnique | HVec.h:102-106 | a bound that one absolute component attains is the maximum |
| VecMath.MaxAbsPositive | HVec.h:102-106 | the maximum is positive when some component is non-zero |
| VecMath.MaxAbsScaled | HVec.h:98-107 | scaling by `a > 0` scales the maximum absolute component by `a` |
| VecMath.Normalized | HVec.h:98-107 | the new components after `norm`, the vector times the reciprocal of `MaxAbs` by definition; the contract states the count is unchanged, and the lemmas below give the bounds, signs, idempotence and scale invariance |
| VecMath.NormalizedComponent | HVec.h:98-107 | after `norm`, each component lies in [-1, 1] and keeps its sign, in both directions |
| VecMath.NormalizedExtreme | HVec.h:98-107 | after `norm`, a component of largest absolute value is 1 or -1 |
| VecMath.NormalizedBounds | HVec.h:98-107 | after `norm`, all components lie in [-1, 1], none changes sign, and one is 1 or -1 |
| VecMath.NormalizedIdempotent | HVec.h:98-107 | a normalised vector is non-zero, and `norm` leaves it unchanged |
| VecMath.NormalizedScaleInvariant | HVec.h:88-107 | `mul(a)` with `a > 0` followed by `norm` gives the same vector as `norm` alone |
| VecMath.Cross2 | HVec.h:126-130 | the 2-D `cprod`, the scalar `d0*b1 - d1*b0` by definition; its properties are the lemmas below |
| VecMath.Cross3 | HVec.h:133-139 | the 3-D `cprod`; the contract states the result has three components, and the lemmas below give antisymmetry, orthogonality and Lagrange's identity |
| VecMath.Cross2Antisymmetric | HVec.h:126-130 | the 2-D product changes sign when its operands are swapped and is zero for equal operands |
| VecMath.Cross3Antisymmetric | HVec.h:133-139 | the 3-D product is negated when its operands are swapped and is the zero vector for equal operands |
| VecMath.Cross3Orthogonal | HVec.h:133-139 | the 3-D product is orthogonal to both operands |
| VecMath.Cross2IsPlanarCross3 | HVec.h:126-139 | the 2-D product is the z component of the 3-D product of the operands lifted to z = 0; the other two components are 0 |
| VecMath.Cross3Lagrange | HVec.h:133-139 | the squared length of the 3-D product is the product of the squared lengths minus the squared inner product |
| VecMath.CrossExamples | HVec.h:126-139 | the unit-basis products: `{1,0} x {0,1} = 1` and `{1,0,0} x {0,1,0} = {0,0,1}` |
| VecMath.Sum | HVec.h:79-84 | `sum` never succeeds: every input gives an error |
| VecMath.Dprod | HVec.h:109-115 | `dprod` never succeeds: every input gives an error |
| VecMath.StubsAlwaysFail | HVec.h:79-115 | `sum` and `dprod` fail on every input with the logic error "Function not yet implemented" |
| HVecs.MaxElement | HVec.h:106 | `std::max_element` returns the first position of a maximum: nothing is larger, and everything before it is smaller |
| HVecs.HVec.constructor | HVec.h:18-21 | aggregate initialisation stores the given components first and zeros in the rest |
| HVecs.HVec.At | HVec.h:23 | `operator[]` returns component `n` |
| HVecs.HVec.Size | HVec.h:46-51 | `size` returns the number of components |
| HVecs.HVec.SumOfSquares | HVec.h:54-62 | the left accumulation of squares from 0 equals `SqLen` of the components; it is non-negative and zero iff every component is zero |
| HVecs.HVec.Less | HVec.h:64-69 | `operator<` holds iff this vector is strictly shorter |
| HVecs.HVec.Equal | HVec.h:71-76 | `operator==` holds iff both vectors have the same length |
| HVecs.HVec.Greater | HVec.h:27 | `operator>` is computed as `b < this`; it agrees with `VecMath.Greater` and holds iff `b` is strictly shorter |
| HVecs.HVec.LessEq | HVec.h:28 | `operator<=` is computed as `!(this > b)`; it agrees with `VecMath.LessEq` and holds iff this vector is no longer than `b` |
| HVecs.HVec.GreaterEq | HVec.h:29 | `operator>=` is computed as `!(this < b)`; it agrees with `VecMath.GreaterEq` and holds iff this vector is no shorter than `b` |
| HVecs.HVec.NotEqual | HVec.h:31 | `operator!=` is computed as `!(this == b)`; it agrees with `VecMath.NotEqual` and holds iff the lengths differ |
| HVecs.HVec.Mul | HVec.h:88-95 | `mul(a)` overwrites every component with itself times `a` and keeps the dimension |
| HVecs.HVec.Norm | HVec.h:98-107 | `norm` overwrites the components with the vector divided by its first largest absolute component |
| HVecs.HVec.Cprod2 | HVec.h:118-130 | `cprod` of two `HVec<2>` returns `d0*b1 - d1*b0` |
| HVecs.HVec.Cprod3 | HVec.h:133-139 | `cprod` of two `HVec<3>` returns a new vector holding the 3-D product |
| HVecs.EmptyVectorExample | HVec_tests.cpp:108-111 | building an `HVec<0>` succeeds, as the `vec0` test expects, and its `size()` is 0 |
| HVecs.IndexExample | HVec_tests.cpp:116-127 | component 1 of `HVec<3>{.1, .2, .3}` is `.2`, and `HVec<3>{}` is all zeros |
| Sorting.Gaps | HVec.h:146-148 | Ciura's table: sixteen gaps, each at least 1, strictly decreasing, the last one 1 |
| Sorting.Above | HVec.h:154 | the swap test `*j > *(j - d)`: the key of `x` is greater than the key of `y` |
| Sorting.AdjacentToSorted | HVec.h:146-155 | a sequence with no adjacent pair out of order is non-increasing |
| Sorting.InsertStrided | HVec.h:154-155 | the inner loop keeps the same elements and leaves all pairs `g` apart up to `i` in order; if `a[i]` was already in order, nothing changes |
| Sorting.GapPass | HVec.h:153-155 | after the pass for gap `g`, the buffer is `g`-sorted, holds the same elements, and is unchanged if it was already sorted |
| Sorting.ShellSort | HVec.h:142-157 | the result is non-increasing under `>` and a permutation of the input; a non-increasing input (including one of length 0 or 1) is left unchanged, so sorting twice is the same as sorting once |
| Sorting.SortedPermutationUnique | HVec.h:142-157 | two non-increasing arrangements of the same elements coincide when no two different elements share a key; so the test's result is determined |
| VecSort.AboveIsGreater | HVec.h:27 | the sort's comparison on vectors is `HVec::operator>` |
| VecSort.SortByLength | HVec.h:142-157 | sorting vectors leaves them longest first, with the same vectors, and leaves an already-sorted buffer unchanged |
| VecSort.TestInput | HVec_tests.cpp:187-191 | the five vectors of the sort test, in the order the test builds them |
| VecSort.TestExpected | HVec_tests.cpp:198-202 | the order the sort test expects, longest first |
| VecSort.TestOutcome | HVec_tests.cpp:186-202 | every longest-first arrangement of the test's five vectors is exactly the order the test expects |
| VecSort.SortsTestVectors | HVec_tests.cpp:186-202 | sorting the test's five vectors gives exactly the expected order |

## Left out

- `to_string` (`HVec.h:160-175`): it depends on how `std::to_string` formats a float. The sort test compares `to_string` output, so `SortsTestVectors` compares the vectors themselves instead.
- Float arithmetic: components are exact reals, so the rounding of `sqrtf` and of `std::accumulate` is not modelled. `vlen` appears only through `IsLength` and the squared length. The `vlen` tests' one-sided tolerance check is stated in exact arithmetic by `VlenExamples`.
- HVecs.HVec.Norm: requires a non-zero component. On the zero vector the C++ code divides by zero and produces infinities or NaN, which exact reals cannot represent.
- Passing more than `dim` components is a compile-time error. The model requires `|args| <= dim` instead. `HVec<0>` is an ordinary type in the source, and the model allows `dim == 0` (`EmptyVectorExample`).
- The test harness macros and `main` in `HVec_tests.cpp`: console output and timing.
- Sorting.InsertStrided: does not state that the elements after `i` are untouched; only the `g`-ordering up to `i` and the multiset are stated.
- Sorting.ShellSort: does not prove that a later pass keeps the ordering of an earlier, larger gap; the final pass at gap 1 alone gives the result.
- Sorting.ShellSort: the range `[first, last)` is the whole array. The mixed signed/unsigned arithmetic in `d > last - first` and `j - first >= d` is modelled with natural-number indices.
- VecSort.SortByLength: the sorted elements are component sequences, not `HVec` objects. Moving a vector moves its components, and `HVec` has no other state.
- HVecs.HVec.Cprod2: the source's member `cprod` (`HVec.h:118-123`) calls `cprod(*this, b)` unqualified. Inside the class, that name finds only the one-argument member, and the free two-argument overloads are declared after it. So the member may not compile when instantiated, and only the free functions at `HVec.h:126-139` can be called for sure. No test calls `cprod`. `Cprod2` and `Cprod3` are written as members with the free functions' formulas; this point is not modelled.
