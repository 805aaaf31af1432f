# rust_intervals in Dafny

This project models the core of `rust_intervals`, a Rust crate for intervals over totally
ordered types, and proves what the crate promises about them.

An interval is a pair of *bounds*. A bound is one of:

- `LeftUnbounded`, below everything;
- `LeftOf(p)`, just before the point `p`;
- `RightOf(p)`, just after `p`;
- `RightUnbounded`, above everything.

The interval holds the values that lie right of its lower bound and left of its upper bound.
Every pair of bounds is a legal interval. When the upper bound is not above the lower bound, the
interval is empty. Two integer bounds with nothing between their points are the same cut of the
line, so `[1, 4)` and `[1, 3]` are equivalent.

The modules follow the source files. `Pairs` covers both `src/pairs.rs` and the copy of `new_from_two` in
`src/multi_intervals.rs`. `MachineInts`, `IntervalProperties`, `IntervalSeqs` and `IteratorExamples` have no
source file of their own: they hold the integer types, the meaning of the interval predicates, the
facts about interval sequences that `MultiInterval` relies on, and the iterator tests.

| module | models |
|---|---|
| `Bounds` | bounds, their order (`partial_cmp`, `==`) and `min`/`max` |
| `NothingBetween` | `nothing_between` for integers and `char` |
| `Step` | `forward` and `backward` of the iterator's `Step` trait |
| `MachineInts` | the fixed-width integer types |
| `Intervals` | the interval constructors and predicates |
| `IntervalProperties` | the meaning of the interval predicates, and the crate's interval tests |
| `Pairs` | the one-or-two-interval result of `difference` and `symmetric_difference` |
| `Serde` | the serde representation and its round trip |
| `IntervalParse` | `Display` and `FromStr` |
| `LeftMostIter` | the stable merge of two sorted iterators |
| `Joining`, `Separating` | the two merge policies of `MultiInterval` |
| `Multi` | `MultiInterval` itself |
| `IntervalIter` | `IntervalIterator`, both from the front and from the back |
| `IteratorExamples` | the crate's iterator tests |

Points are mathematical integers. Where the source's fixed-width arithmetic matters, the width
is an `IntKind` parameter and the wrap-around is written out. This applies to the `usize` cast in
`Step` and to the iterator's `T::MIN`/`T::MAX`. The wrapping subtraction of `nothing_between` is
modelled on its own, by `MachineNothingBetween`. Bounds, intervals and the iterator use the exact
rule, `IntNothingBetween`, even when an `IntKind` is given; "Left out" says where they differ.

Objects the source mutates are classes: `IntervalIterator`, `LeftMostIter` and `MultiInterval`.
Each mutating method is proved against a specification function of the old state. Loops in the
source are `for`/`while` loops with invariants:
- `do_merge` in both policies;
- the character loop of `from_str`;
- `check_invariants`;
- draining `LeftMostIter`.

Where the source is evidently wrong, the model keeps the code as written next to a corrected
definition. The "Findings" section lists these.

## Model

| member | source | states |
|---|---|---|
| `MachineInts.IntKind.MinValue` | src/step.rs:19-21 | `T::MIN` is `-2^(bits-1)` for a signed type and `0` for an unsigned one |
| `MachineInts.IntKind.MaxValue` | src/step.rs:22-24 | `T::MAX` is `2^bits - 1` above `T::MIN` |
| `MachineInts.IntKind.Wrap` | src/step.rs:25-30 | the `as` cast to `T` gives a value of `T`, and leaves a value already in range unchanged |
| `MachineInts.IntKind.WrapCongruent` | src/step.rs:25-30 | the cast keeps the value modulo `2^bits` |
| `Bounds.Bound.LeftOfPoint` | src/bounds.rs:18-28 | `left_of(v)` holds exactly when the bound stands before `v` on the line of bound positions |
| `Bounds.Bound.RightOfPoint` | src/bounds.rs:31-41 | `right_of(v)` is the negation of `left_of(v)`: every bound splits the values in two |
| `Bounds.Bound.Value` | src/bounds.rs:67-72 | `value()` is None exactly for the two unbounded bounds, and the point otherwise |
| `Bounds.Compare` | src/bounds.rs:179-212 | the order of bounds is the order of their positions: `-inf`, then `LeftOf(p)` at `2p-1`, `RightOf(p)` at `2p+1`, then `+inf` |
| `Bounds.Eq` | src/bounds.rs:115-141 | bound equality holds exactly when the comparison says Equal |
| `Bounds.Min` | src/bounds.rs:43-52 | `min` returns one of its arguments, no greater than either; its values are the union of the arguments' |
| `Bounds.Max` | src/bounds.rs:54-63 | `max` returns one of its arguments, no less than either; its values are the intersection of the arguments' |
| `Bounds.LeIsCutInclusion` | src/bounds.rs:179-212 | `a <= b` exactly when every value left of `b` is left of `a` |
| `Bounds.LtHasPointBetween` | src/bounds.rs:179-212 | `a < b` exactly when some integer lies right of `a` and left of `b` |
| `Bounds.EqualIsSameCut` | src/bounds.rs:115-141 | two bounds are equal exactly when they split the values the same way, so `LeftOf(p+1) == RightOf(p)` |
| `Bounds.CompareReverse` | src/bounds.rs:179-212 | comparing the other way round reverses the result |
| `Bounds.LeTransitive` | src/bounds.rs:179-212 | `<=` is transitive, and strict when either step is strict |
| `Bounds.MinMaxRespectEq` | src/bounds.rs:43-63 | `min` and `max` of equal bounds are equal, in either argument order |
| `Bounds.OrderExamples` | src/tests.rs:491-499 | `LeftOf(3) < RightOf(3) == LeftOf(4)`, and the unbounded bounds lie outside every point bound |
| `NothingBetween.IntNothingBetween` | src/nothing_between.rs:11-30 | for `a < b`, `b - a <= 1` holds exactly when `b` is `a + 1`, and otherwise `a + 1` lies between them |
| `NothingBetween.MachineNothingBetween` | src/nothing_between.rs:11-50 | the rule computed in the fixed-width type agrees with the exact rule for every unsigned type, and for a signed type whenever `b - a` fits |
| `NothingBetween.SignedOverflowCounterexample` | src/nothing_between.rs:31-35 | for `i8`, `100 - (-100)` wraps to `-56`, so `-100` and `100` are reported as adjacent |
| `NothingBetween.CharNothingBetween` | src/nothing_between.rs:69-73 | the code-point rule only reports adjacency for consecutive code points |
| `NothingBetween.CharSurrogateGapCounterexample` | src/nothing_between.rs:69-73 | U+D7FF and U+E000 have no `char` between them, yet the code-point rule says they are not adjacent |
| `NothingBetween.CharAfter` | src/nothing_between.rs:69-73 | with the surrogate gap accounted for, non-adjacent `char`s always have a `char` between them |
| `NothingBetween.ScalarNothingBetweenSound` | src/nothing_between.rs:69-73 | with the surrogate gap accounted for, adjacent `char`s have no `char` between them |
| `Step.CastStep` | src/step.rs:25-30 | `step as T` is a value of `T`, equal to `step` when it fits |
| `Step.Forward` | src/step.rs:25-27 | `forward` gives a value of `T`, and agrees with the checked addition whenever `step` fits in `T` |
| `Step.Backward` | src/step.rs:28-30 | `backward` gives a value of `T`, and agrees with the checked subtraction whenever `step` fits in `T` |
| `Step.CheckedForward` | src/step.rs:25-27 | `x + step` when it does not exceed `T::MAX`, None exactly when it does |
| `Step.CheckedBackward` | src/step.rs:28-30 | `x - step` when it is not below `T::MIN`, None exactly when it is |
| `Step.StepZero` | src/step.rs:25-30 | a step of zero leaves the value unchanged in both directions |
| `Step.StepInverse` | src/step.rs:25-30 | a successful step forward is undone by the same step backward, and the other way round |
| `Step.StepCastCounterexample` | src/step.rs:25-27 | for `u8`, `0.forward(256)` casts 256 to 0 and returns `Some(0)` instead of None |
| `Step.SignedStepCastCounterexample` | src/step.rs:25-27 | for `i8`, `0.forward(200)` casts 200 to -56 and returns `Some(-56)` |
| `Step.BackwardStepCastCounterexample` | src/step.rs:28-30 | for `u16`, `5.backward(65536)` casts the step to 0 and returns `Some(5)` |
| `Intervals.Interval.LowerInclusive` | src/intervals.rs:278-280 | an inclusive lower bound has a value, which a non-empty interval contains; an exclusive one's value is not contained |
| `Intervals.Interval.UpperInclusive` | src/intervals.rs:298-300 | the same for the upper bound |
| `Intervals.Interval.LowerUnbounded` | src/intervals.rs:283-285 | holds exactly when there is no lower value and every value lies right of the lower bound |
| `Intervals.Interval.UpperUnbounded` | src/intervals.rs:303-305 | holds exactly when there is no upper value and every value lies left of the upper bound |
| `Intervals.ClosedOpen` | src/intervals.rs:29-34 | `[lo, up)` contains exactly the `v` with `lo <= v < up` |
| `Intervals.ClosedClosed` | src/intervals.rs:47-52 | `[lo, up]` contains exactly the `v` with `lo <= v <= up` |
| `Intervals.OpenOpen` | src/intervals.rs:63-68 | `(lo, up)` contains exactly the `v` with `lo < v < up` |
| `Intervals.OpenClosed` | src/intervals.rs:79-84 | `(lo, up]` contains exactly the `v` with `lo < v <= up` |
| `Intervals.UnboundedClosed` | src/intervals.rs:97-102 | `(, up]` contains exactly the `v <= up` |
| `Intervals.UnboundedOpen` | src/intervals.rs:115-120 | `(, up)` contains exactly the `v < up` |
| `Intervals.ClosedUnbounded` | src/intervals.rs:133-138 | `[lo, )` contains exactly the `v >= lo` |
| `Intervals.OpenUnbounded` | src/intervals.rs:149-154 | `(lo, )` contains exactly the `v > lo` |
| `Intervals.DoublyUnbounded` | src/intervals.rs:166-171 | `(, )` contains every value |
| `Intervals.Empty` | src/intervals.rs:183-188 | the empty interval is empty and contains nothing |
| `Intervals.Single` | src/intervals.rs:201-206 | `new_single(x)` is a non-empty single-value interval that contains exactly `x` |
| `Intervals.IntervalCompareFixed` | src/intervals.rs:1039-1063 | the corrected interval order says Equal exactly for equivalent intervals, and agrees with the source's order on non-empty intervals |
| `IntervalProperties.EmptyIffNoValue` | src/intervals.rs:343-352 | `is_empty` holds exactly when the interval contains no value |
| `IntervalProperties.ContainsIntervalIsSubset` | src/intervals.rs:364-370 | `contains_interval` is exactly inclusion of value sets |
| `IntervalProperties.EquivalentIsSameValues` | src/intervals.rs:380-391 | `equivalent` is exactly equality of value sets |
| `IntervalProperties.StrictlyLeftOfPointMeaning` | src/intervals.rs:399-404 | `strictly_left_of(x)` exactly when every contained value is `< x` |
| `IntervalProperties.StrictlyRightOfPointMeaning` | src/intervals.rs:412-417 | `strictly_right_of(x)` exactly when every contained value is `> x` |
| `IntervalProperties.LeftOfPointMeaning` | src/intervals.rs:425-430 | `left_of(x)` exactly when every contained value is `<= x` |
| `IntervalProperties.RightOfPointMeaning` | src/intervals.rs:438-443 | `right_of(x)` exactly when every contained value is `>= x` |
| `IntervalProperties.StrictlyLeftOfIntervalMeaning` | src/intervals.rs:467-472 | `strictly_left_of_interval` exactly when every value of the first is below every value of the second |
| `IntervalProperties.StrictlyRightOfIntervalMeaning` | src/intervals.rs:476-481 | `strictly_right_of_interval` exactly when every value of the first is above every value of the second |
| `IntervalProperties.LeftOfIntervalCounterexample` | src/intervals.rs:447-453 | `[1, )` is reported left of `(, 3]`, though it contains 5 and the other contains 0; the documented reading rejects it |
| `IntervalProperties.RightOfIntervalCounterexample` | src/intervals.rs:457-463 | `(, 3]` is reported right of `[1, )`, though it contains 0 and the other contains 5; the documented reading rejects it |
| `IntervalProperties.LeftOfIntervalRepresentationCounterexample` | src/intervals.rs:447-453 | `[1, 4)` equals `[1, 3]`, yet only `[1, 3]` is reported left of `[3, 5]`; the documented reading accepts `[1, 4)` too |
| `IntervalProperties.RightOfIntervalRepresentationCounterexample` | src/intervals.rs:457-463 | `[3, 5]` is reported right of `[1, 3]` but not of the equal `[1, 4)`; the documented reading accepts both |
| `IntervalProperties.LeftOfIntervalIntendedMeaning` | src/intervals.rs:444-453 | the documented `left_of_interval` holds exactly when every value of the first is `<=` every value of the second, so it is true when either is empty |
| `IntervalProperties.RightOfIntervalIntendedMeaning` | src/intervals.rs:454-463 | the documented `right_of_interval` holds exactly when every value of the first is `>=` every value of the second, so it is true when either is empty |
| `IntervalProperties.LeftOfIntervalAsWrittenSound` | src/intervals.rs:447-453 | when the first upper bound is finite, whatever `left_of_interval` accepts satisfies the documented condition |
| `IntervalProperties.RightOfIntervalAsWrittenSound` | src/intervals.rs:457-463 | when the first lower bound is finite, whatever `right_of_interval` accepts satisfies the documented condition |
| `IntervalProperties.IsSingleMeaning` | src/intervals.rs:490-498 | an interval reported single is non-empty and contains exactly its lower point |
| `IntervalProperties.HullContainsBoth` | src/intervals.rs:502-516 | the convex hull contains every value of both intervals |
| `IntervalProperties.HullIsSmallest` | src/intervals.rs:502-516 | the convex hull is inside every interval holding the values of both |
| `IntervalProperties.IntersectsMeaning` | src/intervals.rs:593-601 | `intersects` exactly when some value is in both |
| `IntervalProperties.IntersectionMeaning` | src/intervals.rs:617-625 | the intersection contains exactly the values in both |
| `IntervalProperties.BetweenMeaning` | src/intervals.rs:632-644 | `between` contains exactly the hull values in neither, and is empty when either input is |
| `IntervalProperties.ContiguousMeaning` | src/intervals.rs:648-657 | `contiguous` exactly when the hull adds no value to the two intervals |
| `IntervalProperties.UnionSomeMeaning` | src/intervals.rs:669-678 | a union that succeeds contains exactly the values of both |
| `IntervalProperties.UnionNoneMeaning` | src/intervals.rs:669-678 | when `union` returns None, no interval holds exactly the values of both |
| `IntervalProperties.CompareEmptyCounterexample` | src/intervals.rs:1039-1063 | the source orders an empty interval Greater than another empty one, though the two are `==` |
| `IntervalProperties.CompareFixedReverse` | src/intervals.rs:1039-1063 | the corrected order is antisymmetric: comparing the other way reverses the answer |
| `IntervalProperties.IntervalLeTotal` | src/intervals.rs:1065-1072 | the corrected order is total, with the empty interval first |
| `IntervalProperties.IntervalLeTransitive` | src/intervals.rs:1065-1072 | the corrected order is transitive |
| `IntervalProperties.IntervalLeLower` | src/intervals.rs:1039-1063 | non-empty intervals in order have their lower bounds in order |
| `IntervalProperties.ContainsExamples` | src/tests.rs:58-142 | the membership and containment facts of `test_contains` for `[1,10)`, `[1,5]`, `(,10]` and the empty interval |
| `IntervalProperties.InclusiveExamples` | src/tests.rs:145-193 | `lower()`, `upper()` and the inclusive flags of `test_inclusive`, including None for the empty interval and `Some(3)` for `(3,3]` |
| `IntervalProperties.EmptyExamples` | src/tests.rs:196-323 | the integer cases of `test_empty`: `[1,1)`, `[1,0)`, `(0,1)` and `(2,1)` are empty, `[1,10)` is not |
| `IntervalProperties.SingleExamples` | src/tests.rs:326-344 | `new_single(4)` is single; `[1,1]` is single, `[1,4)` is not, and `(0,2)` is not though it holds one value |
| `IntervalProperties.EquivalentExamples` | src/tests.rs:347-397 | every integer equivalence and non-equivalence of `test_equivalent` |
| `IntervalProperties.OrdExamples` | src/tests.rs:501-536 | the interval comparisons of `test_ord`, with the empty interval before `[1,20]` |
| `IntervalProperties.LeftOfPointExamples` | src/tests.rs:556-626 | every point comparison of `test_left_of` |
| `IntervalProperties.LeftOfIntervalExamples` | src/tests.rs:556-626 | every interval comparison of `test_left_of` |
| `IntervalProperties.HullExamples` | src/tests.rs:640-681 | every convex hull and union of `test_convex_hull` |
| `IntervalProperties.BetweenExamples` | src/tests.rs:765-781 | every `between` and `contiguous` of `test_between` |
| `IntervalProperties.IntersectionExamples` | src/tests.rs:784-796 | every `intersects` and `intersection` of `test_intersection` |
| `Pairs.NewFromTwo` | src/pairs.rs:33-41 | the pair holds exactly the values of both inputs; an empty first gives `One(second)`, otherwise an empty second gives `One(first)`, and two non-empty inputs give `Two(first, second)` in argument order (the identical `new_from_two` of `src/multi_intervals.rs:25-33` is the same function) |
| `Pairs.DifferenceMeaning` | src/intervals.rs:531-549 | `difference` holds exactly the values of the first interval that are not in the second |
| `Pairs.DifferenceLeftMostFirst` | src/intervals.rs:531-549 | when the difference has two parts, the second interval lies between them, left part first |
| `Pairs.SymmetricDifferenceMeaning` | src/intervals.rs:565-589 | `symmetric_difference` holds exactly the values in one interval but not the other |
| `Pairs.SymmetricDifferenceLeftMostFirst` | src/intervals.rs:565-589 | when it has two parts, the left part comes first |
| `Pairs.SymmetricDifferenceSymmetric` | src/intervals.rs:565-589 | swapping the arguments gives an equivalent result |
| `Pairs.DifferenceExamples` | src/tests.rs:684-727 | `[10,30] - empty`, `[10,30] - [1,50]` and `[1,50] - [10,30] == [1,10) + (30,50]` from `test_difference` |
| `Pairs.DifferenceOverlapExamples` | src/tests.rs:684-727 | the one-sided overlaps of `test_difference` |
| `Pairs.SymmetricDifferenceExamples` | src/tests.rs:799-848 | the nested cases of `test_symmetric_difference`, in both argument orders |
| `Pairs.SymmetricDifferenceOverlapExamples` | src/tests.rs:799-848 | the disjoint and overlapping cases of `test_symmetric_difference` |
| `Serde.Serialize` | src/serde.rs:25-66 | an interval is written as the `Empty` variant exactly when it is empty |
| `Serde.RoundTrip` | src/serde.rs:25-107 | deserializing the serialized interval gives an equivalent one: the same interval when non-empty, `Interval::empty()` otherwise |
| `Serde.TagRoundTrip` | src/serde.rs:73-107 | serializing a deserialized variant gives it back, or `Empty` when it denotes an empty interval |
| `Serde.SerdeExamples` | src/serde.rs:135-183 | the variant chosen for each shape in `test_serde`, and `Empty` for `[2,1)` |
| `IntervalParse.Trim` | src/intervals.rs:1157-1171 | `str::trim`: the result is blank exactly for blank input, has no white space at either end, and is the input minus leading and trailing white space |
| `IntervalParse.FromStr` | src/intervals.rs:1140-1200 | the character loop of `from_str` computes its specification `FromStrSpec` |
| `IntervalParse.DisplayRoundTrip` | src/intervals.rs:1099-1200 | parsing what `Display` writes gives back the interval, or the empty interval, whenever each point's text parses back to it |
| `IntervalParse.ScanDigitsMeaning` | src/intervals.rs:1157-1163 | the integer parser's digit loop succeeds exactly on a string of decimal digits whose signed value lies in the type, and then gives that value |
| `IntervalParse.ParseIntErrorOrderExamples` | src/intervals.rs:1157-1163 | the first error met from the left is reported: `u8` `"300x"` overflows, `i8` `"-300x"` overflows downward, and `u8` `"30x"` has a bad digit |
| `IntervalParse.ParseIntSignExamples` | src/intervals.rs:1157-1163 | an unsigned type rejects a minus sign, a lone sign is no number, and `i8` reads `"-128"` |
| `IntervalParse.ShowIntRoundTrip` | src/intervals.rs:1099-1200 | an integer's decimal text parses back to it in any integer type holding it |
| `IntervalParse.MachineDisplayRoundTrip` | src/intervals.rs:1099-1200 | for integer points, `s.parse()` of `format!("{}", i)` returns `i` |
| `IntervalParse.DisplayExamples` | src/tests.rs:454-484 | the integer texts of `test_display`: `[1, 4]`, `[1,)`, `(, 1]`, `(,)`, `empty` and the rest |
| `IntervalParse.FieldText` | src/intervals.rs:1157-1163 | a field stands for an unbounded side exactly when it is blank |
| `IntervalParse.FromStrTwoFields` | src/intervals.rs:1140-1200 | for one comma and one closing character, the result is the first field's error, then the second's, then the shape match |
| `IntervalParse.FromStrPadded` | src/intervals.rs:1140-1200 | spaces around single-digit fields do not change the result |
| `IntervalParse.FromStrClosedClosed` | src/tests.rs:402 | `"[1,4]"` parses as `[1,4]` |
| `IntervalParse.FromStrClosedOpen` | src/tests.rs:403 | `"[ 1, 4)"` parses as `[1,4)` |
| `IntervalParse.FromStrOpenOpen` | src/tests.rs:404 | `"(1,4)"` parses as `(1,4)` |
| `IntervalParse.FromStrOpenClosed` | src/tests.rs:405 | `"(1,4  ]"` parses as `(1,4]` |
| `IntervalParse.FromStrOpenUnbounded` | src/tests.rs:406 | `"(1,)"` parses as `(1,)` |
| `IntervalParse.FromStrClosedUnbounded` | src/tests.rs:407 | `"[1,  )"` parses as `[1,)` |
| `IntervalParse.FromStrUnboundedOpen` | src/tests.rs:408 | `"(,1)"` parses as `(,1)` |
| `IntervalParse.FromStrUnboundedClosed` | src/tests.rs:409 | `"( ,1]"` parses as `(,1]` |
| `IntervalParse.FromStrDoublyUnbounded` | src/tests.rs:410-413 | `"(,)"` parses as the doubly unbounded interval |
| `IntervalParse.FromStrEmpty` | src/tests.rs:414 | `"empty"` parses as the empty interval |
| `IntervalParse.FromStrBadOpening` | src/tests.rs:415-419 | `"&1,2"` is rejected with `InvalidInput` |
| `LeftMostIter.MergedIsPermutation` | src/leftmostiter.rs:1-11 | the merge yields every element of both inputs, each once |
| `LeftMostIter.MergedIsInterleaving` | src/leftmostiter.rs:42-55 | the merge keeps the relative order of each input |
| `LeftMostIter.MergedHead` | src/leftmostiter.rs:42-55 | the first element yielded is the smaller head, the second input's on a tie |
| `LeftMostIter.MergedSorted` | src/leftmostiter.rs:1-11 | merging two sorted inputs whose elements are comparable gives a sorted output |
| `LeftMostIter.MergedExample` | src/leftmostiter.rs:1-11 | `[1,3,4,8]` merged with `[2,3,7]` is `[1,2,3,3,4,7,8]` |
| `LeftMostIter.LeftMostIter.constructor` | src/leftmostiter.rs:26-31 | a new iterator has the whole merge of both inputs still to yield |
| `LeftMostIter.LeftMostIter.Next` | src/leftmostiter.rs:42-55 | `next` returns None exactly when both inputs are exhausted, and otherwise the head of what is left to yield |
| `LeftMostIter.LeftMostIter.Drain` | src/leftmostiter.rs:42-55 | collecting the iterator yields exactly the merge |
| `IntervalSeqs.InAnyConcat` | src/multi.rs:5-20 | a value is in a concatenated list of intervals exactly when it is in one of the parts |
| `IntervalSeqs.InAnyPermutation` | src/multi.rs:82 | reordering a list of intervals keeps its values |
| `IntervalSeqs.JoinedIsSeparated` | src/multi.rs:5-20 | a joined list is also separated |
| `IntervalSeqs.SeparatedIsSorted` | src/multi.rs:114-126 | a separated list is sorted, strictly by lower bound |
| `IntervalSeqs.SeparatedValuesOrdered` | src/multi.rs:114-126 | in a separated list, every value of an earlier interval is below every value of a later one |
| `IntervalSeqs.AsWrittenAgrees` | src/intervals.rs:1039-1063 | on non-empty intervals, the source's order and the corrected order agree |
| `IntervalSeqs.NonEmptyOnlyFacts` | src/multi.rs:75-78 | dropping the empty intervals keeps every value and leaves only non-empty intervals |
| `IntervalSeqs.InsertFacts` | src/multi.rs:82 | inserting into a sorted list keeps it sorted and adds the element once |
| `IntervalSeqs.SortFacts` | src/multi.rs:82 | `sort` gives a sorted permutation of its input |
| `IntervalSeqs.SortKeepsSorted` | src/multi.rs:82 | sorting a sorted list leaves it unchanged |
| `IntervalSeqs.SortedLowers` | src/multi.rs:82 | a sorted list of non-empty intervals has its lower bounds in order |
| `IntervalSeqs.JoinedConcat` | src/multi_joining.rs:42-48 | appending a joined list strictly beyond a joined list, and not contiguous with it, keeps the whole joined |
| `IntervalSeqs.SeparatedConcat` | src/multi_separating.rs:42-48 | appending a separated list strictly beyond a separated list keeps the whole separated |
| `IntervalSeqs.SameIntervalsCover` | src/multi.rs:145-148 | lists that are elementwise `==` hold the same values |
| `IntervalSeqs.JoinedUnique` | src/multi.rs:145-148 | two joined lists with the same values are elementwise `==` |
| `IntervalSeqs.JoinedSameIffSameValues` | src/multi.rs:145-148 | for joined lists, elementwise `==` is exactly equality of values |
| `Joining.DoMerge` | src/multi_joining.rs:10-31 | `do_merge` appends the joined input to the vector |
| `Joining.JoinCovers` | src/multi_joining.rs:10-31 | joining loses no value and adds none |
| `Joining.JoinJoined` | src/multi_joining.rs:10-31 | non-empty intervals read by lower bound come out joined: non-empty, each strictly left of and not contiguous with the next |
| `Joining.Merge` | src/multi_joining.rs:35-63 | `merge` computes `AfterMerge`, leaves the vector unchanged when there is nothing new, and keeps a joined vector joined, covering the old and new values |
| `Joining.RebuildFacts` | src/multi_joining.rs:49-59 | the rebuild reads every old and new interval, non-empty and in order of lower bound |
| `Joining.AfterMergeFacts` | src/multi_joining.rs:35-63 | the merged vector is joined, holds exactly the old and new values, and on the fast path keeps the old vector as a prefix |
| `Joining.JoinExample` | src/multi.rs:163-180 | `[1,3) + [2,4) + [4,5)` joins to `[1,5)` |
| `Separating.DoMerge` | src/multi_separating.rs:10-32 | `do_merge` appends the separated input to the vector |
| `Separating.SepFacts` | src/multi_separating.rs:10-32 | non-empty intervals read by lower bound come out separated and hold the same values |
| `Separating.Merge` | src/multi_separating.rs:35-64 | `merge` computes `AfterMerge`, leaves the vector unchanged when there is nothing new, and keeps a separated vector separated, covering the old and new values |
| `Separating.AfterMergeFacts` | src/multi_separating.rs:35-64 | the merged vector is separated, holds exactly the old and new values, and on the fast path keeps the old vector as a prefix |
| `Separating.SepExample` | src/multi.rs:231-246 | `[1,3) + [2,4) + [4,5)` separates to `[1,4) [4,5)` |
| `Multi.MultiInterval.constructor` | src/multi.rs:5-20 | a new set holds no interval and is valid |
| `Multi.MultiInterval.IsEmpty` | src/multi.rs:29-31 | `is_empty` exactly when `len()` is 0, and, for a valid set, exactly when it holds no value |
| `Multi.MultiInterval.ExtendInternal` | src/multi.rs:48-67 | `extend_internal` appends the joined input to the items |
| `Multi.MultiInterval.Extend` | src/multi.rs:70-100 | `extend` drops empty intervals, sorts and merges; it keeps the set valid, and the set then holds exactly its old values and the new ones |
| `Multi.MultiInterval.Add` | src/multi.rs:36-41 | `add` is `extend` with one interval; the set then holds exactly its old values and the interval's |
| `Multi.MultiInterval.CheckInvariants` | src/multi.rs:114-126 | the check passes exactly when the items are separated, which every valid set is |
| `Multi.MultiInterval.Eq` | src/multi.rs:145-148 | `==` is elementwise equivalence, and for valid sets exactly equality of values |
| `Multi.AfterExtendFacts` | src/multi.rs:70-100 | extending a joined list gives a joined list holding exactly the old and the new values |
| `Multi.ExtendWithEmpties` | src/multi.rs:79-81 | extending with only empty intervals changes nothing |
| `Multi.AddContainedUnchanged` | src/multi.rs:196-198 | adding an interval already inside one of the items leaves the set `==` to what it was |
| `Multi.ExtendKeepsSortedInput` | src/multi.rs:82 | for sorted non-empty input, extending is merging it directly |
| `Multi.JoiningExample` | src/multi.rs:175-181 | extending an empty set with `[1,3) [2,4) [4,5)` gives `[1,5)` |
| `Multi.JoiningUnsortedExample` | src/multi.rs:184-187 | the same intervals in reverse order give the same result |
| `Multi.SortedBeforeMerge` | src/multi.rs:184-187 | the order of the input does not matter for this example |
| `Multi.ReversedSortExample` | src/multi.rs:82 | sorting `[4,5) [2,4) [1,3)` orders them by lower bound |
| `Multi.AddFirstExample` | src/multi.rs:191-194 | adding `[1,4)` to an empty set gives `[1,4)` |
| `Multi.AddSameExample` | src/multi.rs:196-198 | adding the same interval again has no effect |
| `Multi.AddLongerExample` | src/multi.rs:200-202 | adding `[1,6)` extends `[1,4)` |
| `Multi.AddDisjointExample` | src/multi.rs:204-209 | adding `[8,10)` keeps two intervals |
| `Multi.AddSubsetExample` | src/multi.rs:211-215 | adding `[9,10)` leaves `[1,6) [8,10)` unchanged |
| `Multi.AddBridgeExample` | src/multi.rs:217-219 | adding `[4,8]` joins `[1,6)` and `[8,10)` into `[1,10)` |
| `Multi.BatchesExample` | src/multi.rs:223-226 | extending `[1,3) [4,5)` with `[6,7) [8,9)` gives four intervals, through the fast path |
| `Multi.FirstBatchExample` | src/multi.rs:223-224 | the first batch `[1,3) [4,5)` stays as two intervals |
| `IntervalIter.ThenForward` | src/iterator.rs:29-57 | the successor of the current value, None at `T::MAX` |
| `IntervalIter.ThenBackward` | src/iterator.rs:71-96 | the predecessor of the current value, None at `T::MIN` |
| `IntervalIter.NthFromFront` | src/iterator.rs:23-59 | `internal_nth` keeps the upper bound, moves the lower bound up, returns a value of `T`, and leaves an empty interval unchanged |
| `IntervalIter.NthFromBack` | src/iterator.rs:62-98 | `internal_nth_back` keeps the lower bound, moves the upper bound down, returns a value of `T`, and leaves an empty interval unchanged |
| `IntervalIter.NthFromLeftUnbounded` | src/iterator.rs:29-37 | from `LeftUnbounded`, the nth value is `T::MIN + n`, and the new lower bound is just after it |
| `IntervalIter.NthFromLeftOf` | src/iterator.rs:41-49 | from `LeftOf(lo)`, the nth value is `lo + n` |
| `IntervalIter.NthFromRightOf` | src/iterator.rs:50-57 | from `RightOf(lo)`, the nth value is `lo + n + 1` |
| `IntervalIter.NthBackFromRightUnbounded` | src/iterator.rs:71-79 | from `RightUnbounded`, the nth value from the back is `T::MAX - n` |
| `IntervalIter.NthBackFromRightOf` | src/iterator.rs:80-88 | from `RightOf(up)`, the nth value from the back is `up - n` |
| `IntervalIter.NthBackFromLeftOf` | src/iterator.rs:89-96 | from `LeftOf(up)`, the nth value from the back is `up - n - 1` |
| `IntervalIter.DomainIsRange` | src/iterator.rs:6-11 | the values of `T` in an interval form one integer range from its first to its last value |
| `IntervalIter.NthFrontFixedCorrect` | src/iterator.rs:23-59 | the corrected `nth` returns the value with exactly `n` values of the interval before it, and leaves exactly the later values; or None when there are at most `n` values, leaving none |
| `IntervalIter.NthBackFixedCorrect` | src/iterator.rs:62-98 | the same from the back |
| `IntervalIter.NextAgrees` | src/iterator.rs:108-110 | `next` agrees with the corrected definition unless an unbounded start lies beyond the upper bound |
| `IntervalIter.NextBackAgrees` | src/iterator.rs:122-124 | `next_back` agrees with the corrected definition unless an unbounded end lies below the lower bound |
| `IntervalIter.NthAgrees` | src/iterator.rs:112-114 | `nth` agrees with the corrected definition whenever the latter finds a value |
| `IntervalIter.NthBackAgrees` | src/iterator.rs:126-128 | `nth_back` agrees with the corrected definition whenever the latter finds a value |
| `IntervalIter.NextCorrect` | src/iterator.rs:108-110 | `next` returns the first value and leaves the rest, unless an unbounded start lies beyond the upper bound |
| `IntervalIter.NextBackCorrect` | src/iterator.rs:122-124 | `next_back` returns the last value and leaves the rest, unless an unbounded end lies below the lower bound |
| `IntervalIter.NthCorrectWhenFound` | src/iterator.rs:112-114 | `nth` is correct when the interval holds more than `n` values |
| `IntervalIter.NthBackCorrectWhenFound` | src/iterator.rs:126-128 | `nth_back` is correct when the interval holds more than `n` values |
| `IntervalIter.UnboundedStartCounterexample` | src/iterator.rs:29-37 | over `u32`, `(, 0)` holds no value, yet `next()` returns 0 |
| `IntervalIter.UnboundedEndCounterexample` | src/iterator.rs:71-79 | over `u32`, `(u32::MAX, )` holds no value, yet `next_back()` returns `u32::MAX` |
| `IntervalIter.OvershootCounterexample` | src/iterator.rs:41-49 | over `u32`, `[1,4).nth(5)` returns 6, outside the interval |
| `IntervalIter.OvershootBackCounterexample` | src/iterator.rs:89-96 | over `i8`, `[1,4).nth_back(5)` returns -2, outside the interval |
| `IntervalIter.CastCounterexample` | src/iterator.rs:41-49 | over `u8`, `[0,255].nth(256)` casts 256 to 0 and returns 0 instead of None |
| `IntervalIter.CastNth` | src/iterator.rs:41-49 | and leaves `[1,255]` behind |
| `IntervalIter.CollectFrontIsRange` | src/iterator.rs:108-110 | the first `m` values yielded by `next` are the integer range from the first value, cut at the last |
| `IntervalIter.CollectBackIsRange` | src/iterator.rs:122-124 | the first `m` values yielded by `next_back` are the integer range downwards from the last value, cut at the first |
| `IntervalIter.CollectFrontMeaning` | src/iterator.rs:108-110 | collecting the whole iterator yields every value of `T` in the interval, once each, in increasing order |
| `IntervalIter.CollectBackMeaning` | src/iterator.rs:122-124 | collecting the reversed iterator yields every value, once each, in decreasing order |
| `IntervalIter.IntervalIterator.constructor` | src/intervals.rs:688-693 | `iter()` starts an iterator over the interval |
| `IntervalIter.IntervalIterator.InternalNth` | src/iterator.rs:23-59 | the method computes `NthFromFront` on the iterator's interval, and updates the interval to what is left |
| `IntervalIter.IntervalIterator.InternalNthBack` | src/iterator.rs:62-98 | the method computes `NthFromBack` on the iterator's interval, and updates the interval to what is left |
| `IntervalIter.IntervalIterator.Next` | src/iterator.rs:108-110 | `next` is `internal_nth(0)`, and is correct when an unbounded start is not beyond the upper bound |
| `IntervalIter.IntervalIterator.Nth` | src/iterator.rs:112-114 | `nth` is `internal_nth(n)` |
| `IntervalIter.IntervalIterator.NextBack` | src/iterator.rs:122-124 | `next_back` is `internal_nth_back(0)`, and is correct when an unbounded end is not below the lower bound |
| `IntervalIter.IntervalIterator.NthBack` | src/iterator.rs:126-128 | `nth_back` is `internal_nth_back(n)` |
| `IteratorExamples.CollectClosedOpen` | src/tests.rs:892-894 | `[a,b)` yields `a .. b-1` |
| `IteratorExamples.CollectClosedOpenReversed` | src/tests.rs:892-894 | and `b-1` down to `a` reversed |
| `IteratorExamples.CollectClosedClosed` | src/tests.rs:908-912 | `[a,b]` yields `a .. b` |
| `IteratorExamples.CollectClosedClosedReversed` | src/tests.rs:908-912 | and `b` down to `a` reversed |
| `IteratorExamples.CollectOpenClosed` | src/tests.rs:914-922 | `(a,b]` yields `a+1 .. b` |
| `IteratorExamples.CollectOpenClosedReversed` | src/tests.rs:914-922 | and `b` down to `a+1` reversed |
| `IteratorExamples.CollectOpenOpen` | src/tests.rs:924-932 | `(a,b)` yields `a+1 .. b-1` |
| `IteratorExamples.CollectOpenOpenReversed` | src/tests.rs:924-932 | and `b-1` down to `a+1` reversed |
| `IteratorExamples.CollectUnboundedClosed` | src/tests.rs:934-942 | `(,b]` yields `T::MIN .. b` |
| `IteratorExamples.CollectUnboundedClosedReversed` | src/tests.rs:934-942 | and `b` down to `T::MIN` reversed |
| `IteratorExamples.CollectUnboundedOpen` | src/tests.rs:944-948 | `(,b)` yields `T::MIN .. b-1` |
| `IteratorExamples.CollectUnboundedOpenReversed` | src/tests.rs:944-948 | and `b-1` down to `T::MIN` reversed |
| `IteratorExamples.CollectClosedUnbounded` | src/tests.rs:950-960 | `take(m)` of `[a,)` yields `a .. a+m-1` |
| `IteratorExamples.CollectClosedUnboundedReversed` | src/tests.rs:950-960 | and reversed, `T::MAX` downwards |
| `IteratorExamples.CollectOpenUnbounded` | src/tests.rs:962-972 | `take(m)` of `(a,)` yields `a+1 .. a+m` |
| `IteratorExamples.CollectOpenUnboundedReversed` | src/tests.rs:962-972 | and reversed, `T::MAX` downwards |
| `IteratorExamples.CollectEmpty` | src/tests.rs:974-978 | the empty interval yields nothing either way |
| `IteratorExamples.CollectDoublyUnbounded` | src/tests.rs:980-991 | `(,)` yields `T::MIN` upwards |
| `IteratorExamples.CollectDoublyUnboundedReversed` | src/tests.rs:980-991 | and reversed, `T::MAX` downwards |
| `IteratorExamples.SkipStepByExample` | src/tests.rs:998-1007 | over `u32`, skipping 1e9 and stepping by 1e9 from `(,)` yields 1e9, 2e9, 3e9 |
| `IteratorExamples.SkipStepByBackExample` | src/tests.rs:1008-1021 | reversed it yields `u32::MAX` minus 1e9, 2e9 and 3e9 |
| `IteratorExamples.NextClosedOpen` | src/tests.rs:897-900 | `next` on `[a,b)` returns `a` and leaves `[a+1,b)` |
| `IteratorExamples.NextBackClosedOpen` | src/tests.rs:897-900 | `next_back` on `[a,b)` returns `b-1` and leaves `[a,b-1)` |
| `IteratorExamples.NextOpenClosed` | src/tests.rs:914-922 | `next` on `(a,b]` returns `a+1` and leaves `(a+1,b]` |
| `IteratorExamples.NextBackOpenClosed` | src/tests.rs:914-922 | `next_back` on `(a,b]` returns `b` and leaves `(a,b-1]` |
| `IteratorExamples.NextOpenOpen` | src/tests.rs:924-932 | `next` on `(a,b)` returns `a+1` and leaves `(a+1,b)` |
| `IteratorExamples.NextBackOpenOpen` | src/tests.rs:924-932 | `next_back` on `(a,b)` returns `b-1` and leaves `(a,b-1)` |
| `IteratorExamples.NextUnboundedClosed` | src/tests.rs:934-942 | `next` on `(,b]` returns `T::MIN` and leaves `[T::MIN+1,b]` |
| `IteratorExamples.NextBackClosedClosed` | src/tests.rs:934-942 | `next_back` on `[a,b]` returns `b` and leaves `[a,b-1]` |
| `IteratorExamples.AlternatingScenario` | src/tests.rs:902-906 | on `[a,a+3)` over `u32`, `next`, `next_back`, `next`, `next_back` return `a`, `a+2`, `a+1`, None |
| `IteratorExamples.AsIntervalClosedOpen` | src/tests.rs:897-900 | after `next` and `next_back` on `[a,b)` over `u32`, `as_interval` is `[a+1,b-1)` |
| `IteratorExamples.AsIntervalOpenClosed` | src/tests.rs:914-922 | the same on `(a,b]` over `i32` leaves `(a+1,b-1]` |
| `IteratorExamples.AsIntervalOpenOpen` | src/tests.rs:924-932 | the same on `(a,b)` over `i8` leaves `(a+1,b-1)` |
| `IteratorExamples.AsIntervalUnboundedClosed` | src/tests.rs:934-942 | the same on `(,b]` over `u16` returns 0 and `b`, and leaves `[1,b-1]` |

## Definitions

Some members are plain definitions of what a source function computes and carry no contract of
their own. Each one's meaning is stated by the members in the last column, whose rows are in the
table above.

| definition | source | stated by |
|---|---|---|
| `Intervals.Interval.Contains` | src/intervals.rs:355-360 | `IntervalProperties.EmptyIffNoValue`, `IntervalProperties.ContainsExamples`, and every constructor's contract |
| `Intervals.Interval.ContainsInterval` | src/intervals.rs:364-370 | `IntervalProperties.ContainsIntervalIsSubset` |
| `Intervals.Interval.Equivalent` | src/intervals.rs:380-391 | `IntervalProperties.EquivalentIsSameValues` |
| `Intervals.Interval.StrictlyLeftOfPoint` | src/intervals.rs:399-404 | `IntervalProperties.StrictlyLeftOfPointMeaning` |
| `Intervals.Interval.StrictlyRightOfPoint` | src/intervals.rs:412-417 | `IntervalProperties.StrictlyRightOfPointMeaning` |
| `Intervals.Interval.StrictlyLeftOfInterval` | src/intervals.rs:467-472 | `IntervalProperties.StrictlyLeftOfIntervalMeaning` |
| `Intervals.Interval.StrictlyRightOfInterval` | src/intervals.rs:476-481 | `IntervalProperties.StrictlyRightOfIntervalMeaning` |
| `Intervals.Interval.LeftOfInterval` | src/intervals.rs:447-453 | `IntervalProperties.LeftOfIntervalCounterexample`, `IntervalProperties.LeftOfIntervalRepresentationCounterexample`, `IntervalProperties.LeftOfIntervalAsWrittenSound` |
| `Intervals.Interval.RightOfInterval` | src/intervals.rs:457-463 | `IntervalProperties.RightOfIntervalCounterexample`, `IntervalProperties.RightOfIntervalRepresentationCounterexample`, `IntervalProperties.RightOfIntervalAsWrittenSound` |
| `Intervals.Interval.LeftOfIntervalIntended` | src/intervals.rs:444-446 | `IntervalProperties.LeftOfIntervalIntendedMeaning` |
| `Intervals.Interval.RightOfIntervalIntended` | src/intervals.rs:454-455 | `IntervalProperties.RightOfIntervalIntendedMeaning` |
| `Intervals.Interval.IsSingle` | src/intervals.rs:490-498 | `IntervalProperties.IsSingleMeaning`, `Intervals.Single` |
| `Intervals.Interval.Lower` | src/intervals.rs:272-274 | `IntervalProperties.InclusiveExamples` |
| `Intervals.Interval.Upper` | src/intervals.rs:292-294 | `IntervalProperties.InclusiveExamples` |
| `Intervals.Interval.Intersects` | src/intervals.rs:593-601 | `IntervalProperties.IntersectsMeaning` |
| `Intervals.Interval.Contiguous` | src/intervals.rs:648-657 | `IntervalProperties.ContiguousMeaning` |
| `Intervals.Interval.StrictlyLeftNotContiguous` | src/multi_joining.rs:44 | `IntervalSeqs.JoinedIsSeparated`, `Joining.JoinJoined` |
| `Intervals.ConvexHull` | src/intervals.rs:502-516 | `IntervalProperties.HullContainsBoth`, `IntervalProperties.HullIsSmallest` |
| `Intervals.Intersection` | src/intervals.rs:617-625 | `IntervalProperties.IntersectionMeaning` |
| `Intervals.Between` | src/intervals.rs:632-644 | `IntervalProperties.BetweenMeaning` |
| `Intervals.Union` | src/intervals.rs:669-678 | `IntervalProperties.UnionSomeMeaning`, `IntervalProperties.UnionNoneMeaning` |
| `Intervals.IntervalCompare` | src/intervals.rs:1039-1063 | `IntervalProperties.CompareEmptyCounterexample`, `IntervalProperties.IntervalLeLower`, `Intervals.IntervalCompareFixed` |
| `Intervals.IntervalLe` | src/intervals.rs:1065-1072 | `IntervalProperties.IntervalLeTotal`, `IntervalProperties.IntervalLeTransitive` |
| `Pairs.Difference` | src/intervals.rs:531-549 | `Pairs.DifferenceMeaning`, `Pairs.DifferenceLeftMostFirst` |
| `Pairs.SymmetricDifference` | src/intervals.rs:565-589 | `Pairs.SymmetricDifferenceMeaning`, `Pairs.SymmetricDifferenceLeftMostFirst`, `Pairs.SymmetricDifferenceSymmetric` |
| `IntervalParse.Display` | src/intervals.rs:1099-1122 | `IntervalParse.DisplayRoundTrip`, `IntervalParse.DisplayExamples` |
| `IntervalParse.ScanStep` | src/intervals.rs:1152-1183 | `IntervalParse.FromStr`, `IntervalParse.FromStrTwoFields`, `IntervalParse.FromStrPadded` |
| `IntervalParse.Build` | src/intervals.rs:1185-1199 | `IntervalParse.DisplayRoundTrip` and the `FromStr` examples |
| `LeftMostIter.Merged` | src/leftmostiter.rs:42-55 | `LeftMostIter.MergedIsPermutation`, `LeftMostIter.MergedIsInterleaving`, `LeftMostIter.MergedHead`, `LeftMostIter.MergedSorted`, `LeftMostIter.LeftMostIter.Next` |
| `Joining.JoinAll`, `Joining.Join` | src/multi_joining.rs:10-31 | `Joining.DoMerge`, `Joining.JoinCovers`, `Joining.JoinJoined` |
| `Joining.AfterMerge` | src/multi_joining.rs:35-63 | `Joining.Merge`, `Joining.AfterMergeFacts` |
| `Separating.SepAll`, `Separating.Sep` | src/multi_separating.rs:10-32 | `Separating.DoMerge`, `Separating.SepFacts` |
| `Separating.AfterMerge` | src/multi_separating.rs:35-64 | `Separating.Merge`, `Separating.AfterMergeFacts` |
| `IntervalSeqs.Insert`, `IntervalSeqs.Sort` | src/multi.rs:82 | `IntervalSeqs.InsertFacts`, `IntervalSeqs.SortFacts`, `IntervalSeqs.SortKeepsSorted` |
| `IntervalSeqs.NonEmptyOnly` | src/multi.rs:75-78 | `IntervalSeqs.NonEmptyOnlyFacts` |
| `IntervalSeqs.SortedIntervals` | src/multi.rs:82 | `IntervalSeqs.SortFacts`, `IntervalSeqs.SeparatedIsSorted` |
| `Multi.AfterExtend` | src/multi.rs:70-100 | `Multi.MultiInterval.Extend`, `Multi.AfterExtendFacts` |
| `Multi.MultiInterval.Len` | src/multi.rs:24-26 | `Multi.MultiInterval.IsEmpty`, `Multi.MultiInterval.Eq` |
| `IntervalIter.NthFromFrontFixed` | src/iterator.rs:23-59 | `IntervalIter.NthFrontFixedCorrect` |
| `IntervalIter.NthFromBackFixed` | src/iterator.rs:62-98 | `IntervalIter.NthBackFixedCorrect` |
| `IntervalIter.CollectFront` | src/iterator.rs:108-110 | `IntervalIter.CollectFrontIsRange`, `IntervalIter.CollectFrontMeaning` |
| `IntervalIter.CollectBack` | src/iterator.rs:122-124 | `IntervalIter.CollectBackIsRange`, `IntervalIter.CollectBackMeaning` |
| `IntervalIter.IntervalIterator.AsInterval` | src/iterator.rs:18-20 | the `AsInterval` examples in `IteratorExamples` |
| `NothingBetween.ScalarNothingBetween` | src/nothing_between.rs:69-73 | `NothingBetween.ScalarNothingBetweenSound`, `NothingBetween.CharSurrogateGapCounterexample` |

`Wrappers.Ordering.Reverse` models Rust's `Ordering::reverse`, which is library code; `Bounds.CompareReverse` uses it.

The remaining members with contracts are proof helpers and instances of the foreign parameters, and
need no row. They are:
- `Bounds.Separator` and `Bounds.EqIsSamePosition`;
- `IntervalProperties.SomeValue`, `IntervalProperties.NonEmptyOrdered`, `IntervalProperties.FirstValue`
  and `IntervalProperties.Gap`;
- the text lemmas of `IntervalParse` not listed above, such as `AllDigitsSnoc`, `ScanDigitsSound`,
  `ScanDigitsComplete`, `TrimUnspaced`, `ParseDigits` and `ParseNegDigits`;
- `IntervalParse.ParseInt`, `IntervalParse.ShowNat` and `IntervalParse.ShowInt`, which are the integer
  instances of the `parse` and `show` parameters.

## Left out

- Floating-point points (`f32`, `f64`, and the `Mathf32` of the tests) and their `nothing_between` are not modelled. Points are mathematical integers.
- Dense domains are not modelled: every point type here has a successor.
- The `chrono` and `rust_decimal` integrations are not modelled. `src/chrono.rs` and `src/decimal.rs` are not part of this model.
- `nothing_between` for `&T` only delegates to `T`, so it is not modelled separately.
- `Hash`, `Debug`, `Clone`, `Default` and the operator overloads (`|`, `&`, `^`, `-`) are not modelled. They only forward to the operations that are.
- `from_range`, the `as_range*` conversions and `as_ref` are not modelled; they change the point type, not the intervals.
- `Bounds.Compare`: the source's `partial_cmp` returns an `Option`, but over integers it is never None, so the model returns an `Ordering`. The same holds for interval `partial_cmp` and `Ord`.
- Rust's `==` on intervals is modelled by `Equivalent` (same value set). Structural equality in the examples is Dafny `==`.
- `IntervalParse.FromStrSpec` and `IntervalParse.FromStr` require a non-empty string. The source calls `unwrap` on the first character and panics on empty input.
- `IntervalParse.FromStr` counts offsets in characters rather than UTF-8 bytes. This changes no result, since fields are always cut at ASCII characters.
- `Display` and `str::parse` of the point type are foreign code. They are parameters (`show`, `parse`). `ShowInt` models Rust's decimal text for integers. `ParseInt` models `from_str` of the integer types: an optional sign, then the digits read from left to right, where the first character that is not a digit, or the first step that leaves the type, decides the error kind.
- The serde framework (`Serializer`, `Deserializer`, the JSON text) is not modelled. `Serde.Serialize` and `Serde.Deserialize` map intervals to and from the ten variants.
- `Serde.Serialize`: its own contract only states which intervals become `Empty`; `Serde.RoundTrip` states the rest.
- The definition of the `Policy` trait that `src/multi_joining.rs` and `src/multi_separating.rs` implement is not part of this model. `MultiInterval` in `src/multi.rs` joins intervals itself in `extend_internal`. The two policies are modelled as standalone `Joining.Merge` and `Separating.Merge`.
- `IntervalSet`, `remove` and `contains_set` are not part of this model: their definitions are not in the modelled files.
- The definition of `strictly_left_not_contiguous`, which the joining merge calls, is not part of this model. It is modelled as strictly left of and not contiguous with.
- `MultiInterval::iter` is not modelled; the `items` field is read directly. Iterator inputs to `extend`, `do_merge` and `merge` are sequences.
- `merge(&mut Vec, Vec)` is modelled as a method that takes the vector and returns the new one, rather than updating a vector in place.
- `Vec::sort`, which `extend` calls, is library code. It is modelled as a stable insertion sort on sequences, `Sort`, with its sortedness and permutation proved.
- `Multi.MultiInterval.CheckInvariants` returns whether the invariant holds instead of panicking when it does not.
- `IntervalIterator` is modelled over fixed-width integers only. Its `len`, `into_iter` and the `Step` impls of non-integer types are not modelled.
- `take`, `skip`, `step_by`, `rev` and `collect` on the iterator are library adapters. They are modelled by `CollectFront`/`CollectBack` and by chains of `NthFromFront`/`NthFromBack`.
- `IntervalIter.IntervalIterator.Next` and `IntervalIter.IntervalIterator.NextBack` are proved correct only when an unbounded start (end) is not past the other bound. Outside that case the source is wrong; see Findings.
- `IntervalIter.NthCorrectWhenFound` and `IntervalIter.NthBackCorrectWhenFound` are proved only when the interval holds more than `n` values. With fewer values the source overshoots; see Findings.
- `IntervalIter.NthFromFront` and `IntervalIter.NthFromBack` state only what moves. Their correctness is stated by the lemmas above.
- `isize` and `usize` are taken to be 64 bits wide.
- `MachineInts.IntKind`: the `nothing_between` impls in `src/nothing_between.rs` cover `u8` to `i64`. The model applies the same rule to every integer type. `i128` has no `Step` impl and is not an `IntKind`.
- `NothingBetween.MachineNothingBetween` models a release build, where the subtraction wraps. A debug build panics on the same inputs.
- `Bounds.Compare`, `Bounds.Eq`, `Intervals.Interval.IsEmpty` and every `IntervalIter` operation use the exact `IntNothingBetween`, also for an `IntKind`. They differ from the source for a signed type when two bound points are further apart than `T::MAX`. For example, over `i8` the source finds `(-100, 100)` empty, because `100 - (-100)` wraps to `-56`, so `next()` gives None. The model gives `Some(-99)`. The wrap itself is shown by `NothingBetween.SignedOverflowCounterexample`.
- The integer `Step` impls are modelled by `Step.Forward` and `Step.Backward`. `min_value` and `max_value` are `IntKind.MinValue` and `IntKind.MaxValue`.
- `Intervals.Interval.LeftOfInterval` and `Intervals.Interval.RightOfInterval` as written are only sound, and only when the compared bound is finite (`LeftOfIntervalAsWrittenSound`, `RightOfIntervalAsWrittenSound`). The documented if-and-only-if does not hold for them; it is proved for `LeftOfIntervalIntended` and `RightOfIntervalIntended`. See Findings.
- Concurrency, allocation and the panics of `Display` on malformed bounds are not modelled. Those bounds cannot occur in a non-empty interval.

## Findings

| source | as written | input that shows it | evidently intended | confidence | as-written member | corrected member |
|---|---|---|---|---|---|---|
| src/nothing_between.rs:31-50 | `other - self <= 1` in the signed type, which overflows | `i8`: `-100` and `100`; `100 - (-100)` wraps to `-56`, so `(-100, 100)` is reported empty | adjacency of mathematical integers, `b - a <= 1` without overflow | not executed | `NothingBetween.SignedOverflowCounterexample` | `NothingBetween.IntNothingBetween` |
| src/nothing_between.rs:69-73 | code-point difference `<= 1` for `char` | U+D7FF and U+E000: no `char` lies between them, yet `(U+D7FF, U+E000)` is not empty | also treat the two ends of the surrogate gap as adjacent | not executed | `NothingBetween.CharSurrogateGapCounterexample` | `NothingBetween.ScalarNothingBetweenSound` |
| src/intervals.rs:447-453 | `left_of_interval` also accepts `upper.value() == right.lower.value()` when both are None | `[1, )` is reported left of `(, 3]` | every value of the first is `<=` every value of the second | not executed | `IntervalProperties.LeftOfIntervalCounterexample` | `IntervalProperties.LeftOfIntervalIntendedMeaning` |
| src/intervals.rs:457-463 | `right_of_interval` also accepts `lower.value() == right.upper.value()` when both are None | `(, 3]` is reported right of `[1, )` | every value of the first is `>=` every value of the second | not executed | `IntervalProperties.RightOfIntervalCounterexample` | `IntervalProperties.RightOfIntervalIntendedMeaning` |
| src/intervals.rs:447-453 | `left_of_interval` compares the raw points of the two bounds, so its answer depends on how an interval is written | `[1, 4)` is not reported left of `[3, 5]`, though the equal `[1, 3]` is | compare the value sets, so that equal intervals give the same answer | not executed | `IntervalProperties.LeftOfIntervalRepresentationCounterexample` | `IntervalProperties.LeftOfIntervalIntendedMeaning` |
| src/intervals.rs:457-463 | `right_of_interval` compares the raw points of the two bounds | `[3, 5]` is not reported right of `[1, 4)`, though it is right of the equal `[1, 3]` | compare the value sets | not executed | `IntervalProperties.RightOfIntervalRepresentationCounterexample` | `IntervalProperties.RightOfIntervalIntendedMeaning` |
| src/intervals.rs:1039-1063 | `partial_cmp` returns Greater whenever the right operand is empty | `empty.partial_cmp(&empty)` is Greater, though `empty == empty` | Equal for two empty intervals | not executed | `IntervalProperties.CompareEmptyCounterexample` | `IntervalProperties.CompareFixedReverse` |
| src/iterator.rs:29-37 | from an unbounded start, `T::MIN` is returned without checking the upper bound | `(, 0)` over `u32`: `next()` returns 0 | None when the interval holds no value | not executed | `IntervalIter.UnboundedStartCounterexample` | `IntervalIter.NthFrontFixedCorrect` |
| src/iterator.rs:71-79 | from an unbounded end, `T::MAX` is returned without checking the lower bound | `(u32::MAX, )` over `u32`: `next_back()` returns `u32::MAX` | None when the interval holds no value | not executed | `IntervalIter.UnboundedEndCounterexample` | `IntervalIter.NthBackFixedCorrect` |
| src/iterator.rs:41-57 | `nth(n)` steps forward by `n` without checking the upper bound | `[1,4)` over `u32`: `nth(5)` returns 6 | None when fewer than `n + 1` values remain | not executed | `IntervalIter.OvershootCounterexample` | `IntervalIter.NthFrontFixedCorrect` |
| src/iterator.rs:80-96 | `nth_back(n)` steps backward by `n` without checking the lower bound | `[1,4)` over `i8`: `nth_back(5)` returns -2 | None when fewer than `n + 1` values remain | not executed | `IntervalIter.OvershootBackCounterexample` | `IntervalIter.NthBackFixedCorrect` |
| src/step.rs:25-30 | `step as T` truncates a step that does not fit in `T` | `u8`: `0.forward(256)` returns `Some(0)`; `[0,255].nth(256)` returns 0 | None when `x + step` is beyond `T::MAX` | not executed | `Step.StepCastCounterexample` | `Step.CheckedForward` |
