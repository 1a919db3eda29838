# Verified model of the `slices` utility package

The package `server/util/slices` is a set of generic helpers over Go slices.
They cover removal and linear search, `Filter`/`Map`/`Reduce`, `Some`/`Every`,
and numeric aggregates (`Max`, `Min`, `Sum`, `Average`). They also cover
order-preserving de-duplication (`Unique`, `UniqueBy`), building maps
(`Associate*`), separator insertion (`Intersperse*`) and an in-place
Fisher–Yates `Shuffle`.

The model has three modules:

- `SliceSpec` (`slice_spec.dfy`) gives reference definitions as recursive
  functions. These are `FirstIndex`, `RemoveFirst`, `Filtered`, `Matching`,
  `Total`, `TruncDiv`, `FoldLeft`, `Dedup`, `HasKey`, `FirstKeyIndex` and
  `DedupBy`. The module also holds the lemmas that state what the package
  promises about them.
- `Slices` (`slices.dfy`) has one member per Go function. Each member keeps
  the shape of the Go code: the same loops, early returns and `break`, the
  map of first-seen ranks in `Unique`/`UniqueBy`, and the swap loop of
  `Shuffle`. Each member is proved against a property stated outright or
  against a `SliceSpec` function.
- `SliceExamples` (`slice_examples.dfy`) has callers that check examples
  using the contracts alone. Two come from the doc-comments: the
  `IntersperseBy` example ("after first", lines 245-247) and the
  `IntersperseByIndex` example ("after 0", lines 263-265). The others are
  extra examples written for this model, such as
  `Unique([1,2,2,3,1]) == [1,2,3]`, `Associate(["a","a"], [1,2]) == {"a": 2}`
  and `Average([-3,-4]) == -3`.

How the model represents Go values:

- A slice the Go function only reads is a `seq`.
- A slice that `copy`, `Remove` or `RemoveAt` copies, or that `Shuffle`
  changes, is an `array`. These members have no `modifies` clause on the
  caller's array, except `Shuffle`. So "the caller's slice is not altered" is
  checked by Dafny's framing.
- `numeric` is mathematical `int`.
- A Go callback is a total Dafny function.

In `Unique` and `UniqueBy`, range-over-map is modelled by picking an
arbitrary key that is still pending (`k :| k in pending`), so the proof holds
for every iteration order. A ghost set `written` checks that each result
index is written exactly once. At the end it equals `{0, ..., i-1}`.

## Model

| member | source | states |
|---|---|---|
| Slices.Copy | server/util/slices/slices.go:5-7 | the result is a fresh array holding the same elements as the argument |
| Slices.ShiftLeft | server/util/slices/slices.go:26 | `append(c[:i], c[i+1:]...)` on the owned copy: the first `len-1` cells become `c[..i] + c[i+1..]` |
| Slices.Remove | server/util/slices/slices.go:9-20 | the result is `RemoveFirst(slice, item)`; the caller's array is not modified |
| SliceSpec.RemoveFirstAt | server/util/slices/slices.go:13-16 | if `k` is the first position holding `x`, removing `x` gives `s[..k] + s[k+1..]` |
| SliceSpec.RemoveFirstAbsent | server/util/slices/slices.go:9-19 | if `x` does not occur, `Remove` returns an equal copy |
| SliceSpec.RemoveFirstIsRemoveAtFirstIndex | server/util/slices/slices.go:11-27 | `Remove(s, x)` equals `RemoveAt(s, IndexOf(s, x))` when `x` occurs |
| SliceSpec.RemoveFirstCount | server/util/slices/slices.go:9-20 | length drops by one exactly when `x` occurs; the multiset loses exactly one `x` |
| Slices.RemoveAt | server/util/slices/slices.go:22-27 | for `0 <= index < len`, the result is `slice[..index] + slice[index+1..]`, one shorter, and loses one copy of `slice[index]`; caller's array unchanged |
| SliceSpec.DeleteAtCount | server/util/slices/slices.go:24-27 | deleting at `k` shortens by one and drops one copy of `s[k]` from the multiset |
| Slices.Contains | server/util/slices/slices.go:51-60 | true if and only if `item` is in the slice |
| Slices.IndexOf | server/util/slices/slices.go:62-71 | -1 if and only if `item` is absent (that is, exactly when `Contains` is false); otherwise the smallest index holding `item` |
| SliceSpec.FirstIndex | server/util/slices/slices.go:62-71 | for a present `x`, a position holding `x` with no `x` before it |
| Slices.Filter | server/util/slices/slices.go:29-39 | the result is `Filtered(slice, f)` |
| SliceSpec.MatchingExact | server/util/slices/slices.go:33-37 | the kept positions are strictly increasing, all satisfy `f`, and include every position that satisfies `f` |
| SliceSpec.FilteredAtMatching | server/util/slices/slices.go:29-39 | element `k` of the filter result is the element at the k-th satisfying position: exactly the satisfying elements, in original relative order |
| SliceSpec.FilteredMembers | server/util/slices/slices.go:29-39 | `x` is in the result if and only if `x` is in the slice and `f(x)` holds |
| Slices.Map | server/util/slices/slices.go:41-49 | same length, and `result[i] == f(slice[i])` |
| Slices.Max | server/util/slices/slices.go:77-90 | 0 on an empty slice; otherwise an element of the slice that is `>=` every element |
| Slices.Min | server/util/slices/slices.go:92-105 | 0 on an empty slice; otherwise an element of the slice that is `<=` every element |
| Slices.Sum | server/util/slices/slices.go:107-115 | the result is `Total(slice)`, which is 0 for an empty slice |
| SliceSpec.TotalBounds | server/util/slices/slices.go:107-115 | if every element lies in `[lo, hi]`, the sum lies in `[n*lo, n*hi]` |
| SliceSpec.TotalIsFoldLeft | server/util/slices/slices.go:109-115 | `Sum` is `Reduce` with `+` starting from 0 |
| SliceSpec.TruncDiv | server/util/slices/slices.go:120 | Go's integer `/` rounds toward zero: `b*q <= a < b*(q+1)` for `a >= 0`, `b*(q-1) < a <= b*q` for `a < 0` |
| Slices.Average | server/util/slices/slices.go:117-121 | for a non-empty slice, the sum divided by the length, rounded toward zero |
| Slices.AverageBetween | server/util/slices/slices.go:117-121 | the average lies between any lower and upper bound of the elements, so between `Min` and `Max` |
| SliceExamples.AverageExamples | server/util/slices/slices.go:119-120 | `Average([1,2,3]) == 2` and `Average([-3,-4]) == -3` (truncation, not flooring) |
| Slices.Reduce | server/util/slices/slices.go:167-174 | the result is the left fold `FoldLeft(slice, initial, f)` |
| SliceSpec.FoldLeftConcat | server/util/slices/slices.go:168-174 | folding `a + b` folds `b` starting from the fold of `a` |
| Slices.Some | server/util/slices/slices.go:176-185 | true if and only if some element satisfies `f`, so false on an empty slice |
| Slices.Every | server/util/slices/slices.go:187-196 | true if and only if every element satisfies `f`, so true on an empty slice |
| Slices.Unique | server/util/slices/slices.go:123-139 | the result is `Dedup(slice)`, rebuilt from the rank map in any key order, each index written once |
| SliceSpec.DedupMembers | server/util/slices/slices.go:123-139 | `Unique` keeps exactly the set of elements of the input |
| SliceSpec.DedupDistinct | server/util/slices/slices.go:123-139 | `Unique` has no duplicates |
| SliceSpec.DedupFirstOccurrenceOrder | server/util/slices/slices.go:123-139 | the elements of `Unique` are ordered by their first index in the input |
| Slices.UniqueBy | server/util/slices/slices.go:146-165 | the result is `DedupBy(slice, f)`, rebuilt from the map of `(rank, value)` pairs in any key order, each index written once |
| SliceSpec.DedupIsDedupByIdentity | server/util/slices/slices.go:123-165 | `Unique(s)` equals `UniqueBy(s, identity)` |
| SliceSpec.FirstKeyIndex | server/util/slices/slices.go:153-158 | for a present key, a position with that key and no earlier position with it |
| SliceSpec.DedupByKeys | server/util/slices/slices.go:146-165 | the result has exactly the keys of the input |
| SliceSpec.DedupByDistinctKeys | server/util/slices/slices.go:146-165 | no two elements of the result share a key |
| SliceSpec.DedupByFirstOfKey | server/util/slices/slices.go:146-165 | each kept element is the first input element with its key, and the kept elements are ordered by that first position |
| Slices.Associate | server/util/slices/slices.go:198-208 | key `k` is present if and only if `k == keys[i]` for some `i < min(len(keys), len(values))`; its value is `values[j]` for the last such `j` |
| Slices.AssociateBy | server/util/slices/slices.go:210-217 | the keys are exactly the elements of `keys`, each mapped to `valueGenerator(k)` |
| Slices.AssociateReverseBy | server/util/slices/slices.go:219-226 | the keys are exactly the generated keys; each maps to the last value with that key |
| Slices.Intersperse | server/util/slices/slices.go:228-240 | empty gives empty; otherwise length `2n-1`, `result[2k] == values[k]`, `result[2k+1] == separator` |
| Slices.IntersperseBy | server/util/slices/slices.go:242-258 | as `Intersperse`, but `result[2k+1] == separatorGenerator(values[k])`, from the preceding element |
| Slices.IntersperseByIndex | server/util/slices/slices.go:260-276 | as `Intersperse`, but `result[2k+1] == separatorGenerator(k)`, from the preceding index |
| Slices.Shuffle | server/util/slices/slices.go:278-284 | only the given array changes, and its multiset of elements is unchanged, whatever `j` in `[0, i]` each step picks |

## Left out

- `rand.Intn` (line 281) is left out. Each step picks an arbitrary `j` with `0 <= j <= i` (`var j :| ...`). The proof therefore covers every sequence of random draws.
- Slices.Shuffle: the contract states a permutation only. The claim that Fisher–Yates gives a uniformly random permutation is about probability, and the model cannot state it.
- Floating-point and unsigned members of `numeric` (line 74) are not modelled. `Max`, `Min`, `Sum` and `Average` are over mathematical `int`.
- Slices.Sum: has no fixed-width overflow or wrap-around.
- Slices.Average: has no fixed-width arithmetic. In Go, `Sum` can wrap, and the divisor `T(len(slice))` (line 120) is a narrowing conversion. For `int8`, a length of 128 gives a divisor of -128, and a length of 256 gives a divisor of 0, which panics on a non-empty slice. The model divides by the true length.
- Element and key equality (`Contains`, `IndexOf`, `Remove`, `Unique`, `UniqueBy`, `Associate*`) is Dafny's reflexive `==`. Go's `==` is not reflexive for floating-point NaN: `Contains([NaN], NaN)` is false, and a NaN map key is never found again. In `Unique`, `have[k]` (line 136) then misses for a NaN key and writes index 0. Go's `==` also panics on interface values whose dynamic type is not comparable. Neither behaviour is modelled, and the order-independence proof of `Unique`/`UniqueBy` holds for reflexive equality only.
- The panics of `RemoveAt` on an out-of-range index and of `Average` on an empty slice are preconditions. The panics themselves are not modelled.
- Go's nil-versus-empty distinction is not modelled. `Filter` and `Map` return nil when nothing is appended, and the model returns the empty sequence.
- Capacity sharing of `append` is not modelled. `Remove`/`RemoveAt` return a slice that shares the copy's backing array, and the model returns the copy's first `len-1` cells as a sequence.
- The `any` boxing in `uniquePair` and the type assertion `p.value.(T)` (lines 141-144, 162) are not modelled. `Pair<T>` stores the element directly.
- Callbacks passed to `Filter`, `Map`, `Reduce`, `Some`, `Every`, `UniqueBy`, `Associate*` and `Intersperse*` are total pure functions. A callback that panics or has side effects is not modelled.
- The `comparable` bound on the element type of `RemoveAt`, `Some` and `Every` (lines 24, 178, 189) is unused by their bodies and is dropped.
