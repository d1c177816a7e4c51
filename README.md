# sets-utils, modelled in Dafny

`sets-utils` is a small JavaScript library of set algebra over the built-in
`Set`: two equality tests (`setsEqual`, `orderedSetsEqual`), four containment
tests (`isSubset`, `isProperSubset`, `isSuperset`, `isProperSuperset`) and
three constructors of new sets (`union`, `intersect`, `difference`). Each
function returns one expression built from `size`, `has`, `every`,
`filter`, `reduce` with `concat` and the `new Set(iterable)` constructor, or
delegates to another function of the library.

A JavaScript `Set` is an ordered collection: it never holds an element twice
and iterates in insertion order. The model therefore represents a set by the
sequence `[...s]` of its elements, a `seq<T>` in which no element repeats
(`Builtins.NoDups`). `T` is any type with decidable equality.

- `builtins.dfy` (module `Builtins`) models the JavaScript building blocks:
  `every` (with and without the index argument), `filter`, the
  `reduce`/`concat` fold and `new Set(iterable)`. Each one is proved against a
  declarative description. For `new Set(iterable)` that description is "no
  duplicates, the same elements, in order of first occurrence", and the
  lemma `FirstOccurrenceOrderUnique` shows that this description admits
  exactly one result.
- `sets_utils.dfy` (module `SetsUtils`) models the nine functions of
  `index.js` as the library writes them. Lemmas state what each predicate
  means in terms of element sets and sizes. The postconditions of `Union`,
  `Intersect` and `Difference` give the result's elements, the absence of
  duplicates and the result's order. The `...IsDetermined` lemmas show that
  these postconditions pin the result down completely.
- `examples.dfy` (module `SetsUtilsExamples`) restates the concrete
  scenarios of `test.js` as lemmas about the model.

The model's operations accept any sequence; that is a generalisation of the
model's own. In the JavaScript only the arguments that are merely spread may
be any iterable: the arguments of `union`, the first argument of `intersect`
and `difference`, and both arguments of `orderedSetsEqual`. Every other
argument is read through `size` or `has` and must be a `Set`. On a `Set`,
`size` is the length of `[...s]` (`Builtins.CardElems`) and `has` is
membership in it. Lemmas that depend on a set never holding an element twice
assume `NoDups` for the arguments concerned.

`orderedSetsEqual` is modelled as written. It accepts a set whose insertion
sequence is a prefix of the other's (see Findings). `OrderedSetsEqualExact`
is the comparison its documentation describes.

## Model

| member | source | states |
|---|---|---|
| `Builtins.Every` | index.js:8 | `every` with a one-argument callback is true exactly when the callback holds at every position |
| `Builtins.EveryIndexed` | index.js:26 | `every` with an `(element, index)` callback is true exactly when the callback holds of every element together with its index |
| `Builtins.Filter` | index.js:96 | `filter` keeps exactly the elements that satisfy the callback, is no longer than its input, and keeps a duplicate-free input duplicate-free |
| `Builtins.FilterOrder` | index.js:96 | filtering a duplicate-free array keeps its elements in their original relative order |
| `Builtins.ConcatAll` | index.js:87 | the `reduce`/`concat` fold starts with the first argument's elements and holds exactly the elements of all the arguments |
| `Builtins.Dedup` | index.js:87 | `new Set(iterable)` has no duplicates and holds exactly the elements of the iterable |
| `Builtins.DedupOrder` | index.js:87 | `new Set(iterable)` lists its elements in the order of their first occurrences in the iterable |
| `Builtins.DedupPrefix` | index.js:87 | `new Set` of a prefix of an iterable is a prefix of `new Set` of the whole iterable, so later input never reorders earlier elements |
| `Builtins.DedupNoDups` | index.js:97 | `new Set` of a duplicate-free array is an identical copy of it |
| `Builtins.CardElems` | index.js:36 | a sequence has at least as many positions as distinct elements, and exactly as many when it is duplicate-free, so a set's `size` is the number of its elements |
| `Builtins.FirstOccurrenceOrderUnique` | index.js:87 | two duplicate-free sequences with the same elements, both in first-occurrence order of the same input, are equal |
| `SetsUtils.SetsEqual` | index.js:7-8 | `setsEqual`: equal sizes and every element of `a` in `b`; no contract of its own, `SetsEqualMeaning` gives its meaning |
| `SetsUtils.OrderedSetsEqual` | index.js:24-27 | `orderedSetsEqual` as written, every position of `a` matched in `b`; no contract of its own, `OrderedSetsEqualMeaning` gives its meaning |
| `SetsUtils.OrderedSetsEqualExact` | index.js:10-16 | the comparison the documentation describes, equal sizes added to the positional test; no contract of its own, `OrderedSetsEqualExactMeaning` gives its meaning |
| `SetsUtils.IsSubset` | index.js:35-36 | `isSubset`: size guard and every element of `a` in `b`; no contract of its own, `IsSubsetMeaning` gives its meaning |
| `SetsUtils.IsProperSubset` | index.js:50-51 | `isProperSubset`: strictly smaller and a subset; no contract of its own, `IsProperSubsetMeaning` gives its meaning |
| `SetsUtils.IsSuperset` | index.js:59 | `isSuperset` delegates to `isSubset` with the arguments swapped; no contract of its own, `Duality` and `IsSupersetMeaning` give its meaning |
| `SetsUtils.IsProperSuperset` | index.js:73 | `isProperSuperset` delegates to `isProperSubset` with the arguments swapped; no contract of its own, `Duality` and `IsSupersetMeaning` give its meaning |
| `SetsUtils.SetsEqualMeaning` | index.js:7-8 | `setsEqual(a, b)` holds iff the sizes are equal and every element of `a` is in `b`; for duplicate-free arguments this is equality of the element sets, in whatever order |
| `SetsUtils.EveryInMeaning` | index.js:8 | `[...a].every(e => b.has(e))` holds iff the elements of `a` are among those of `b` |
| `SetsUtils.OrderedSetsEqualMeaning` | index.js:24-27 | `orderedSetsEqual(a, b)` holds iff `a` is a prefix of `b`; for equal sizes this is iff `a` and `b` are the same sequence |
| `SetsUtils.OrderedSetsEqualExactMeaning` | index.js:10-16 | the comparison the documentation describes holds iff both insertion sequences are identical, and it implies `setsEqual` |
| `SetsUtils.OrderedSetsEqualAcceptsPrefix` | index.js:24-27 | as written, `orderedSetsEqual({1,2}, {1,2,3})` is true although `setsEqual` and the exact comparison are false |
| `SetsUtils.IsSubsetMeaning` | index.js:35-36 | `isSubset(a, b)` implies that the elements of `a` are among those of `b`; for a duplicate-free `a` the size guard is implied, and the test is iff containment |
| `SetsUtils.SubsetReflexive` | index.js:35-51 | every set is a subset of itself and never a proper subset of itself |
| `SetsUtils.IsProperSubsetMeaning` | index.js:50-51 | `isProperSubset(a, b)` implies containment and `size(a) < size(b)`; for duplicate-free arguments it holds iff the elements of `a` form a strict subset of those of `b`, so two sets with the same elements in any order are never proper subsets of each other |
| `SetsUtils.Duality` | index.js:59-73 | `isSuperset(a, b) == isSubset(b, a)` and `isProperSuperset(a, b) == isProperSubset(b, a)` for all arguments |
| `SetsUtils.IsSupersetMeaning` | index.js:59-73 | for a duplicate-free `b`, `isSuperset(a, b)` is containment of `b`'s elements in `a`'s, and, for both duplicate-free, `isProperSuperset(a, b)` is strict containment |
| `SetsUtils.SubsetAntisymmetric` | index.js:7-59 | for duplicate-free arguments, being a subset and a superset at once is `setsEqual` |
| `SetsUtils.Union` | index.js:86-87 | `union(...sets)` has no duplicates, holds exactly the elements of all its arguments, and lists them in order of first occurrence across the arguments in call order |
| `SetsUtils.UnionIsDetermined` | index.js:86-87 | any duplicate-free sequence with those elements, in that order, is the union |
| `SetsUtils.UnionIdentity` | index.js:86-87 | `union()` is empty; `union(a)` and `union(a, {})` are copies of `a` in the same order |
| `SetsUtils.UnionWithSubset` | index.js:86-87 | the union of `a` with a set whose elements `a` already has is exactly `a` |
| `SetsUtils.UnionSetsEqual` | index.js:86-87 | a union is `setsEqual` to any set holding exactly the elements of its arguments |
| `SetsUtils.UnionKeepsFirstArgument` | index.js:86-87 | the union starts with the first argument, in its own order |
| `SetsUtils.Intersect` | index.js:94-98 | `intersect(...sets)`, at least one argument, has no duplicates, holds exactly the elements common to all arguments, and keeps the first argument's order |
| `SetsUtils.DedupElems` | index.js:87 | `new Set(iterable)` has exactly the element set of the iterable |
| `SetsUtils.ConcatAllElems` | index.js:87 | the `reduce`/`concat` fold has exactly the elements of all the arguments |
| `SetsUtils.IntersectElems` | index.js:96 | the filter `e => rest.every(s => s.has(e))` keeps exactly the elements common to all arguments |
| `SetsUtils.IntersectIsDetermined` | index.js:94-98 | any duplicate-free sequence holding the common elements in the first argument's order is the intersection |
| `SetsUtils.IntersectIdentities` | index.js:94-98 | `intersect(a)` is a copy of `a`, and `intersect(a, {})` is empty |
| `SetsUtils.Difference` | index.js:110 | `difference(a, b)` has no duplicates, holds exactly the elements of `a` that are not in `b`, and keeps `a`'s order |
| `SetsUtils.DifferenceIsDetermined` | index.js:110 | any duplicate-free sequence holding the elements of `a` missing from `b`, in `a`'s order, is the difference |
| `SetsUtils.DifferenceEmpty` | index.js:110 | `difference(a, b)` is empty iff the elements of `a` are among those of `b`, and in particular whenever `isSubset(a, b)` |
| `SetsUtils.DifferenceNotCommutative` | index.js:110 | `difference(a, b)` equals `difference(b, a)` iff `a` and `b` have the same elements, and in that case both differences are empty |
| `SetsUtilsExamples.SetsEqualScenarios` | test.js:5-26 | `{1,2,3,4}` equals `{2,4,3,1}` but neither `{2,3,4,1,5}` nor `{1,2,3,5}` |
| `SetsUtilsExamples.OrderedSetsEqualScenarios` | test.js:28-42 | `{1,2,3,4}` is order-equal to itself but not to `{2,4,3,1}` |
| `SetsUtilsExamples.ContainmentScenarios` | test.js:44-151 | the subset, proper subset, superset and proper superset outcomes of the test suite |
| `SetsUtilsExamples.UnionArgumentsElems` | test.js:153-164 | the six sets of the union test hold exactly the numbers 1 to 10 |
| `SetsUtilsExamples.UnionDedupScenario` | test.js:161-167 | the union of those six sets holds exactly the numbers 1 to 10; that each occurs once is `Union`'s own no-duplicates postcondition |
| `SetsUtilsExamples.UnionScenarios` | test.js:169-183 | `union({1,2,3}, {1,2})` and `union({1,2,3}, {})` are `{1,2,3}` |
| `SetsUtilsExamples.IntersectTwoScenario` | test.js:195-201 | `intersect({1,2,3}, {2,4,5,10})` is `{2}` |
| `SetsUtilsExamples.IntersectEmptyScenarios` | test.js:203-217 | intersecting with `{}`, or two disjoint sets, gives `{}` |
| `SetsUtilsExamples.IntersectThreeScenario` | test.js:219-225 | `intersect({1,2,3}, {2,4,5,10}, {1,2})` is `{2}` |
| `SetsUtilsExamples.DifferenceEqualScenario` | test.js:234-240 | the difference of two sets with the same elements is `{}` |
| `SetsUtilsExamples.DifferenceSubsetScenario` | test.js:250-256 | `difference({1,2,3,4}, {1,2,3})` is `{4}` |
| `SetsUtilsExamples.DifferenceScenario` | test.js:258-264 | `difference({1,5,6,4}, {2,4,3,1})` is `{5,6}` |
| `SetsUtilsExamples.DifferenceSwappedScenario` | index.js:110 | `difference({1,2,3,4}, {1,5,6,4})` is `{2,3}`, unlike the swapped call |

## Left out

- JavaScript equality details are not modelled. `Set.prototype.has` uses SameValueZero, while `orderedSetsEqual` uses `===`. The two differ only for `NaN`. Treatment of `-0` and object identity is also not modelled. The model compares elements with Dafny's `==`.
- `undefined` as a set element is not modelled. Past the end of `b`, `orderedSetsEqual` reads `bArr[i]` as `undefined`, so an `undefined` element of `a` there would compare equal. In the model, a position past the end of `b` never matches.
- `intersect()` with no arguments throws a `TypeError`. The model excludes that call with the precondition `|sets| >= 1` instead of modelling the exception.
- Allocation is not modelled: each constructor returns a fresh `Set`, but the model's results are values. Inputs are never mutated, which values capture directly.
- The short-circuit evaluation of `every` is not modelled. The callbacks are pure, so it cannot be observed.
- `SetsUtils.Intersect`: the order postcondition is stated only for a duplicate-free first argument. Every `Set` is duplicate-free.
- `SetsUtils.Difference`: the order postcondition is stated only for a duplicate-free first argument. Every `Set` is duplicate-free.
- Non-`Set` arguments where the library reads `size` or calls `has` are not modelled: both arguments of `setsEqual`, `isSubset`, `isProperSubset`, `isSuperset` and `isProperSuperset`, the later arguments of `intersect` and the second argument of `difference`. With arrays there, `size` is `undefined` and `has` throws, so for example `isSubset([1], [1, 2])` is false in JavaScript; the model reads every argument as a sequence of elements.
- The type declarations in `index.d.ts` carry no behaviour.
- The test harness of `test.js` is not modelled. Its scenarios are restated as lemmas.
- `SetsUtilsExamples.UnionDedupScenario`: states the six-argument union's elements. It does not restate the `setsEqual` call itself; `SetsUtils.UnionSetsEqual` gives that step for any arguments.

## Findings

| source | as written | input that shows it | evidently intended | confidence | as-written member | corrected member |
|---|---|---|---|---|---|---|
| index.js:24-27 | `[...a].every((e, i) => bArr[i] === e)` checks only `a`'s positions and never compares sizes, so it accepts any `a` whose insertion sequence is a prefix of `b`'s | `orderedSetsEqual(new Set([1, 2]), new Set([1, 2, 3]))` is `true` | true only when both sets hold the same elements in the same insertion order (the documentation at index.js:10-16) | high, not executed | `SetsUtils.OrderedSetsEqualAcceptsPrefix` | `SetsUtils.OrderedSetsEqualExactMeaning` |
