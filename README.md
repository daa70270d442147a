# downdash collection kernel in Dafny

This project models the collection kernel of downdash. The kernel is one file: `src/downdash-easy.js`. Everything rests on one traversal primitive, `_.each`, which visits the elements of an array in ascending index order and does nothing for a `null` or absent collection. `_.reduce` folds over that traversal. `_.map`, `_.filter`, `_.at`, `_.every`, `_.includes` and `_.partition` are each a fold from a seed, or a loop that pushes to a fresh array. `_.indexOf` is a separate linear search that returns early.

Everything is in one module, `Downdash` (`downdash.dfy`):

- A collection is `Collection<T> = Absent | Array(items)`. `Elements` gives the visited elements, and `[]` for `Absent`.
- JavaScript's `undefined` is explicit: `Js<T> = Undefined | Defined(value)`.
- Each operation is a method whose loop follows the source step by step. Its postcondition ties the result to a recursive specification function (`Mapped`, `Reduced`, `Filtered`, `Picked`, `AllPass`, `Found`, `Partitioned`, `FirstIndex`). The specification functions of the folds recurse on the last element, so each is the left fold of the source's callback over the elements in index order. `FirstIndex` specifies the search that returns early, and recurses on the first element. What the library promises is proved about them: in their own postconditions and in lemmas.
- `each` returns nothing and only calls its iterator. The model's `Each` returns the calls it makes, as `(element, index)` pairs, in order.
- `every` returns the callback's raw result. It is modelled twice. `Every` takes a predicate whose results are booleans. For such predicates it is exactly the source, and it is the corrected version named under Findings. `EveryAsWritten` is built literally on `Reduced` over a small set of JavaScript values (`Prim`, with `Truthy`). It exhibits what the raw result does when a predicate returns `undefined` (see Findings).
- In the source, `filter`, `at`, `includes` and `partition` call `reduce` with a seed that is never `undefined`, and their callbacks never return `undefined`. `ReduceWithSeedIsFold` proves that `reduce` is then the plain left fold of the callback. Each of these operations is modelled as its own loop over its own accumulator type, because the accumulator types differ from the element types. For `filter` and `partition` the link is also proved directly: `FilterIsReduce` and `PartitionIsReduce` run `Reduced` over one value type (`Value`: an element, the results array, or the pair of groups) with the source's callbacks, and get `Filtered` and `Partitioned`.
- `every` also calls `reduce`, but its callback returns the predicate's raw result, which can be `undefined`. So `ReduceWithSeedIsFold` does not apply to it. `EveryAsWritten` models that call to `reduce` literally.
- Predicates are total functions `T -> bool`. `p(x)` stands for the truthiness of the JavaScript predicate's result. `filter` and `partition` only test truthiness.
- The library's documentation names an alias `all` for `every` (comment at line 121). The file never assigns `_.all`, so the model has no alias.

## Model

| member | source | states |
|---|---|---|
| `Downdash.Each` | src/downdash-easy.js:20-31 | an absent collection gives no iterator calls; an array gives exactly one call per index 0..length-1, in ascending order, with (element, index) |
| `Downdash.FirstIndex` | src/downdash-easy.js:40-45 | the result is -1 exactly when no element equals the value; otherwise it is an index holding the value, and no earlier index holds it |
| `Downdash.IndexOf` | src/downdash-easy.js:40-45 | the ascending scan with early return yields exactly `FirstIndex`: the least matching index, or -1 |
| `Downdash.IndexOfExamples` | src/downdash-easy.js:36-38 | `indexOf([1,2,1,2], 2) == 1` and `indexOf([1,2,3], 9) == -1` |
| `Downdash.Mapped` | src/downdash-easy.js:58-64 | the result has the input's length, and position i holds the transform of element i |
| `Downdash.Map` | src/downdash-easy.js:58-64 | pushing the transform of each visited element yields `Mapped` of the elements; an absent collection yields `[]` |
| `Downdash.MapExample` | src/downdash-easy.js:50-56 | `map([1,2], n => n*3) == [3,6]` |
| `Downdash.MapConcat` | src/downdash-easy.js:58-64 | order is preserved: mapping a concatenation is the concatenation of the two mappings |
| `Downdash.Reduce` | src/downdash-easy.js:75-81 | the loop's accumulator, tested against `undefined` at every element, ends as `Reduced`: the seed for no elements, otherwise `ReduceStep` (the step of lines 77-78) applied in index order |
| `Downdash.ReduceWithSeedIsFold` | src/downdash-easy.js:75-81 | with a defined seed and a callback that never returns `undefined`, reduce is the left fold of the callback over all elements, and the result is defined |
| `Downdash.ReduceWithoutSeed` | src/downdash-easy.js:76-78 | without a seed, the first (defined) element is the initial accumulator and is not passed to the callback; the callback folds the remaining elements into it |
| `Downdash.ReduceRestartsAfterUndefined` | src/downdash-easy.js:77-78 | whenever the accumulator is `undefined`, including in the middle of the fold, `ReduceStep` makes the next element the accumulator |
| `Downdash.ReduceExamples` | src/downdash-easy.js:69-73 | `reduce([1,2], +) == 3`, `reduce([1,2,3], +) == 6`, `reduce([1,2,3], +, 10) == 16`, and `reduce([], +)` is `undefined` |
| `Downdash.Filtered` | src/downdash-easy.js:92-99 | the result is no longer than the input; every kept element is an input element that passes; every input element that passes is kept |
| `Downdash.Filter` | src/downdash-easy.js:92-99 | pushing each visited element the predicate accepts yields `Filtered` of the elements |
| `Downdash.FilterConcat` | src/downdash-easy.js:92-99 | relative order is kept: filtering a concatenation is the concatenation of the two filterings |
| `Downdash.FilterIdempotent` | src/downdash-easy.js:92-99 | filtering a filtered array again by the same predicate changes nothing |
| `Downdash.FilterIsReduce` | src/downdash-easy.js:92-99 | `reduce` from `[]` with `FilterCallback`, the callback that pushes each accepted value, returns exactly the array `Filtered` describes |
| `Downdash.FilterExample` | src/downdash-easy.js:86-90 | `filter([4,5,6], even) == [4,6]` |
| `Downdash.Picked` | src/downdash-easy.js:112-115 | one output per key, in the order of the keys, each `collection[key]` (`Get`): for an integer key, the element at that position when it is in range and `undefined` otherwise; for a one-element array key, the element at the position it names when in range; for any other array key, `undefined` |
| `Downdash.At` | src/downdash-easy.js:108-116 | after `Unpack` lets a leading array argument replace all the arguments as the list of indices, pushing `collection[index]` for each index yields `Picked` of the collection and the indices |
| `Downdash.AtPacksOrSpreads` | src/downdash-easy.js:109-111 | one array of indices, whatever arguments follow it, gives the same result as the same indices passed one per argument; output j is element `indices[j]`, or `undefined` out of range |
| `Downdash.AtExamples` | src/downdash-easy.js:104-106 | `at(['a','b','c'], [0,2]) == ['a','c']`, `at(['a','b','c'], 5) == [undefined]`, and no indices give `[]` |
| `Downdash.AtIndexOf` | src/downdash-easy.js:113 | looking up the position `indexOf` finds gives back the value searched for |
| `Downdash.AllPass` | src/downdash-easy.js:127-132 | the fold from `true` that returns false once false and otherwise the predicate's result is true exactly when every element passes; it is true on no elements |
| `Downdash.Every` | src/downdash-easy.js:127-132 | the result is `AllPass` of the elements; the predicate is called exactly on `Asked` of the elements |
| `Downdash.Asked` | src/downdash-easy.js:129-130 | the elements the predicate is called on form a prefix of the input, the whole input when every element passes |
| `Downdash.AskedUntilFirstRejection` | src/downdash-easy.js:128-131 | the elements the predicate is called on form a prefix of the input; all but the last of them pass; if the prefix is shorter than the input, it is non-empty and its last element is the first one rejected, so the predicate is not called again |
| `Downdash.AllPassStaysFalse` | src/downdash-easy.js:129 | once the accumulator of `every` is false, it stays false for every longer prefix |
| `Downdash.EveryExample` | src/downdash-easy.js:123-125 | `every([true, 1, null, 'yes'], Boolean)` is false |
| `Downdash.EveryAsWritten` | src/downdash-easy.js:127-132 | `every` as written is `reduce` from `true` with `EveryCallback` (lines 128-131: a falsy accumulator gives `false` without calling the predicate, a truthy one gives the predicate's raw result); on an empty or absent collection it is `true` |
| `Downdash.EveryAsWrittenWithoutUndefined` | src/downdash-easy.js:127-132 | with the raw-result callback, a predicate that never returns `undefined` gives a defined result that is truthy exactly when every element passes |
| `Downdash.EveryAsWrittenAcceptsFailingElement` | src/downdash-easy.js:128-131 | the raw-result `every` returns `true` for `[1,2,3]` under a predicate that returns `undefined` for 1 |
| `Downdash.Found` | src/downdash-easy.js:141-146 | the fold from `false` that stays true once true and otherwise compares the element with the target is true exactly when the target is an element |
| `Downdash.Includes` | src/downdash-easy.js:141-146 | the loop's result is `Found` of the elements: false on an empty or absent collection, true exactly when some element equals the target |
| `Downdash.FoundStaysTrue` | src/downdash-easy.js:143 | once the accumulator of `includes` is true, it stays true for every longer prefix |
| `Downdash.IncludesExamples` | src/downdash-easy.js:137-139 | `includes([1,2,3], 1)` and `includes([1,2,3], 2)` are true; `includes([1,2,3], 4)` and `includes([], 1)` are false |
| `Downdash.Partitioned` | src/downdash-easy.js:157-163 | the group lengths sum to the input length; the first group holds only passing input elements, the second only failing ones; each input element lands in the group its predicate value names |
| `Downdash.Partition` | src/downdash-easy.js:157-163 | pushing each visited element to group 0 or group 1 by the predicate yields `Partitioned` of the elements |
| `Downdash.PartitionIsTwoFilters` | src/downdash-easy.js:157-163 | the groups are exactly the filter by the predicate and the filter by its negation |
| `Downdash.PartitionIsPermutation` | src/downdash-easy.js:157-163 | together the two groups hold every element exactly as many times as the input does |
| `Downdash.PartitionIsReduce` | src/downdash-easy.js:157-163 | `reduce` from `[[], []]` with `PartitionCallback`, the callback that pushes each value to group 0 or group 1, returns exactly the groups `Partitioned` describes |
| `Downdash.PartitionExample` | src/downdash-easy.js:151-155 | `partition([1,2,3], n => n % 2) == [[1,3],[2]]` |

## Left out

- The browser namespace `window._ = {}` and the surrounding function wrapper (lines 1-4, 165) are plumbing, so they are not modelled.
- The `for...in` branch of `each` for plain objects (lines 27-29) is not modelled. Its order is engine-defined and it includes inherited enumerable keys. Every operation built on `each` is modelled for arrays and for an absent collection only.
- JavaScript truthiness of odd collections is not modelled. This covers falsy values such as `0` or `""` at line 21, which are treated as absent, and strings, which are truthy non-arrays.
- `===` is modelled as Dafny equality on the element type. This leaves out `NaN !== NaN` and object identity.
- Callbacks are pure total functions. Side effects and mutation of the collection during traversal are the caller's concern and are not modelled.
- `Downdash.Each` does not record the third iterator argument. That argument is always the collection itself.
- The check `if (!indices) return [];` (line 110) is dead code, because `slice` always returns an array. The model omits it.
- The chaining form `_([1, 2]).each(...).value()` in the comment at lines 14-16 is not implemented in the file, so it is not modelled.
- The alias `all` is only mentioned in a comment and is never assigned, so it is not modelled.
- `Downdash.IndexOf` takes an array. It reads `array.length` directly and does not go through `each`, so in JavaScript a `null` array throws a TypeError. The `seq` parameter cannot express that case.
- `Downdash.At` takes an array. It reads `collection[index]` directly, so in JavaScript a `null` collection throws a TypeError as soon as one index is given. With no indices it returns `[]`. The `seq` parameter cannot express either case.
- JavaScript numbers are modelled as integers. Fractional indices for `at` (which give `undefined`) and numeric overflow are not modelled.
- `Downdash.At`: index arguments are integers or arrays of integers. In JavaScript, an array used as a key becomes a string, so only a one-element array names a position. String keys and nested arrays inside the index array are not modelled.
- `Downdash.Every` takes a predicate whose results are already booleans, not the raw result of line 130. The raw result is modelled by `EveryAsWritten` over null, booleans, integers and strings. Objects and arrays as predicate results are not modelled.
- In `Downdash.ReduceExamples`, the `Add` callback gives `undefined` when an operand is undefined. JavaScript would give `NaN`, which is not modelled.

## Findings

| source | as written | input that shows it | evidently intended | confidence | as-written member | corrected member |
|---|---|---|---|---|---|---|
| src/downdash-easy.js:127-132 | `every` returns the predicate's raw result. When that result is `undefined`, `reduce`'s test at line 77 makes the next ELEMENT the accumulator, and a truthy element resumes the fold as if all had passed | `_.every([1, 2, 3], function (n) { if (n > 1) return true; })` returns `true`, although the predicate rejects 1 | the result is true exactly when the predicate's result is truthy for every element, as `Array.prototype.every` does after coercing to boolean | high, not executed | `Downdash.EveryAsWrittenAcceptsFailingElement` | `Downdash.Every` |
