# victory-sokolov/utils in Dafny

A model of the core of the `victory-sokolov/utils` TypeScript helper library, with
proofs about it. The library has no central engine: it is a catalogue of small
helpers. The model covers the helpers that are pure transformations or simple
state changes:

- the array helpers of `src/array.ts`: flattening, de-duplication, filters, the
  index operations, the comparator sorts, median, and the two frequency counters;
- the object helpers of `src/object.ts` and the type guards of `src/is.ts`, all
  over one JavaScript value datatype (`JsValue.Value`);
- the result normalisation of `tryCatch` (`src/tryCatch.ts`);
- the key/value store of `src/cache.ts`, as a class over a `map`;
- the string transforms and validators of `src/string.ts`, `src/regex.ts`,
  `src/url.ts`, `src/html.ts` and `src/country.ts`;
- `rangeParser` (`src/number.ts`) and the integer slice of `src/date.ts`.

## Modelling decisions

**Modules.** There is one module per source file: `ArrayUtils`, `ObjectUtils`,
`Is`, `TryCatch`, `Caching`, `StringUtils`, `RegexUtils`, `UrlUtils`, `HtmlUtils`,
`Country`, `NumberUtils` and `DateUtils`. Support modules model the parts of
JavaScript they rely on:

- `JsValue`: values, truthiness, `typeof`, `String()`, `Number()` on strings, the
  relational `<`, and own property entries.
- `Assoc`: key/value lists in insertion order, which stand for object properties
  and for `Map`.
- `Seqs`: `filter`, subsequences, the first-appearance de-duplication of `new Set`,
  and `split`.
- `Chars`: ASCII character classes and case mapping.
- `Decimal`: decimal text of integers.
- `Sorting`: a stable insertion sort, plus an in-place version of it on arrays.

**Values.** Numbers are integers, with one exception: `median` returns a `real`.
`Number(s)` (`JsValue.StringToNumber`) reads the whole numeric-literal grammar:
blank text, `0x`/`0o`/`0b` integers, and signed decimals with a fraction and an
exponent. A `None` from it stands for NaN, and also for a value the integer model
cannot hold, such as `1.5` or `Infinity`. A function value carries its source
text, its own `name` and `length`, and whether it owns a `prototype`. A regular
expression carries its whole literal, such as `/a/g`, which is what `String(re)`
prints. Objects keep their keys in
insertion order. The reordering JavaScript applies to integer-like keys is not
modelled. Values are compared by structure: objects, arrays, functions, dates
and regular expressions carry no identity, so the helpers built on `Set`, `Map`,
`includes` and `===` merge distinct objects that look alike ("## Left out" names
each one). A property read `v[key]` (`JsValue.Member`) finds an own property first. A
plain object without one falls back to what it inherits from `Object.prototype`
(`JsValue.InheritedMember`). A function reads its own `name`, `length` and
`prototype`. The cache, `countBy`, `sortBy` and `uniqueObject` depend on that.
An own data key `__proto__`, such as `JSON.parse` creates, is never copied by
`flattenObject`, `filterFalsyFromObject` or `unionWithExclusion`: their plain
assignment `target[key] = …` goes to the prototype setter, which stores no own
key.

**Sorting.** `Array.prototype.sort` is a host built-in; it is modelled as a stable
insertion sort. It places `undefined` elements last, without calling the
comparator on them. For a consistent comparator every stable sort gives the same
result, so the choice of algorithm does not matter. `sort`, `sortAsc`, `sortBy`
and `median` copy their input into a fresh array and sort that array in place
(`Sorting.SortInPlace`). The input sequence is never changed.

**Imperative code as methods.** Where the source changes state step by step, the
model does too:

- `countBy` counts into a map in a loop;
- `omit` deletes keys from a copy;
- `flattenObject` assigns into an accumulator;
- `filterFalsyFromObject` and `unionWithExclusion` update a reduce accumulator;
- `timeAgo` reassigns `interval` through its cascade;
- the cache is a class whose `Set` and `Remove` change its `store` field.

Each such method is proved equal to a specification function, and the
properties are proved about that function.

**tryCatch.** This is a pure function from the settled outcome of the single call
(`Returned(v)` or `Threw(x)`) and the options to a `Success`/`Failure` record.
Constructing `new ErrorClass(message, status, cause)` is kept abstract: the
`Created(cls, message, status, cause)` record lists the arguments passed. An error
caught as an instance of the class is kept by identity (`Existing(e)`).

**Where the code and its tests disagree, the model follows the code.**

- `insertItemAtIndex` and `replaceItemAtIndex` with a numeric index past the end
  append the value, by slice clamping (`ArrayUtils.IndexPastEnd`,
  `ArrayUtils.ReplaceAtLengthAppends`).
- `sortBy` with order 1 sorts ascending (`ArrayUtils.SortByOrderOneIsAscending`).
- `tryCatch` with the default `Error` class passes every thrown error through
  unchanged, so no status 500 is added (`TryCatch.DefaultClassPassesErrors`).
- `filterFalsyFromObject` tests only truthiness, so empty arrays and objects are
  kept (`ObjectUtils.FilterFalsyLookup`).
- The module exports an already-created cache. The class constructor models that
  one empty store.
- The tests used for `isValidIPV4` import from a path `src/ip`, but the function
  is defined in `src/regex.ts`.

## Model

| member | source | states |
|---|---|---|
| ArrayUtils.FlattenArray | src/array.ts:9-15 | no element of the result is an array |
| ArrayUtils.FlattenArrayAppend | src/array.ts:12-14 | flattening distributes over concatenation of the input |
| ArrayUtils.FlattenArrayFlat | src/array.ts:9-15 | an input with no nested arrays comes back unchanged |
| ArrayUtils.FlattenArrayIdempotent | src/array.ts:9-15 | flattening twice is flattening once |
| ArrayUtils.SingleArr | src/array.ts:13 | a one-element input holding an array flattens like that array |
| ArrayUtils.FlattenArrayExample | src/array.ts:9-15 | `[1, [2, [3]]]` flattens to `[1, 2, 3]` |
| Seqs.Unique | src/array.ts:22-24 | `Array.from(new Set(a))` holds exactly the members of `a`, without repeats, and is no longer than `a` |
| Seqs.UniqueFirstAppearance | src/array.ts:22-24 | the elements appear in the order of their first occurrence in the input |
| ArrayUtils.UniqueOncePerElement | src/array.ts:22-24 | every value occurs once in the result if it occurs in the input, and otherwise not at all |
| Seqs.UniqueOfDistinct | src/array.ts:22-24 | an input without repeats comes back unchanged |
| Seqs.UniqueIdempotent | src/array.ts:22-24 | de-duplicating twice is de-duplicating once |
| ArrayUtils.RemoveItemSpec | src/array.ts:32-37 | `removeItem` keeps exactly the elements not in `values`, each with its full multiplicity, as a subsequence of the input |
| ArrayUtils.IntersectionSpec | src/array.ts:221-224 | `intersection` keeps exactly the elements of `arr2` that occur in `arr1`, duplicates included, as a subsequence of `arr2` |
| ArrayUtils.FindIndex | src/array.ts:145 | `findIndex` returns the first position whose element satisfies the callback, or -1 exactly when none does |
| ArrayUtils.SlicePos | src/array.ts:150 | `slice` positions: negative ones count from the end, and both ends clamp to the array |
| ArrayUtils.IndexOpsEdgeCases | src/array.ts:136-197 | all three index operations return `[]` for an absent array and the input itself when the index resolves to -1 |
| ArrayUtils.NoMatchResolvesToSentinel | src/array.ts:145 | a callback that matches nothing resolves to -1 |
| ArrayUtils.InsertInRange | src/array.ts:150 | for a resolved index `0 <= i <= len`, insert yields `arr[..i] + [v] + arr[i..]` |
| ArrayUtils.ReplaceInRange | src/array.ts:174 | for `0 <= i < len`, replace changes position `i` only |
| ArrayUtils.RemoveInRange | src/array.ts:196 | for `0 <= i < len`, remove drops position `i` and keeps every other element in order |
| ArrayUtils.InsertBeforeFirstMatch | src/array.ts:145-150 | with a callback, the value goes in front of the first matching element |
| ArrayUtils.IndexPastEnd | src/array.ts:150-174 | a numeric index past the end appends the value for insert and replace, and leaves the array unchanged for remove |
| ArrayUtils.ReplaceAtLengthAppends | src/array.ts:174 | `replaceItemAtIndex(3, 9, [1, 2, 3])` is `[1, 2, 3, 9]` |
| ArrayUtils.NegativeIndex | src/array.ts:150-174 | an index below -1 counts from the end |
| ArrayUtils.SortCopy | src/array.ts:99-108 | a copy of the input is sorted in place, and the result is the host sort of the input |
| ArrayUtils.HostSortPermutes | src/array.ts:107 | the sort result is a permutation of the input |
| ArrayUtils.HostSortDefined | src/array.ts:107 | without `undefined` elements, the host sort is the stable sort by the comparator |
| ArrayUtils.HostSortOrdered | src/array.ts:107 | for a consistent comparator, the result is a permutation, ordered by the comparator, with tied elements left in input order |
| ArrayUtils.SortAsc | src/array.ts:72-83 | `sortAsc` returns the host sort of the input by the comparator on property `key` |
| ArrayUtils.SortAscOrdered | src/array.ts:72-83 | when the `key` values are all numbers or all strings, `sortAsc` gives a stable permutation ascending on `key` |
| ArrayUtils.AscKeyCmpIsKeyCmp | src/array.ts:75-82 | the `sortAsc` comparator is the ascending key comparator |
| ArrayUtils.FSort | src/array.ts:85-87 | `fSort` is positive, negative or zero exactly as the first number is above, below or equal to the second; NaN compares as 0 |
| ArrayUtils.Sort | src/array.ts:95-109 | `sort` returns the host sort of a copy by the given comparator, or else by `Number` of each element's first property value |
| ArrayUtils.DefaultSortReadsHex | src/array.ts:101-104 | the default comparator reads hexadecimal text as a number: `[{v: '0x10'}, {v: '2'}]` sorts to `[{v: '2'}, {v: '0x10'}]` |
| JsValue.RadixLiterals | src/array.ts:102-103 | `Number` reads `0x10` as 16 and `0B101` as 5 |
| JsValue.SignedRadixIsNaN | src/array.ts:102-103 | a sign before a radix prefix gives NaN: `-0x10` |
| JsValue.ExponentForm | src/date.ts:148-151 | digits `W`, `e`, digits `N` read as W times 10^N |
| JsValue.FractionExponentForm | src/date.ts:148-151 | `W.FeN` reads as the digits WF scaled by 10^(N - length of F) |
| JsValue.FractionForm | src/number.ts:8 | `W.F` reads as the digits WF over 10^(length of F), which is `None` when not an integer |
| JsValue.ExponentLiteral | src/date.ts:148-151 | `1e1` reads as 10 |
| JsValue.FractionExponentLiteral | src/date.ts:148-151 | `1.5e1` reads as 15 |
| JsValue.FractionLiteral | src/number.ts:8 | `1.5` is not an integer, so it is `None` |
| ArrayUtils.DefaultCmpConsistent | src/array.ts:102-106 | the default comparator is consistent when every element's first value reads as a number |
| ArrayUtils.DefaultSortOrdered | src/array.ts:102-107 | the default sort is a stable permutation ascending on each element's first value |
| ArrayUtils.SortBy | src/array.ts:117-128 | `sortBy` returns the input when `key` is not an own property of `arr[0]` (the empty array included), and otherwise the host sort by `key`, where each element's key is the property read `m[key]`, inherited members included |
| ArrayUtils.SortByInheritedKey | src/array.ts:122-127 | sorting `[{toString: 'z'}, {a: 1}]` by `toString` compares the second element's inherited `toString` function, whose text starts with `f`, and puts it first |
| ArrayUtils.SortByFunctionName | src/array.ts:122-127 | two functions named `b` and `a` sorted by `name` come out as the one named `a`, then `b` |
| ArrayUtils.SortByOrdered | src/array.ts:117-128 | when the key values are all numbers or all strings, the result is a stable permutation, ascending on `key` for order 1 and descending for order -1 |
| ArrayUtils.SortByNumbers | src/array.ts:126 | for numeric keys, `order * key` never decreases along the result |
| ArrayUtils.ByKeyCmpNonPositive | src/array.ts:126 | a non-positive comparison means the pair is in ascending key order (order 1) or descending key order (order -1) |
| ArrayUtils.ByKeyCmpIncomparable | src/array.ts:126 | values neither below nor above each other (mixed types) compare equal |
| ArrayUtils.SortByOrderOneIsAscending | src/array.ts:126 | order 1 puts `{a: 1}` before `{a: 2}` |
| ArrayUtils.JsLessTotalOnKeys | src/array.ts:126 | `<` is a strict total order on key values that are all numbers or all strings |
| ArrayUtils.JsLessAsymmetric | src/array.ts:126 | `<` on JavaScript values is asymmetric |
| ArrayUtils.Median | src/array.ts:204-212 | `median` is the middle of the ascending sorted copy: 0 when empty, the middle element for odd length, and the mean of the two middle elements for even length |
| ArrayUtils.SortBySubAscending | src/array.ts:208 | sorting by `a - b` gives an ascending permutation |
| ArrayUtils.AscendingUnique | src/array.ts:208 | two ascending permutations of the same values are equal |
| ArrayUtils.MedianOfAnySortedCopy | src/array.ts:204-212 | the median is the same for every ascending arrangement of the input |
| ArrayUtils.MedianExamples | src/array.ts:204-212 | `[1, 3, 5]` has median 3, `[1, 2, 3, 4]` has 2.5 and `[]` has 0 |
| ArrayUtils.CountBy | src/array.ts:231-246 | `countBy` maps exactly the string forms of the elements, except `__proto__`, each to its tally: the number of occurrences, or for a name inherited from `Object.prototype` the inherited member's text followed by one `1` per occurrence |
| ArrayUtils.CountByNumbers | src/array.ts:231-246 | when no element names an inherited member, every string form maps to its number of occurrences |
| ArrayUtils.CountByInherited | src/array.ts:236-238 | `['toString', 'toString']` gives `toString` the built-in method's text with `11` appended, because `in` already holds for the inherited method |
| ArrayUtils.CountByProto | src/array.ts:236-238 | `['__proto__']` gives `{}`, because the string written to the prototype setter is ignored |
| ArrayUtils.CountsSumToLength | src/array.ts:231-246 | when no element names an inherited member, the counts add up to the length of the input |
| ArrayUtils.OccurrencesCount | src/array.ts:257 | `data.filter(c => c === u).length` is the multiplicity of `u` |
| ArrayUtils.OccurrenceCountAgrees | src/array.ts:253-261 | for an array of only numbers or only strings, `occurrenceCount` maps exactly the string forms of the elements, each to its number of occurrences |
| ArrayUtils.OccurrenceCountMixedTypes | src/array.ts:253-261 | `[1, '1']` gives `{'1': 1}`: the second entry overwrites the first |
| ArrayUtils.CountByMixedTypes | src/array.ts:231-246 | `[1, '1']` gives `{'1': 2}`, so the two counters differ on mixed types |
| Sorting.InsertionSortPermutes | src/array.ts:107 | the stable sort is a permutation of its input |
| Sorting.InsertionSortSorted | src/array.ts:107 | for a consistent comparator, the result is ordered |
| Sorting.InsertionSortStable | src/array.ts:107 | the elements tied with any one element keep their input order |
| Sorting.KeyCmpConsistent | src/array.ts:126 | comparing by a key under a strict total order is consistent, ascending or descending |
| Sorting.SortInPlace | src/array.ts:107 | sorting an array in place leaves it holding the stable sort of its old contents |
| ObjectUtils.OmitKeysFromObject | src/object.ts:14-20 | the spread copy with each key deleted in turn is the object's entries without the listed keys |
| ObjectUtils.Omit | src/object.ts:9-29 | `omit` applies that copy to each element of an array, or else to the object |
| ObjectUtils.OmitLookup | src/object.ts:9-29 | an omitted key reads as absent, and every other key keeps its value |
| ObjectUtils.OmitKeys | src/object.ts:9-29 | the remaining keys are the object's keys minus the omitted ones, in the object's order |
| ObjectUtils.OmitIdempotent | src/object.ts:9-29 | omitting the same keys twice changes nothing more |
| ObjectUtils.RemoveWithout | src/object.ts:16-18 | each `delete` removes one more key |
| ObjectUtils.OmitExample | src/object.ts:9-29 | `omit({a: 1, b: 2, c: 3}, 'a', 'c')` is `{b: 2}` |
| ObjectUtils.PickSpec | src/object.ts:37-45 | `pick` keeps exactly the listed keys the object has, in the object's order, with their values |
| ObjectUtils.FlattenObject | src/object.ts:52-70 | the forEach over the keys builds the recursive flattening |
| ObjectUtils.FlattenIsAssignLeaves | src/object.ts:52-70 | flattening assigns the leaves in depth-first order over the accumulator |
| ObjectUtils.FlattenObjectSpec | src/object.ts:52-70 | the keys appear in order of their first leaf; each key holds its last leaf's value; no value is a plain object, a date or a regular expression; `__proto__` is never an own key |
| ObjectUtils.LeavesAreScalars | src/object.ts:58-66 | no leaf is a value that `flattenObject` would descend into |
| ObjectUtils.FlattenValues | src/object.ts:52-70 | no stored value is one that `flattenObject` would descend into |
| ObjectUtils.FlattenObjectExample | src/object.ts:52-70 | `{a: 1, b: {a: 2, c: null}}` flattens to `{a: 2, c: null}`: the nested `a` overwrites, and `null` is kept |
| ObjectUtils.FlattenSkipsProto | src/object.ts:65 | an own `__proto__` data key is not copied: `{__proto__: 1, a: 2}` flattens to `{a: 2}` |
| ObjectUtils.FilterFalsyFromObject | src/object.ts:77-86 | the reduce result is the object's truthy entries, in order, leaving out a `__proto__` key |
| ObjectUtils.FilterFalsyLookup | src/object.ts:77-86 | exactly the keys with truthy values remain, with unchanged values, except `__proto__`, which is never an own key of the result |
| ObjectUtils.Union | src/object.ts:94-111 | every value in the union is truthy |
| ObjectUtils.UnionWithExclusion | src/object.ts:94-111 | the reduce over `[left, right]` computes the union |
| ObjectUtils.MergeInto | src/object.ts:100-107 | the forEach over one operand's entries computes the merge of those entries |
| ObjectUtils.UnionLookup | src/object.ts:94-111 | each key reads what assigning left's value, then right's, over an empty object leaves: a falsy value never overwrites, a non-object replaces, and objects merge recursively |
| ObjectUtils.UnionExclusion | src/object.ts:94-111 | no falsy value is stored; a truthy non-object from `right` wins; a key absent or falsy in both operands is absent; without a truthy right value, the key reads as left gives it; `__proto__` is never an own key of the union |
| ObjectUtils.UnionDistinct | src/object.ts:94-111 | the union has distinct keys |
| ObjectUtils.UnionExample | src/object.ts:94-111 | `{a: 1, b: 0}` with `{a: 2, c: 3}` reads `a` as 2 and `c` as 3, and has no other key |
| ObjectUtils.UnionNestedExample | src/object.ts:103-105 | `{o: {x: 1}}` with `{o: {y: 2}}` gives an `o` holding exactly `x: 1` and `y: 2` |
| ObjectUtils.FlipPairs | src/object.ts:120 | each entry is turned round: the value's string form becomes the key and the key becomes a string value |
| ObjectUtils.FlipLookup | src/object.ts:118-121 | a value's string form reads the key of the last entry holding that value |
| ObjectUtils.FlipKeys | src/object.ts:118-121 | a string is a key of the flipped object exactly when some value prints as it |
| ObjectUtils.FlipFlip | src/object.ts:118-121 | flipping twice gives the object back when its values are distinct strings |
| ObjectUtils.FlipCollision | src/object.ts:118-121 | `flip({a: 'x', b: 'x'})` is `{x: 'b'}`: the last key wins |
| ObjectUtils.KeyedPairs | src/object.ts:164 | `arr.map(item => [item[key], item])` pairs each item with its key |
| ObjectUtils.GetUniqueByKeySpec | src/object.ts:163-165 | one item per distinct key, in order of the key's first appearance, each the last item with that key |
| ObjectUtils.UniqueObjectExample | src/object.ts:129-134 | `[{id: 1}, {id: 1}, {id: 2}]` keyed by `id` gives `[{id: 1}, {id: 2}]` |
| ObjectUtils.UniqueObjectInheritedKey | src/object.ts:133 | keyed by `toString`, `{toString: undefined}` and `{a: 1}` stay apart: the second reads the inherited `toString` function |
| Assoc.FromPairsSpec | src/object.ts:119 | `Object.fromEntries` keeps each key once, in order of first appearance, holding its last value |
| Is.ToRawType | src/is.ts:132-135 | slicing 8 characters off the front and 1 off the end leaves the tag |
| Is.ToRawTypeExamples | src/is.ts:132-135 | the tags of `null`, `[]`, `{}` and a date are `Null`, `Array`, `Object` and `Date` |
| Is.TagIs | src/is.ts:58-83 | equal tag strings mean equal tags |
| Is.IsDef | src/is.ts:14 | `typeof v !== 'undefined'` is false only for `undefined` |
| Is.IsBoolean | src/is.ts:21 | holds exactly for booleans |
| Is.IsFunction | src/is.ts:28 | holds exactly for functions |
| Is.IsNumber | src/is.ts:35 | holds exactly for numbers |
| Is.IsString | src/is.ts:42-43 | holds exactly for strings |
| Is.IsObject | src/is.ts:50-51 | holds for every non-null object: arrays, plain objects, dates and regular expressions |
| Is.IsUndefined | src/is.ts:58 | the tag test holds exactly for `undefined` |
| Is.IsNull | src/is.ts:66 | the tag test holds exactly for `null` |
| Is.IsRegExp | src/is.ts:74 | the tag test holds exactly for regular expressions |
| Is.IsDate | src/is.ts:82 | the tag test holds exactly for dates |
| Is.IsJsObject | src/is.ts:90-91 | holds for functions as well as for every non-null object |
| Is.HasProperty | src/is.ts:107-112 | false for a falsy object or an empty key; on an object otherwise, own-key membership |
| Is.HasPropertyIgnoresPrototype | src/is.ts:111 | inherited members such as `toString` and `push` are not properties |
| Is.HasPropertyLength | src/is.ts:111 | arrays and non-empty strings have their own `length` |
| Is.HasPropertyFunction | src/is.ts:111 | every function owns `length` and `name`; it owns `prototype` exactly when it is of a kind that has one, so `hasProperty(() => 1, 'prototype')` is false |
| Is.IsTruthyAndNotEmptyCharacterised | src/is.ts:149-163 | false exactly for falsy values, the empty array and the key-less plain object |
| Is.IsTruthyAndNotEmptyDates | src/is.ts:152-162 | dates and regular expressions count as non-empty although they have no own keys |
| TryCatch.Normalise | src/tryCatch.ts:185-203 | success exactly when the callable returned, with its value as `data` and a null `error`; a failure has null `data` and an error, kept by identity for an instance of the class and otherwise constructed from that class |
| TryCatch.ReturnedIsSuccess | src/tryCatch.ts:187-190 | a returned value, `null` and `undefined` included, becomes `{data: v, error: null}` |
| TryCatch.ThrowIsFailure | src/tryCatch.ts:191-203 | every throw becomes a failure with null `data` and a non-null error |
| TryCatch.KeepsInstanceByIdentity | src/tryCatch.ts:192-194 | an error that is an instance of the class is returned as it is |
| TryCatch.DefaultClassPassesErrors | src/tryCatch.ts:185-194 | with the default `Error` class, every thrown error passes through unchanged, with no status added |
| TryCatch.ConstructedArguments | src/tryCatch.ts:196-202 | a non-instance gets an error built from the class, the derived message, the status and the cause |
| TryCatch.NonErrorMessage | src/tryCatch.ts:196-198 | a non-Error's message is `String(value)`: `[object Object]` for an object without an own `toString`, `null`, a string itself or a number's digits; its cause is undefined |
| TryCatch.ConvertedErrorKeepsMessage | src/tryCatch.ts:196-198 | an Error of another class keeps its message and cause in the new error |
| TryCatch.StatusFallback | src/tryCatch.ts:199 | a status of 0, or no status, falls back to the default, which is 500 when not given |
| TryCatch.ExplicitDefaultStatus | src/tryCatch.ts:185-199 | a given `defaultStatus` is used when the thrown status is falsy |
| Caching.AfterSet | src/cache.ts:5-7 | after `set`, the key holds the value and no other key is added or removed |
| Caching.AfterRemove | src/cache.ts:17-22 | `remove` deletes a key that `has` holds and changes nothing otherwise |
| Caching.ReadAfterSet | src/cache.ts:5-15 | after `set(k, v)`, `get(k)` is `v` and the other keys read as before |
| Caching.SetOverwrites | src/cache.ts:6 | setting a key twice is setting it once to the second value |
| Caching.HasMeansTruthy | src/cache.ts:9-11 | `has` is whether `get` is truthy: stored `0`, `''`, `false`, `null` and `undefined` read as absent |
| Caching.RemoveDeletes | src/cache.ts:17-22 | removing a key `has` holds deletes its own value: an ordinary key then reads undefined and `has` is false, while an inherited name reads the inherited member again and `has` stays true |
| Caching.InheritedReported | src/cache.ts:9-22 | on an empty cache, `get` of a name inherited from `Object.prototype` is the inherited member, `has` holds, and `remove` changes nothing |
| Caching.RemoveFalsyKeeps | src/cache.ts:18 | removing a missing key, or one holding a falsy value, changes nothing |
| Caching.RemoveKeepsOthers | src/cache.ts:19-20 | `remove` leaves every other key's value unchanged |
| Caching.RunKeepsUntouched | src/cache.ts:5-22 | calls on other keys never change what a key reads |
| Caching.GetAfterSetPersists | src/cache.ts:5-15 | `get(k)` returns the value set until `k` is set again or removed |
| Caching.Cache.constructor | src/cache.ts:2 | a new store is empty |
| Caching.Cache.Set | src/cache.ts:5-7 | the new store is the old one after `set` |
| Caching.Cache.Get | src/cache.ts:13-15 | returns the stored value, else the member inherited from `Object.prototype`, else undefined |
| Caching.Cache.Has | src/cache.ts:9-11 | returns whether the key reads truthy, which needs a stored value or an inherited name |
| Caching.Cache.Remove | src/cache.ts:17-22 | the new store is the old one after `remove` |
| StringUtils.EscapeHtmlIsPerChar | src/string.ts:46-53 | the five `replaceAll` passes equal one character-by-character mapping |
| StringUtils.EscapeHtmlChar | src/string.ts:46-53 | each of `&`, `<`, `>`, `"` and `'` becomes its entity, and any other character stays |
| StringUtils.EscapeEachClean | src/string.ts:46-53 | the output contains no `<`, `>`, `"` or `'` |
| StringUtils.UnescapeEscape | src/string.ts:46-53 | decoding the five entities gives the input back, so nothing is lost |
| StringUtils.EscapeHtmlConcat | src/string.ts:46-53 | escaping distributes over concatenation |
| StringUtils.EscapeHtmlExample | src/string.ts:46-53 | `<div>Hello World</div>` becomes `&lt;div&gt;Hello World&lt;/div&gt;` |
| StringUtils.RemoveZeroWidthSpace | src/string.ts:60 | deletes exactly U+200B to U+200D and U+FEFF, and keeps every other character, in order |
| StringUtils.RemoveZeroWidthSpaceIdempotent | src/string.ts:60 | removing twice is removing once, and a clean string is unchanged |
| StringUtils.StartsWithAny | src/string.ts:78-80 | true exactly when some item is a prefix of `data` |
| StringUtils.EndsWithAny | src/string.ts:68-70 | true exactly when some item is a suffix of `data` |
| StringUtils.AnyEdgeCases | src/string.ts:68-80 | an empty list gives false, and an empty item gives true |
| StringUtils.AnyExamples | src/string.ts:68-80 | prefix and suffix checks on `Hello World` |
| StringUtils.UuidPositions | src/string.ts:87-91 | valid exactly when there are 36 characters, with `-` at 8, 13, 18 and 23 and hex digits elsewhere |
| StringUtils.UuidGroups | src/string.ts:87-91 | groups of 8, 4, 4, 4 and 12 characters joined by `-` are valid exactly when every group is hex |
| StringUtils.UuidSplits | src/string.ts:87-91 | a valid identifier is its five groups joined by `-` |
| StringUtils.UuidExamples | src/string.ts:87-91 | an 8-4-4-4-12 string is accepted, and one with a short last group is refused |
| StringUtils.PascalCaseLetters | src/string.ts:22-27 | the result is the input without the separators, with case changed only |
| StringUtils.PascalCaseWords | src/string.ts:22-27 | each piece is upper-cased at its first character, and the pieces are joined with nothing |
| StringUtils.PascalCaseWord | src/string.ts:25 | a piece without a separator has its first character upper-cased |
| StringUtils.PascalCaseExamples | src/string.ts:22-27 | `hello world` and `hello-world` (with separator `-`) become `HelloWorld` |
| StringUtils.CamelCaseFails | src/string.ts:6-15 | the call fails exactly when the lower-cased input ends in a non-alphanumeric character |
| StringUtils.CamelCaseLetters | src/string.ts:6-15 | the result is the lower-cased input's letters and digits, with case changed only |
| StringUtils.CapitaliseAfterSpace | src/string.ts:13 | a space and the word character after it become that character upper-cased |
| StringUtils.CamelCaseExamples | src/string.ts:6-15 | `hello world`, `hello-world` and `hello World` become `helloWorld` |
| StringUtils.KebabCase | src/string.ts:34-39 | the result has no white space, no `_` and no upper-case letter |
| StringUtils.KebabCaseSpread | src/string.ts:34-39 | the result is the left-to-right hyphenation of lower/upper pairs, then a per-character map |
| StringUtils.KebabChar | src/string.ts:37-38 | white space and `_` become `-`, and letters become lower case |
| StringUtils.KebabCaseNoBoundary | src/string.ts:34-39 | with no lower/upper pair, only the per-character map applies |
| StringUtils.HyphenateCamel | src/string.ts:36 | a `-` goes between a lower-case letter and a following upper-case letter |
| StringUtils.KebabCaseExamples | src/string.ts:34-39 | `hello world` and `helloWorld` become `hello-world` |
| StringUtils.SlugifyChars | src/string.ts:107-116 | the output has only word characters and `-`, and no upper-case letter |
| StringUtils.SlugifyHyphens | src/string.ts:107-116 | the output has no `--` and neither starts nor ends with `-` |
| StringUtils.SlugifyWords | src/string.ts:107-116 | the word characters of the output are those of the lower-cased input, in order |
| StringUtils.SlugifyExample | src/string.ts:107-116 | `Hello World` becomes `hello-world` |
| RegexUtils.DecOctetIsByte | src/regex.ts:19 | the five octet alternatives accept exactly the decimal text, with no leading zero, of 0 to 255 |
| RegexUtils.OctetOfNumber | src/regex.ts:19 | the decimal text of `n` is an octet exactly when `n <= 255` |
| RegexUtils.SingleLine | src/regex.ts:17-21 | a string with no line break is valid exactly when it is four `.`-separated octets |
| RegexUtils.LineBreak | src/regex.ts:19 | under the `m` flag, a string split at a line terminator is valid exactly when one of its parts is |
| RegexUtils.QuadOfNumbers | src/regex.ts:17-21 | `a.b.c.d` is valid exactly when all four numbers are at most 255 |
| RegexUtils.ThreeOctetsRejected | src/regex.ts:19 | three octets are refused |
| RegexUtils.FiveOctetsRejected | src/regex.ts:19 | five octets are refused |
| RegexUtils.Ipv4Examples | src/regex.ts:17-21 | `192.168.0.1` is accepted and `256.256.256.256` is refused |
| RegexUtils.TrimNewLines | src/regex.ts:53 | the result is a contiguous slice of the input, with only `\n` removed before and after it, and it neither starts nor ends with `\n` |
| RegexUtils.TrimNewLinesRuns | src/regex.ts:53 | removing runs of `\n` from both ends of a string that neither starts nor ends with `\n` gives that string |
| RegexUtils.TrimNewLinesUnchanged | src/regex.ts:53 | a string that neither starts nor ends with `\n` is unchanged |
| RegexUtils.TrimNewLinesIdempotent | src/regex.ts:53 | trimming twice is trimming once |
| UrlUtils.SlashMatch | src/url.ts:7 | the match of `\/?$` is the final `/` when there is one, and otherwise the empty match at the end |
| UrlUtils.AddTrailingSlash | src/url.ts:6-8 | the result ends with `/`; a URL ending in `/` is returned unchanged; any other URL gets `/` appended |
| UrlUtils.AddTrailingSlashIdempotent | src/url.ts:7 | adding twice is adding once |
| UrlUtils.AddTrailingSlashExtends | src/url.ts:7 | the URL is a prefix of the result, which is at most one character longer |
| UrlUtils.AddTrailingSlashExamples | src/url.ts:6-8 | `''` and `/` become `/`, and a host gains one `/` |
| HtmlUtils.CloseAt | src/html.ts:7 | the lazy match stops at the first `>` with no line terminator before it, and fails when a line terminator comes first |
| HtmlUtils.RemoveHtmlTags | src/html.ts:6-7 | the result is a subsequence of the input |
| HtmlUtils.NoOpenUnchanged | src/html.ts:6-7 | text without `<` is unchanged |
| HtmlUtils.KeepPlain | src/html.ts:7 | text without `<` passes through in front of whatever follows |
| HtmlUtils.RemoveTag | src/html.ts:7 | a `<` up to the nearest `>` on the same line is removed |
| HtmlUtils.UnclosedKept | src/html.ts:7 | a `<` with no `>` before the end of its line is kept |
| HtmlUtils.ElementLeavesBody | src/html.ts:6-7 | an element wrapped around `<`-free text leaves just the text |
| HtmlUtils.RemoveHtmlTagsExample | src/html.ts:6-7 | `<p>Hello, world!</p>` becomes `Hello, world!` |
| Country.Shifted | src/country.ts:20-21 | each output code point is 127397 plus the code unit |
| Country.GetFlagEmoji | src/country.ts:16-22 | one code point per UTF-16 unit of the upper-cased code; for input in the basic multilingual plane, one per character, each 127397 plus the upper-cased character's code |
| Country.CaseInsensitive | src/country.ts:18 | lower-case and upper-case codes give the same flag |
| Country.LettersRoundTrip | src/country.ts:16-22 | letters become regional indicators, and reading the indicators back gives the upper-cased code |
| Country.FlagExamples | src/country.ts:16-22 | `US` gives U+1F1FA U+1F1F8, and `GB` gives U+1F1EC U+1F1E7 |
| NumberUtils.Interval | src/number.ts:13 | `Array.from` of length `end - start + 1` throws a RangeError exactly when that length exceeds 2^32 - 1, and otherwise holds exactly the integers from start to end, ascending, and is empty when end < start |
| NumberUtils.RangeParser | src/number.ts:7-14 | when no RangeError is thrown, each element is one more than the previous |
| NumberUtils.SingleNumber | src/number.ts:7-14 | `N` gives `1..N`, of length N, up to 2^32 - 1 and a RangeError above it, and `0` gives `[]` |
| NumberUtils.TwoNumbers | src/number.ts:7-14 | `A-B` and `A,B` give `A..B`, of length B - A + 1, and nothing when B < A; a run longer than 2^32 - 1 throws a RangeError; an end of 0 counts as absent, giving `1..A` |
| NumberUtils.ExtraPiecesIgnored | src/number.ts:8 | only the first two numbers are read: `1-2-3` behaves like `1-2` |
| NumberUtils.LeadingSeparator | src/number.ts:8 | a leading separator leaves an empty first piece, read as 0: `-5` gives `0..5` |
| NumberUtils.NotANumber | src/number.ts:8-13 | text that is not a number gives `[]` |
| DateUtils.SecondsInDays | src/date.ts:194-201 | `secondsInDays(d)` is 86400 times `d` |
| DateUtils.SecondsInDaysAdditive | src/date.ts:194-201 | the conversion adds over days, and one day is 24 x 60 x 60 seconds |
| DateUtils.Bucket | src/date.ts:211-234 | no unit is chosen exactly when every floored count is at most 1, and a chosen count exceeds 1 |
| DateUtils.BucketPicks | src/date.ts:211-234 | the first unit, largest first, whose floored count exceeds 1 is chosen with that count |
| DateUtils.TimeAgo | src/date.ts:211-238 | the cascade that reassigns `interval` computes the declarative time-ago text |
| DateUtils.LargestUnitWins | src/date.ts:211-234 | the text names the largest unit whose floored count exceeds 1, with that count |
| DateUtils.NoUnitBelowTwoMinutes | src/date.ts:211-234 | under 120 seconds no unit is chosen |
| DateUtils.JustNowIff | src/date.ts:236 | the text is `just now` exactly when fewer than 10 seconds have passed, negative counts included |
| DateUtils.SecondsReported | src/date.ts:236-238 | 10 to 119 seconds give `<s> seconds ago` |
| DateUtils.NinetySeconds | src/date.ts:231-238 | a minute count of exactly 1 falls through the minute branch: 90 seconds give `90 seconds ago` |
| DateUtils.OneYearIsTwelveMonths | src/date.ts:211-219 | a year count of exactly 1 falls through to months: 31536000 seconds give `12 months ago` |
| DateUtils.DateTimeToCron | src/date.ts:124-132 | the five space-separated fields are minute, hour, day, 1-based month and weekday |
| DateUtils.CronRoundTrip | src/date.ts:139-157 | the field reading of `cronToDateTime` gives back the fields `dateTimeToCron` wrote, with the month 0-based again |
| DateUtils.ArgumentsOf | src/date.ts:145-154 | the `Date.UTC` arguments exist exactly when every field reads as a number |
| DateUtils.ExponentMinutes | src/date.ts:145-154 | a minutes field written `1e1` is read as minute 10 |
| DateUtils.FormatDate | src/date.ts:33-39 | `formatDate` is undefined exactly for an absent date |
| DateUtils.FormatDateShape | src/date.ts:33-39 | for a four-digit year the result is `YYYY-MM-DD`: ten characters, dashes at 4 and 7, a 1-based month and the day, each padded to two digits, parsing back to the fields |
| DateUtils.Pad2 | src/date.ts:36-37 | `padStart(2, '0')` of a number below 100 is two digits that read back as the number |
| DateUtils.WeekSpan | src/date.ts:55-72 | the last day is five days after the first, and a Sunday moves forward one day |
| DateUtils.WeekEnds | src/date.ts:55-72 | `getWeekLastDay` lands on a Saturday and `getWeekFirstDay` on a Monday |
| DateUtils.ShiftDays | src/date.ts:55-72 | moving `k` days moves the weekday by `k`, modulo 7 |
| DateUtils.WeekdayIff | src/date.ts:101 | `isWeekday` is true exactly for weekdays 1 to 5 |

## Left out

- The browser and Node helpers (DOM, media, file system, cryptography, process arguments) are host I/O, so they are not part of this model. `src/currency.ts`, `src/base.ts` and `src/function.ts` are not part of it either.
- `randomItem`, `shuffleArray` and `randomHexColorCode` are left out because they depend on randomness.
- `isValidEmail`, `isValidIPV6` and `isValidUrl` are left out because they would mean transcribing large regular expressions.
- `getCountryFromISO` is left out because it depends on `Intl.DisplayNames`.
- `objectKeys` and `objectEntries` are typed wrappers of `Object.keys` and `Object.entries`, so they are left out.
- The host calendar and clock functions of `src/date.ts` are left out: `getMonthList`, `timeStamptToDate`, `toLongDate`, `dateWithTimeStamp`, `getMonthFirstDay`, `getMonthLastDay`, `dateRangeGenerator`, `getTimeZone`, `timestamp`, `timestampIso` and `toUtc`.
- DateUtils.CronRoundTrip: only the field reading of `cronToDateTime` is modelled. Its `Date.UTC` call, the weekday adjustment and the roll-forward to next year depend on the clock.
- DateUtils.TimeAgo: takes the elapsed seconds as input. Reading the clock and the `Math.floor` of the millisecond difference are left out.
- DateUtils.DateTimeToCron: takes the UTC fields already extracted from a `Date`. DateUtils.FormatDate does the same with the local fields. An invalid date, whose fields are NaN, is not modelled.
- DateUtils.WeekSpan: takes the millisecond time and the weekday as inputs. The weekday is tied to the time only through a fixed time-zone offset, so daylight-saving changes are not modelled.
- DateUtils.WeekEnds: like DateUtils.ShiftDays, it holds only under a fixed time-zone offset. Moving by whole days of 86 400 000 ms across a daylight-saving change lands an hour off local midnight, as `getWeekFirstDay` does in Europe/Berlin on 26 October 2025. The model does not represent that hour.
- `tryCatch`: the async mechanics are left out; only the settled outcome of the single call is modelled. Running the callable is not modelled either.
- TryCatch.Normalise: the class's own constructor is not modelled, so the built-in `Error` ignoring its status and cause arguments is not captured.
- Integers stand for JavaScript numbers throughout. Fractions, infinities and floating-point rounding are not modelled. The one exception is `median`, whose even-length mean is a `real`.
- JsValue.StringToNumber: `Number` reads the full numeric-literal grammar, but a value that is not an integer gives `None`, the same as NaN. This covers `1.5`, `1e-1`, `.5` and `Infinity`. Integers beyond 2^53 are exact here, where JavaScript rounds them. The same gap reaches every member below that reads text with `Number`.
- ArrayUtils.Sort: the default comparator treats a first value such as `'1.5'` or `'Infinity'` as NaN, so it compares 0 with everything instead of by its value.
- JsValue.JsLess: comparing a string with a number goes through `Number`, so a string holding a fraction or `Infinity` compares false both ways. That affects `sortAsc`, `sortBy` and `median` on mixed keys.
- DateUtils.ArgumentsOf: a field such as `1.5`, which `Date.UTC` would truncate to 1, gives no arguments here.
- NumberUtils.RangeParser: a piece whose value is not an integer reads as NaN. A missing second piece and a NaN one are treated alike, as the source does, since both are falsy.
- JsValue.HasOwn: a function's own properties are `length`, `name` and, for the kinds that have one, `prototype`. Properties assigned to a function (`fn.x = 1`) are not represented. Neither are the `arguments` and `caller` that V8 gives sloppy-mode functions.
- Case mapping (`toLowerCase`, `toUpperCase`, `toLocaleLowerCase`) is modelled for ASCII only. Other characters pass through unchanged.
- StringUtils.PascalCaseLetters: the separator is a single character. A multi-character separator is not modelled.
- Objects keep their keys in insertion order. JavaScript moves integer-like keys to the front; that reordering is not modelled. The lemmas that state key order require keys that are not integer-like.
- ArrayUtils.CountBy: the result is a map, so the key order of the returned object is not modelled. The same holds for ArrayUtils.OccurrenceCountAgrees. The text of an inherited method is taken to be `function <name>() { [native code] }`, the form V8 prints; the exact text is up to the engine.
- ArrayUtils.CountsSumToLength: stated only for inputs in which no element names a member inherited from `Object.prototype`, because for those the tally is text rather than a number.
- Caching.Cache.Set: the key `__proto__` is excluded by precondition. Writing it replaces the store's prototype instead of storing a value, and the model has no prototype to replace.
- Caching.ReadAfterSet: stated for keys other than `__proto__` (`Caching.CacheKey`), for the same reason as Caching.Cache.Set. Caching.RunKeepsUntouched and Caching.GetAfterSetPersists require the same of the key and of every later call.
- Caching.RunKeepsUntouched: every call in the run must use a key other than `__proto__`, because Caching.Cache.Set and Caching.Cache.Remove do not model that key.
- Caching.GetAfterSetPersists: stated for a key, and for later calls, other than `__proto__`, as Caching.RunKeepsUntouched is.
- Caching.Cache.Remove: the key `__proto__` is excluded by precondition. `remove('__proto__')` writes `null` to the prototype setter, which cuts the store off from `Object.prototype`; the model does not represent that.
- Seqs.Unique: values are compared by structure. `new Set` compares objects, arrays, functions, dates and regular expressions by identity, so two distinct but equal-looking objects are merged here and kept apart by the source. For primitive elements the two comparisons agree. The same identity gap applies to the rows below.
- Seqs.UniqueFirstAppearance: first-appearance order is stated under structural equality, not under the identity comparison `Set` uses for objects.
- ArrayUtils.UniqueOncePerElement: "occurs once" is counted under structural equality, so `[{}, {}]` gives one element here and two in the source.
- Seqs.UniqueOfDistinct: "without repeats" means structurally distinct, so it does not cover `[{}, {}]`, which the source returns unchanged.
- ArrayUtils.RemoveItemSpec: `includes` compares objects by identity and the model compares them by structure, so `removeItem([{a: 1}], {a: 1})` keeps the element in the source and drops it here.
- ArrayUtils.IntersectionSpec: `Set.has` compares objects by identity and the model compares them by structure, so equal-looking but distinct objects are matched here and not in the source.
- ArrayUtils.OccurrencesCount: `===` compares objects by identity and the model's equality is structural, so distinct equal-looking objects are counted together here. The same holds for the occurrence counts of ArrayUtils.OccurrenceCount.
- ObjectUtils.GetUniqueByKeySpec: `Map` keys are compared by identity for objects, so object-valued keys that the source keeps apart are merged here when they are equal in structure. For primitive keys the two comparisons agree.
- JsValue.JsString: an own `toString` or `valueOf` on an object is code. It is not run, and neither is `Symbol.toPrimitive`. Every plain object therefore prints as `[object Object]`, and `Number` and `<` see that text. ObjectUtils.FlipPairs and TryCatch.NonErrorMessage inherit this gap.
- ObjectUtils.FlipPairs: a value with an own `toString` becomes the key that method returns in the source. Here it is always `[object Object]`.
- TryCatch.NonErrorMessage: the `[object Object]` message is stated only for a thrown object without an own `toString`. With one, the source uses whatever it returns, which the model does not run.
- JsValue.Member: an array or string reads only `length` and its indices. A date or regular expression reads nothing, and a function reads only `name`, `length` and `prototype`. Members their prototypes supply (`Array.prototype.map`, `Function.prototype.call`, and those of `Object.prototype` behind them) read as undefined. A function's `prototype` object is modelled as an empty plain object, so its `constructor` reads as `Object`, not the function. An object whose prototype has been replaced is not represented.
- ObjectUtils.FlattenObject: a `null` or array leaf under an own `__proto__` key becomes the result's prototype in the source, and any other leaf there is dropped. The model keeps no prototype, so it captures only that no own key is stored.
- ObjectUtils.FilterFalsyFromObject: a truthy object under an own `__proto__` key becomes the result's prototype in the source. A truthy primitive there is dropped. The model captures that no own key is stored, not the new prototype.
- ObjectUtils.UnionWithExclusion: an object under an own `__proto__` key is merged with the accumulator's prototype and installed as its new prototype. The same holds for ObjectUtils.MergeInto. Only the resulting absence of an own `__proto__` key is modelled.
- JsValue.StrLess: strings are compared by code point, while JavaScript's `<` compares UTF-16 code units. The two orders disagree between characters outside the Basic Multilingual Plane and those from U+E000 to U+FFFF.
- ObjectUtils.UnionLookup: on arrays, the merge treats them as objects keyed by index, as the source does. The lemmas about the union state key contents, not key order.
- ArrayUtils.HostSortOrdered: the order of the result is proved only for consistent comparators. For an inconsistent one, the model fixes one result where the host may give any order.
