/**
 * The array helpers: flattening, de-duplication, filters, index-or-predicate
 * insert/replace/remove, comparator sorts on copies, median and frequency
 * counts.
 */
module ArrayUtils {
  import opened Wrappers
  import opened Seqs
  import opened Sorting
  import opened JsValue
  import opened Is

  // ---------------------------------------------------------------- flattenArray

  function ConcatAll<T>(parts: seq<seq<T>>): (r: seq<T>)
    decreases |parts|
  {
    if parts == [] then [] else parts[0] + ConcatAll(parts[1..])
  }

  lemma {:induction false} ConcatAllAppend<T>(a: seq<seq<T>>, b: seq<seq<T>>)
    ensures ConcatAll(a + b) == ConcatAll(a) + ConcatAll(b)
    decreases |a|
  {
    if a == [] {
      assert a + b == b;
    } else {
      assert (a + b)[1..] == a[1..] + b;
      ConcatAllAppend(a[1..], b);
    }
  }

  lemma {:induction false} ConcatAllMembers<T>(parts: seq<seq<T>>, y: T)
    requires y in ConcatAll(parts)
    ensures exists i :: 0 <= i < |parts| && y in parts[i]
    decreases |parts|
  {
    if y !in parts[0] {
      ConcatAllMembers(parts[1..], y);
      var i :| 0 <= i < |parts[1..]| && y in parts[1..][i];
      assert y in parts[i + 1];
    }
  }

  /** What one element contributes: an array its flattened elements, anything else itself. */
  function Flat(v: Value): (r: seq<Value>)
    ensures forall y :: y in r ==> !y.Arr?
    decreases v
  {
    if v.Arr? then
      var parts := seq(|v.items|, i requires 0 <= i < |v.items| => Flat(v.items[i]));
      ConcatAllNoArr(parts);
      ConcatAll(parts)
    else [v]
  }

  lemma ConcatAllNoArr(parts: seq<seq<Value>>)
    requires forall i, y :: 0 <= i < |parts| && y in parts[i] ==> !y.Arr?
    ensures forall y :: y in ConcatAll(parts) ==> !y.Arr?
  {
    forall y | y in ConcatAll(parts)
      ensures !y.Arr?
    {
      ConcatAllMembers(parts, y);
    }
  }

  /** `flattenArray`: nested arrays at any depth are spliced in place, in order. */
  function FlattenArray(xs: seq<Value>): (r: seq<Value>)
    ensures forall y :: y in r ==> !y.Arr?
  {
    Flat(Arr(xs))
  }

  /** Flattening distributes over concatenation: it works element by element, left to right. */
  lemma FlattenArrayAppend(a: seq<Value>, b: seq<Value>)
    ensures FlattenArray(a + b) == FlattenArray(a) + FlattenArray(b)
  {
    var pa := seq(|a|, i requires 0 <= i < |a| => Flat(a[i]));
    var pb := seq(|b|, i requires 0 <= i < |b| => Flat(b[i]));
    var pab := seq(|a + b|, i requires 0 <= i < |a + b| => Flat((a + b)[i]));
    assert pab == pa + pb;
    ConcatAllAppend(pa, pb);
  }

  /** An array without nested arrays is its own flattening. */
  lemma {:induction false} FlattenArrayFlat(xs: seq<Value>)
    requires forall y :: y in xs ==> !y.Arr?
    ensures FlattenArray(xs) == xs
    decreases |xs|
  {
    if xs != [] {
      assert xs == [xs[0]] + xs[1..];
      FlattenArrayAppend([xs[0]], xs[1..]);
      assert forall y :: y in xs[1..] ==> y in xs;
      FlattenArrayFlat(xs[1..]);
      var p1 := seq(1, i requires 0 <= i < 1 => Flat([xs[0]][i]));
      assert p1 == [[xs[0]]];
      assert ConcatAll(p1) == [xs[0]] + ConcatAll(p1[1..]);
    }
  }

  /** Flattening twice is flattening once. */
  lemma FlattenArrayIdempotent(xs: seq<Value>)
    ensures FlattenArray(FlattenArray(xs)) == FlattenArray(xs)
  {
    FlattenArrayFlat(FlattenArray(xs));
  }

  lemma FlattenArrayExample()
    ensures FlattenArray([Num(1), Arr([Num(2), Arr([Num(3)])])]) == [Num(1), Num(2), Num(3)]
  {
    FlattenArrayAppend([Num(1)], [Arr([Num(2), Arr([Num(3)])])]);
    FlattenArrayAppend([Num(2)], [Arr([Num(3)])]);
    assert FlattenArray([Num(1)]) == [Num(1)] by { FlattenArrayFlat([Num(1)]); }
    assert FlattenArray([Num(2)]) == [Num(2)] by { FlattenArrayFlat([Num(2)]); }
    assert FlattenArray([Num(3)]) == [Num(3)] by { FlattenArrayFlat([Num(3)]); }
    assert [Num(1), Arr([Num(2), Arr([Num(3)])])] == [Num(1)] + [Arr([Num(2), Arr([Num(3)])])];
    assert [Num(2), Arr([Num(3)])] == [Num(2)] + [Arr([Num(3)])];
    SingleArr([Num(2), Arr([Num(3)])]);
    SingleArr([Num(3)]);
  }

  /** A lone nested array contributes its own flattening. */
  lemma SingleArr(ys: seq<Value>)
    ensures FlattenArray([Arr(ys)]) == FlattenArray(ys)
  {
    var p := seq(1, i requires 0 <= i < 1 => Flat([Arr(ys)][i]));
    assert p == [Flat(Arr(ys))];
    assert ConcatAll(p) == p[0] + ConcatAll(p[1..]);
  }

  // ---------------------------------------------------------------- unique

  /** `unique` (the distinct elements in order of first appearance, `Seqs.Unique`) holds each element of the input exactly once. */
  lemma UniqueOncePerElement<T(!new)>(s: seq<T>, x: T)
    ensures multiset(Unique(s))[x] == if x in s then 1 else 0
  {
    DistinctCount(Unique(s), x);
  }

  lemma {:induction false} DistinctCount<T(!new)>(s: seq<T>, x: T)
    requires Distinct(s)
    ensures multiset(s)[x] == if x in s then 1 else 0
    decreases |s|
  {
    if s != [] {
      assert s == [s[0]] + s[1..];
      assert Distinct(s[1..]);
      DistinctCount(s[1..], x);
      if x == s[0] {
        assert x !in s[1..];
      }
    }
  }

  // ---------------------------------------------------------------- removeItem / intersection

  function NotIn<T(==)>(values: seq<T>): T -> bool { x => x !in values }

  function In<T(==)>(values: seq<T>): T -> bool { x => x in values }

  /** `removeItem`: the elements not among `values`, in order. */
  function RemoveItem<T(==,!new)>(xs: seq<T>, values: seq<T>): seq<T> {
    Filter(NotIn(values), xs)
  }

  lemma RemoveItemSpec<T(!new)>(xs: seq<T>, values: seq<T>)
    ensures forall x :: x in RemoveItem(xs, values) <==> x in xs && x !in values
    ensures forall x :: x !in values ==> multiset(RemoveItem(xs, values))[x] == multiset(xs)[x]
    ensures Subseq(RemoveItem(xs, values), xs)
  {
    FilterMembers(NotIn(values), xs);
    FilterMultiset(NotIn(values), xs);
    FilterSubseq(NotIn(values), xs);
  }

  /** `intersection(arr1, arr2)`: the elements of `arr2` that occur in `arr1`, duplicates and order kept. */
  function Intersection<T(==,!new)>(arr1: seq<T>, arr2: seq<T>): seq<T> {
    Filter(In(arr1), arr2)
  }

  lemma IntersectionSpec<T(!new)>(arr1: seq<T>, arr2: seq<T>)
    ensures forall x :: x in Intersection(arr1, arr2) <==> x in arr1 && x in arr2
    ensures forall x :: x in arr1 ==> multiset(Intersection(arr1, arr2))[x] == multiset(arr2)[x]
    ensures Subseq(Intersection(arr1, arr2), arr2)
  {
    FilterMembers(In(arr1), arr2);
    FilterMultiset(In(arr1), arr2);
    FilterSubseq(In(arr1), arr2);
  }

  // ---------------------------------------------------------------- index operations

  /** An index argument: a number, or a callback given to `findIndex` with the element and its index. */
  datatype IndexArg<!T> = At(n: int) | Where(pred: (T, int) -> bool)

  /** `arr.findIndex(pred)`: the first matching position, or -1. */
  function FindIndex<T>(xs: seq<T>, pred: (T, int) -> bool): (r: int)
    ensures -1 <= r < |xs|
    ensures r == -1 <==> forall i :: 0 <= i < |xs| ==> !pred(xs[i], i)
    ensures r >= 0 ==> pred(xs[r], r) && forall i :: 0 <= i < r ==> !pred(xs[i], i)
  {
    FindFrom(xs, pred, 0)
  }

  function FindFrom<T>(xs: seq<T>, pred: (T, int) -> bool, k: nat): (r: int)
    requires k <= |xs|
    ensures r == -1 || k <= r < |xs|
    ensures r == -1 <==> forall i :: k <= i < |xs| ==> !pred(xs[i], i)
    ensures r >= 0 ==> pred(xs[r], r) && forall i :: k <= i < r ==> !pred(xs[i], i)
    decreases |xs| - k
  {
    if k == |xs| then -1
    else if pred(xs[k], k) then k
    else FindFrom(xs, pred, k + 1)
  }

  function ResolveIndex<T>(index: IndexArg<T>, xs: seq<T>): int {
    match index
    case At(n) => n
    case Where(p) => FindIndex(xs, p)
  }

  /** How `Array.prototype.slice` reads a position: negative counts from the end, and both ends clamp. */
  function SlicePos(n: int, len: nat): (r: nat)
    ensures r <= len
    ensures 0 <= n <= len ==> r == n
    ensures n > len ==> r == len
    ensures n < 0 && len + n >= 0 ==> r == len + n
    ensures len + n < 0 ==> r == 0
  {
    if n < 0 then (if len + n < 0 then 0 else len + n)
    else if n > len then len else n
  }

  /** `arr.slice(0, n)` */
  function SliceTo<T>(xs: seq<T>, n: int): seq<T> { xs[..SlicePos(n, |xs|)] }

  /** `arr.slice(n)` */
  function SliceFrom<T>(xs: seq<T>, n: int): seq<T> { xs[SlicePos(n, |xs|)..] }

  /** `insertItemAtIndex(index, value, arr)`. */
  function InsertItemAtIndex<T>(index: IndexArg<T>, value: T, arr: Option<seq<T>>): seq<T> {
    match arr
    case None => []
    case Some(xs) =>
      var i := ResolveIndex(index, xs);
      if i == -1 then xs else SliceTo(xs, i) + [value] + SliceFrom(xs, i)
  }

  /** `replaceItemAtIndex(index, newValue, arr)`. */
  function ReplaceItemAtIndex<T>(index: IndexArg<T>, newValue: T, arr: Option<seq<T>>): seq<T> {
    match arr
    case None => []
    case Some(xs) =>
      var i := ResolveIndex(index, xs);
      if i == -1 then xs else SliceTo(xs, i) + [newValue] + SliceFrom(xs, i + 1)
  }

  /** `removeItemAtIndex(index, arr)`. */
  function RemoveItemAtIndex<T>(index: IndexArg<T>, arr: Option<seq<T>>): seq<T> {
    match arr
    case None => []
    case Some(xs) =>
      var i := ResolveIndex(index, xs);
      if i == -1 then xs else SliceTo(xs, i) + SliceFrom(xs, i + 1)
  }

  /** An absent array gives an empty one; an index resolving to -1 gives the input back. */
  lemma IndexOpsEdgeCases<T>(index: IndexArg<T>, v: T, arr: Option<seq<T>>)
    ensures arr.None? ==> InsertItemAtIndex(index, v, arr) == [] &&
                          ReplaceItemAtIndex(index, v, arr) == [] && RemoveItemAtIndex(index, arr) == []
    ensures arr.Some? && ResolveIndex(index, arr.value) == -1 ==>
              InsertItemAtIndex(index, v, arr) == arr.value &&
              ReplaceItemAtIndex(index, v, arr) == arr.value &&
              RemoveItemAtIndex(index, arr) == arr.value
  {
  }

  /** A callback that matches nothing resolves to -1. */
  lemma NoMatchResolvesToSentinel<T>(p: (T, int) -> bool, xs: seq<T>)
    requires forall i :: 0 <= i < |xs| ==> !p(xs[i], i)
    ensures ResolveIndex(Where(p), xs) == -1
  {
  }

  /** Inserting at a position within the array. */
  lemma InsertInRange<T>(index: IndexArg<T>, v: T, xs: seq<T>)
    requires 0 <= ResolveIndex(index, xs) <= |xs|
    ensures var i := ResolveIndex(index, xs);
            InsertItemAtIndex(index, v, Some(xs)) == xs[..i] + [v] + xs[i..]
  {
  }

  /** Replacing at a position within the array changes that position only. */
  lemma ReplaceInRange<T>(index: IndexArg<T>, v: T, xs: seq<T>)
    requires 0 <= ResolveIndex(index, xs) < |xs|
    ensures ReplaceItemAtIndex(index, v, Some(xs)) == xs[ResolveIndex(index, xs) := v]
  {
    var i := ResolveIndex(index, xs);
    assert xs[..i] + [v] + xs[i + 1..] == xs[i := v];
  }

  /** Removing at a position within the array drops that position only. */
  lemma RemoveInRange<T>(index: IndexArg<T>, xs: seq<T>)
    requires 0 <= ResolveIndex(index, xs) < |xs|
    ensures var i := ResolveIndex(index, xs);
            var r := RemoveItemAtIndex(index, Some(xs));
            |r| == |xs| - 1 &&
            (forall j :: 0 <= j < i ==> r[j] == xs[j]) &&
            (forall j :: i <= j < |r| ==> r[j] == xs[j + 1])
  {
    var i := ResolveIndex(index, xs);
    assert RemoveItemAtIndex(index, Some(xs)) == xs[..i] + xs[i + 1..];
  }

  /** A predicate resolves to its first match, so insertion goes before the first matching element. */
  lemma InsertBeforeFirstMatch<T>(p: (T, int) -> bool, v: T, xs: seq<T>, k: nat)
    requires k < |xs| && p(xs[k], k) && forall i :: 0 <= i < k ==> !p(xs[i], i)
    ensures InsertItemAtIndex(Where(p), v, Some(xs)) == xs[..k] + [v] + xs[k..]
  {
  }

  /**
   * A numeric index past the end is clamped by `slice`: insert and replace
   * append the value, remove returns the elements unchanged.
   */
  lemma IndexPastEnd<T>(n: int, v: T, xs: seq<T>)
    requires n > |xs|
    ensures InsertItemAtIndex(At(n), v, Some(xs)) == xs + [v]
    ensures ReplaceItemAtIndex(At(n), v, Some(xs)) == xs + [v]
    ensures RemoveItemAtIndex(At(n), Some(xs)) == xs
  {
  }

  /** `replaceItemAtIndex(3, 9, [1, 2, 3])` appends rather than returning the array unchanged. */
  lemma ReplaceAtLengthAppends()
    ensures ReplaceItemAtIndex(At(3), 9, Some([1, 2, 3])) == [1, 2, 3, 9]
  {
  }

  /** Other negative numbers count from the end, as `slice` does. */
  lemma NegativeIndex<T>(n: int, v: T, xs: seq<T>)
    requires n < -1 && |xs| + n >= 0
    ensures var i := |xs| + n;
            InsertItemAtIndex(At(n), v, Some(xs)) == xs[..i] + [v] + xs[i..] &&
            ReplaceItemAtIndex(At(n), v, Some(xs)) == xs[i := v]
  {
    var i := |xs| + n;
    assert xs[..i] + [v] + xs[i + 1..] == xs[i := v];
  }

  // ---------------------------------------------------------------- sorts

  /** The host sort of a copy: defined elements sorted by `cmp`, every `undefined` moved to the end. */
  function HostSort(xs: seq<Value>, cmp: (Value, Value) -> int): seq<Value> {
    InsertionSort(Filter(IsDefined, xs), cmp) + Filter(IsUndefinedValue, xs)
  }

  function IsDefined(v: Value): bool { !v.Undefined? }

  function IsUndefinedValue(v: Value): bool { v.Undefined? }

  /** Copy `xs` into a fresh array, sort it in place, and read it back; the input is left alone. */
  method SortCopy(xs: seq<Value>, cmp: (Value, Value) -> int) returns (r: seq<Value>)
    ensures r == HostSort(xs, cmp)
  {
    var defined := Filter(IsDefined, xs);
    var a := new Value[|defined|](i requires 0 <= i < |defined| => defined[i]);
    assert a[..] == defined;
    SortInPlace(a, cmp);
    r := a[..] + Filter(IsUndefinedValue, xs);
  }

  /** The host sort returns a permutation. */
  lemma HostSortPermutes(xs: seq<Value>, cmp: (Value, Value) -> int)
    ensures multiset(HostSort(xs, cmp)) == multiset(xs)
  {
    var d := Filter(IsDefined, xs);
    InsertionSortPermutes(d, cmp);
    FilterMultiset(IsDefined, xs);
    FilterMultiset(IsUndefinedValue, xs);
    assert multiset(d) + multiset(Filter(IsUndefinedValue, xs)) == multiset(xs);
  }

  /** Without undefined elements the host sort is the comparator sort itself. */
  lemma HostSortDefined(xs: seq<Value>, cmp: (Value, Value) -> int)
    requires forall i :: 0 <= i < |xs| ==> !xs[i].Undefined?
    ensures HostSort(xs, cmp) == InsertionSort(xs, cmp)
  {
    FilterAll(IsDefined, xs);
    FilterMembers(IsUndefinedValue, xs);
    assert Filter(IsUndefinedValue, xs) == [];
  }

  /** Reading `v[key]` for a comparator; elements never are nullish where the comparator runs. */
  function KeyOf(v: Value, key: string): Value {
    if v.Undefined? || v.Null? then Undefined else Member(v, key)
  }

  /** The comparator of `sortAsc`: by the literal property `key`. */
  function AscKeyCmp(a: Value, b: Value): int {
    if JsLess(KeyOf(a, "key"), KeyOf(b, "key")) then -1
    else if JsLess(KeyOf(b, "key"), KeyOf(a, "key")) then 1
    else 0
  }

  predicate NoNull(xs: seq<Value>) { forall i :: 0 <= i < |xs| ==> !xs[i].Null? }

  /** `sortAsc`: a sorted copy, compared on each element's `key` property (`a.key` on null would throw). */
  method SortAsc(xs: seq<Value>) returns (r: seq<Value>)
    requires NoNull(xs)
    ensures r == HostSort(xs, AscKeyCmp)
  {
    r := SortCopy(xs, AscKeyCmp);
  }

  /** `fSort`, with `None` standing for NaN: NaN compares equal to everything. */
  function FSort(x: Option<int>, y: Option<int>): (r: int)
    ensures x.Some? && y.Some? ==> (r > 0 <==> x.value > y.value) && (r < 0 <==> x.value < y.value)
    ensures x.None? || y.None? ==> r == 0
  {
    if x.Some? && y.Some? && x.value > y.value then 1
    else if x.Some? && y.Some? && x.value < y.value then -1
    else 0
  }

  /** `Object.values(v)[0]`. */
  function FirstValue(v: Value): Value {
    var es := OwnEntries(v);
    if es == [] then Undefined else es[0].1
  }

  /** The default comparator of `sort`: `Number` of each element's first property value. */
  function DefaultCmp(a: Value, b: Value): int {
    FSort(ToNumber(FirstValue(a)), ToNumber(FirstValue(b)))
  }

  /** `sort(arr, fSorting)`: a sorted copy by the given comparator or, when none is given, by `DefaultCmp`. */
  method Sort(xs: seq<Value>, fSorting: Option<(Value, Value) -> int>) returns (r: seq<Value>)
    requires fSorting.None? ==> NoNull(xs)
    ensures r == HostSort(xs, fSorting.GetOr(DefaultCmp))
  {
    var fn := if fSorting.Some? then fSorting.value else DefaultCmp;
    r := SortCopy(xs, fn);
  }

  /** Reads property `key` of an element. */
  function KeyReader(key: string): Value -> Value { v => KeyOf(v, key) }

  /** The comparator `sortBy` passes to `sort`: `order` when `m[key] > n[key]`, `-order` when `m[key] < n[key]`, else 0. */
  function ByKeyCmp(order: int, key: string): (Value, Value) -> int {
    KeyCmp(KeyReader(key), JsLess, order)
  }

  /** Whether `sortBy` sorts at all: a non-empty key that is an own property of the first element. */
  predicate SortByApplies(xs: seq<Value>, key: string) {
    xs != [] && HasProperty(xs[0], key)
  }

  /** `sortBy(arr, order, key)`. */
  method SortBy(xs: seq<Value>, order: int, key: string) returns (r: seq<Value>)
    requires SortByApplies(xs, key) ==> NoNull(xs)
    ensures !SortByApplies(xs, key) ==> r == xs
    ensures SortByApplies(xs, key) ==> r == HostSort(xs, ByKeyCmp(order, key))
  {
    if !(xs != [] && HasProperty(xs[0], key)) {
      return xs;
    }
    r := Sort(xs, Some(ByKeyCmp(order, key)));
  }

  /** `<` never holds in both directions. */
  lemma JsLessAsymmetric(a: Value, b: Value)
    requires JsLess(a, b)
    ensures !JsLess(b, a)
  {
    var pa, pb := ToPrimitive(a), ToPrimitive(b);
    if pa.Str? && pb.Str? {
      if StrLess(pb.s, pa.s) {
        StrLessTransitive(pa.s, pb.s, pa.s);
        StrLessIrreflexive(pa.s);
      }
    }
  }

  predicate NumKeys(xs: seq<Value>, key: string) { forall i :: 0 <= i < |xs| ==> KeyOf(xs[i], key).Num? }

  predicate StrKeys(xs: seq<Value>, key: string) { forall i :: 0 <= i < |xs| ==> KeyOf(xs[i], key).Str? }

  /** When every element holds a number, or every element a string, under `key`, `<` totally orders those values. */
  lemma JsLessTotalOnKeys(xs: seq<Value>, key: string)
    requires NumKeys(xs, key) || StrKeys(xs, key)
    ensures StrictTotalOn(KeyReader(key), JsLess, xs)
  {
    var k := KeyReader(key);
    forall m | m in xs
      ensures !JsLess(k(m), k(m))
    {
      if StrKeys(xs, key) {
        StrLessIrreflexive(k(m).s);
      }
    }
    forall m, n | m in xs && n in xs
      ensures k(m) == k(n) || JsLess(k(m), k(n)) || JsLess(k(n), k(m))
    {
      if StrKeys(xs, key) {
        StrLessTotal(k(m).s, k(n).s);
      }
    }
    forall a, b, c | a in xs && b in xs && c in xs && JsLess(k(a), k(b)) && JsLess(k(b), k(c))
      ensures JsLess(k(a), k(c))
    {
      if StrKeys(xs, key) {
        StrLessTransitive(k(a).s, k(b).s, k(c).s);
      }
    }
  }

  ghost predicate StableFor(cmp: (Value, Value) -> int, xs: seq<Value>, r: seq<Value>) {
    forall e :: e in xs ==> Filter(TiedWith(cmp, e), r) == Filter(TiedWith(cmp, e), xs)
  }

  lemma ConsistentOnSub(cmp: (Value, Value) -> int, xs: seq<Value>, ys: seq<Value>)
    requires ConsistentOn(cmp, xs) && forall y :: y in ys ==> y in xs
    ensures ConsistentOn(cmp, ys)
  {
  }

  /** For a consistent comparator and no undefined elements: an ordered, stable permutation. */
  lemma HostSortOrdered(xs: seq<Value>, cmp: (Value, Value) -> int)
    requires forall i :: 0 <= i < |xs| ==> !xs[i].Undefined?
    requires ConsistentOn(cmp, xs)
    ensures multiset(HostSort(xs, cmp)) == multiset(xs)
    ensures SortedBy(cmp, HostSort(xs, cmp))
    ensures StableFor(cmp, xs, HostSort(xs, cmp))
  {
    HostSortDefined(xs, cmp);
    HostSortPermutes(xs, cmp);
    InsertionSortSorted(xs, cmp);
    forall e | e in xs
      ensures Filter(TiedWith(cmp, e), InsertionSort(xs, cmp)) == Filter(TiedWith(cmp, e), xs)
    {
      ConsistentOnSub(cmp, xs, xs + [e]);
      InsertionSortStable(xs, cmp, e);
    }
  }

  /**
   * `sortBy` on elements that all hold numbers (or all hold strings) under
   * `key`: a stable permutation, ascending on `key` for order 1 and
   * descending for order -1.
   */
  lemma SortByOrdered(xs: seq<Value>, order: int, key: string)
    requires order == 1 || order == -1
    requires NumKeys(xs, key) || StrKeys(xs, key)
    ensures var r := HostSort(xs, ByKeyCmp(order, key));
            multiset(r) == multiset(xs) &&
            StableFor(ByKeyCmp(order, key), xs, r) &&
            forall i, j :: 0 <= i < j < |r| ==>
              if order == 1 then !JsLess(KeyOf(r[j], key), KeyOf(r[i], key))
              else !JsLess(KeyOf(r[i], key), KeyOf(r[j], key))
  {
    var cmp := ByKeyCmp(order, key);
    forall i | 0 <= i < |xs|
      ensures !xs[i].Undefined?
    {
      assert KeyOf(xs[i], key) != Undefined;
    }
    JsLessTotalOnKeys(xs, key);
    KeyCmpConsistent(KeyReader(key), JsLess, order, xs);
    HostSortOrdered(xs, cmp);
    var r := HostSort(xs, cmp);
    forall i, j | 0 <= i < j < |r|
      ensures if order == 1 then !JsLess(KeyOf(r[j], key), KeyOf(r[i], key))
              else !JsLess(KeyOf(r[i], key), KeyOf(r[j], key))
    {
      ByKeyCmpNonPositive(order, key, r[i], r[j]);
    }
  }

  lemma ByKeyCmpNonPositive(order: int, key: string, a: Value, b: Value)
    requires order == 1 || order == -1
    requires ByKeyCmp(order, key)(a, b) <= 0
    ensures if order == 1 then !JsLess(KeyOf(b, key), KeyOf(a, key)) else !JsLess(KeyOf(a, key), KeyOf(b, key))
  {
    var ka, kb := KeyReader(key)(a), KeyReader(key)(b);
    assert ka == KeyOf(a, key) && kb == KeyOf(b, key);
    assert ByKeyCmp(order, key)(a, b) == if JsLess(kb, ka) then order else if JsLess(ka, kb) then -order else 0;
    if JsLess(kb, ka) {
      JsLessAsymmetric(kb, ka);
    }
  }

  /** The same on numbers, in integer terms. */
  lemma SortByNumbers(xs: seq<Value>, order: int, key: string)
    requires order == 1 || order == -1
    requires NumKeys(xs, key)
    ensures var r := HostSort(xs, ByKeyCmp(order, key));
            NumKeys(r, key) &&
            forall i, j :: 0 <= i < j < |r| ==> order * KeyOf(r[i], key).n <= order * KeyOf(r[j], key).n
  {
    SortByOrdered(xs, order, key);
    var r := HostSort(xs, ByKeyCmp(order, key));
    forall i | 0 <= i < |r|
      ensures KeyOf(r[i], key).Num?
    {
      assert r[i] in multiset(xs);
      assert r[i] in xs;
    }
    forall i, j | 0 <= i < j < |r|
      ensures order * KeyOf(r[i], key).n <= order * KeyOf(r[j], key).n
    {
      JsLessPrimitives(KeyOf(r[i], key), KeyOf(r[j], key));
      JsLessPrimitives(KeyOf(r[j], key), KeyOf(r[i], key));
    }
  }

  /** Values that do not compare either way (a number against non-numeric text) are ties. */
  lemma ByKeyCmpIncomparable(order: int, m: Value, n: Value, key: string)
    requires !JsLess(KeyOf(m, key), KeyOf(n, key)) && !JsLess(KeyOf(n, key), KeyOf(m, key))
    ensures ByKeyCmp(order, key)(m, n) == 0
  {
  }

  /** With order 1 the smaller key comes first. */
  lemma SortByOrderOneIsAscending()
    ensures HostSort([Obj([("a", Num(2))]), Obj([("a", Num(1))])], ByKeyCmp(1, "a")) ==
            [Obj([("a", Num(1))]), Obj([("a", Num(2))])]
  {
    var x, y := Obj([("a", Num(2))]), Obj([("a", Num(1))]);
    DefinedPair(x, y);
    OrderOneCompares(x, y);
    SortTwo(x, y, ByKeyCmp(1, "a"));
  }

  /** The default comparator reads hexadecimal text: `sort([{v: '0x10'}, {v: '2'}])` puts `'2'` first. */
  lemma DefaultSortReadsHex()
    ensures HostSort([Obj([("v", Str("0x10"))]), Obj([("v", Str("2"))])], DefaultCmp) ==
            [Obj([("v", Str("2"))]), Obj([("v", Str("0x10"))])]
  {
    var x, y := Obj([("v", Str("0x10"))]), Obj([("v", Str("2"))]);
    DefinedPair(x, y);
    HexComparesAbove(x, y);
    SortTwo(x, y, DefaultCmp);
  }

  lemma HexComparesAbove(x: Value, y: Value)
    requires x == Obj([("v", Str("0x10"))]) && y == Obj([("v", Str("2"))])
    ensures DefaultCmp(x, y) == 1
  {
    assert FirstValue(x) == Str("0x10") && FirstValue(y) == Str("2");
    RadixLiterals();
    StringToNumberOfInt(2);
    assert Decimal.IntToString(2) == "2";
  }

  /**
   * A key inherited from Object.prototype is read as well: on `toString`, an
   * object without an own one compares the built-in's text, which sorts before `'z'`.
   */
  lemma SortByInheritedKey()
    ensures SortByApplies([Obj([("toString", Str("z"))]), Obj([("a", Num(1))])], "toString")
    ensures HostSort([Obj([("toString", Str("z"))]), Obj([("a", Num(1))])], ByKeyCmp(1, "toString")) ==
            [Obj([("a", Num(1))]), Obj([("toString", Str("z"))])]
  {
    var x, y := Obj([("toString", Str("z"))]), Obj([("a", Num(1))]);
    assert Assoc.Keys(x.props) == ["toString"];
    DefinedPair(x, y);
    InheritedKeyCompares(x, y);
    SortTwo(x, y, ByKeyCmp(1, "toString"));
  }

  lemma InheritedKeyCompares(x: Value, y: Value)
    requires x == Obj([("toString", Str("z"))]) && y == Obj([("a", Num(1))])
    ensures ByKeyCmp(1, "toString")(x, y) == 1
  {
    var f := InheritedMember("toString");
    assert Assoc.Keys(x.props) == ["toString"] && Assoc.Keys(y.props) == ["a"];
    assert KeyReader("toString")(x) == Str("z") && KeyReader("toString")(y) == f;
    var t := NativeSource("toString");
    assert ToPrimitive(f) == Str(t);
    assert t[0] == 'f' && "z"[0] == 'z';
    assert JsLess(f, Str("z")) && !JsLess(Str("z"), f);
  }

  /** Functions sort by their own `name`. */
  lemma SortByFunctionName(f: Value, g: Value)
    requires f.Fn? && g.Fn? && f.name == "b" && g.name == "a"
    ensures SortByApplies([f, g], "name")
    ensures HostSort([f, g], ByKeyCmp(1, "name")) == [g, f]
  {
    DefinedPair(f, g);
    assert KeyReader("name")(f) == Str("b") && KeyReader("name")(g) == Str("a");
    assert JsLess(Str("a"), Str("b")) && !JsLess(Str("b"), Str("a"));
    SortTwo(f, g, ByKeyCmp(1, "name"));
  }

  /** Two defined values pass the first filter whole and leave nothing to the second. */
  lemma DefinedPair(x: Value, y: Value)
    requires !x.Undefined? && !y.Undefined?
    ensures Filter(IsDefined, [x, y]) == [x, y]
    ensures Filter(IsUndefinedValue, [x, y]) == []
  {
    FilterAll(IsDefined, [x, y]);
    FilterMembers(IsUndefinedValue, [x, y]);
  }

  /** Two elements the comparator puts the other way round are swapped. */
  lemma SortTwo<T>(x: T, y: T, cmp: (T, T) -> int)
    requires cmp(x, y) > 0
    ensures InsertionSort([x, y], cmp) == [y, x]
  {
    assert [x, y][..1] == [x];
    assert [x][..0] == [];
    assert InsertionSort([x], cmp) == [x];
    assert Insert(y, [x], cmp) == [y, x];
  }

  lemma OrderOneCompares(x: Value, y: Value)
    requires x == Obj([("a", Num(2))]) && y == Obj([("a", Num(1))])
    ensures ByKeyCmp(1, "a")(x, y) == 1
  {
    assert KeyOf(x, "a") == Num(2) && KeyOf(y, "a") == Num(1);
    JsLessPrimitives(Num(1), Num(2));
    assert KeyReader("a")(x) == Num(2) && KeyReader("a")(y) == Num(1);
  }

  /** `sortAsc`'s comparator agrees with ordering by property `key` ascending. */
  lemma AscKeyCmpIsKeyCmp(a: Value, b: Value)
    ensures AscKeyCmp(a, b) == KeyCmp(KeyReader("key"), JsLess, 1)(a, b)
  {
    if JsLess(KeyOf(a, "key"), KeyOf(b, "key")) {
      JsLessAsymmetric(KeyOf(a, "key"), KeyOf(b, "key"));
    }
  }

  /** `sortAsc` on elements whose `key` values are all numbers or all strings: an ascending stable permutation. */
  lemma SortAscOrdered(xs: seq<Value>)
    requires NumKeys(xs, "key") || StrKeys(xs, "key")
    ensures var r := HostSort(xs, AscKeyCmp);
            multiset(r) == multiset(xs) && StableFor(AscKeyCmp, xs, r) &&
            forall i, j :: 0 <= i < j < |r| ==> !JsLess(KeyOf(r[j], "key"), KeyOf(r[i], "key"))
  {
    forall i | 0 <= i < |xs|
      ensures !xs[i].Undefined?
    {
      assert KeyOf(xs[i], "key") != Undefined;
    }
    JsLessTotalOnKeys(xs, "key");
    KeyCmpConsistent(KeyReader("key"), JsLess, 1, xs);
    forall a, b
      ensures AscKeyCmp(a, b) == KeyCmp(KeyReader("key"), JsLess, 1)(a, b)
    {
      AscKeyCmpIsKeyCmp(a, b);
    }
    HostSortOrdered(xs, AscKeyCmp);
    var r := HostSort(xs, AscKeyCmp);
    forall i, j | 0 <= i < j < |r|
      ensures !JsLess(KeyOf(r[j], "key"), KeyOf(r[i], "key"))
    {
      assert AscKeyCmp(r[i], r[j]) <= 0;
    }
  }

  lemma DefaultCmpConsistent(xs: seq<Value>)
    requires forall i :: 0 <= i < |xs| ==> ToNumber(FirstValue(xs[i])).Some?
    ensures ConsistentOn(DefaultCmp, xs)
  {
    forall x | x in xs
      ensures ToNumber(FirstValue(x)).Some?
    {
      var i :| 0 <= i < |xs| && xs[i] == x;
    }
  }

  /** Sorting with the default comparator orders by the number in each element's first property, when there is one. */
  lemma DefaultSortOrdered(xs: seq<Value>)
    requires forall i :: 0 <= i < |xs| ==> !xs[i].Undefined? && ToNumber(FirstValue(xs[i])).Some?
    ensures var r := HostSort(xs, DefaultCmp);
            multiset(r) == multiset(xs) && StableFor(DefaultCmp, xs, r) &&
            forall i, j :: 0 <= i < j < |r| ==>
              ToNumber(FirstValue(r[i])).Some? && ToNumber(FirstValue(r[j])).Some? &&
              ToNumber(FirstValue(r[i])).value <= ToNumber(FirstValue(r[j])).value
  {
    DefaultCmpConsistent(xs);
    HostSortOrdered(xs, DefaultCmp);
    var r := HostSort(xs, DefaultCmp);
    forall i | 0 <= i < |r|
      ensures ToNumber(FirstValue(r[i])).Some?
    {
      assert r[i] in multiset(xs);
      assert r[i] in xs;
    }
  }

  // ---------------------------------------------------------------- median

  function Sub(a: int, b: int): int { a - b }

  predicate Ascending(s: seq<int>) { forall i, j :: 0 <= i < j < |s| ==> s[i] <= s[j] }

  /** The middle of an ascending sequence: the middle element, or the mean of the two middle ones. */
  function MiddleOf(s: seq<int>): real {
    if |s| == 0 then 0.0
    else if |s| % 2 == 1 then s[|s| / 2] as real
    else (s[|s| / 2 - 1] + s[|s| / 2]) as real / 2.0
  }

  /** `median`: the middle of the sorted copy (numbers are integers here, the mean a real). */
  method Median(xs: seq<int>) returns (m: real)
    ensures m == MiddleOf(InsertionSort(xs, Sub))
  {
    if |xs| == 0 {
      return 0.0;
    }
    var a := new int[|xs|](i requires 0 <= i < |xs| => xs[i]);
    assert a[..] == xs;
    SortInPlace(a, Sub);
    m := MiddleOfArray(a);
  }

  /** The middle element, or the mean of the two middle elements, of a non-empty array. */
  method MiddleOfArray(a: array<int>) returns (m: real)
    requires a.Length > 0
    ensures m == MiddleOf(a[..])
  {
    var mid := a.Length / 2;
    if a.Length % 2 != 0 {
      m := a[mid] as real;
    } else {
      m := (a[mid - 1] + a[mid]) as real / 2.0;
    }
  }

  /** Subtraction is a consistent comparator, and sorting by it is ascending. */
  lemma SortBySubAscending(xs: seq<int>)
    ensures Ascending(InsertionSort(xs, Sub))
    ensures multiset(InsertionSort(xs, Sub)) == multiset(xs)
  {
    InsertionSortSorted(xs, Sub);
    InsertionSortPermutes(xs, Sub);
  }

  lemma AscendingHeadIsLeast(s: seq<int>, x: int)
    requires Ascending(s) && x in multiset(s)
    ensures s[0] <= x
  {
    assert x in s;
    var i :| 0 <= i < |s| && s[i] == x;
  }

  lemma SameHead(s: seq<int>, t: seq<int>)
    requires Ascending(s) && Ascending(t) && multiset(s) == multiset(t) && s != []
    ensures t != [] && s[0] == t[0] && multiset(s[1..]) == multiset(t[1..])
  {
    assert s[0] in multiset(t);
    assert t != [];
    assert t[0] in multiset(s);
    AscendingHeadIsLeast(s, t[0]);
    AscendingHeadIsLeast(t, s[0]);
    assert s[0] == t[0];
    assert s == [s[0]] + s[1..];
    assert t == [t[0]] + t[1..];
    assert multiset(s) == multiset{s[0]} + multiset(s[1..]);
    assert multiset(t) == multiset{t[0]} + multiset(t[1..]);
    assert multiset(s[1..]) == multiset(s) - multiset{s[0]};
    assert multiset(t[1..]) == multiset(t) - multiset{t[0]};
  }

  lemma AscendingTail(s: seq<int>)
    requires s != [] && Ascending(s)
    ensures Ascending(s[1..])
  {
  }

  /** The ascending arrangement of a multiset of integers is unique, so the median does not depend on the sort. */
  lemma {:induction false} AscendingUnique(s: seq<int>, t: seq<int>)
    requires Ascending(s) && Ascending(t) && multiset(s) == multiset(t)
    ensures s == t
    decreases |s|
  {
    if s == [] {
      assert |t| == |multiset(t)| == 0;
    } else {
      SameHead(s, t);
      AscendingTail(s);
      AscendingTail(t);
      AscendingUnique(s[1..], t[1..]);
      assert s == [s[0]] + s[1..];
      assert t == [t[0]] + t[1..];
    }
  }

  lemma MedianOfAnySortedCopy(xs: seq<int>, t: seq<int>)
    requires Ascending(t) && multiset(t) == multiset(xs)
    ensures MiddleOf(t) == MiddleOf(InsertionSort(xs, Sub))
  {
    SortBySubAscending(xs);
    AscendingUnique(t, InsertionSort(xs, Sub));
  }

  lemma MedianExamples()
    ensures MiddleOf([1, 3, 5]) == 3.0
    ensures MiddleOf([1, 2, 3, 4]) == 2.5
    ensures MiddleOf([]) == 0.0
  {
  }

  // ---------------------------------------------------------------- countBy, occurrenceCount

  /** The property key each item is filed under: its string form. */
  function KeysOf(xs: seq<Value>): (ks: seq<string>)
    ensures |ks| == |xs| && forall i :: 0 <= i < |xs| ==> ks[i] == JsString(xs[i])
  {
    seq(|xs|, i requires 0 <= i < |xs| => JsString(xs[i]))
  }

  /** `countBy`'s parameter type, `Array<number | string>`. */
  predicate NumbersOrStrings(xs: seq<Value>) {
    forall i :: 0 <= i < |xs| ==> xs[i].Num? || xs[i].Str?
  }

  /** `counts` holds exactly the keys of `ks`, each with its number of occurrences. */
  ghost predicate Tallies(counts: map<string, nat>, ks: seq<string>) {
    (forall k :: k in counts <==> k in ks) &&
    (forall k :: k in counts ==> counts[k] == multiset(ks)[k])
  }

  /** `v + 1` for a number, a string or a function: numbers add, anything else is joined as text. */
  function PlusOne(v: Value): Value {
    if v.Num? then Num(v.n + 1) else Str(JsString(v) + "1")
  }

  /** `n` copies of the digit 1. */
  function Ones(n: nat): (r: string)
    ensures |r| == n && forall i :: 0 <= i < n ==> r[i] == '1'
  {
    seq(n, _ => '1')
  }

  /**
   * What `countBy` leaves under a key seen `n` times: the count, or, for a
   * name the empty object inherits, the inherited member's text followed by
   * one "1" per occurrence (`in` already holds for it, so `+= 1` starts from
   * the inherited member).
   */
  function TallyOf(key: string, n: nat): Value {
    if key in InheritedNames then Str(JsString(InheritedMember(key)) + Ones(n)) else Num(n)
  }

  /**
   * The object `countBy` builds from the keys `ks`: every key but
   * `__proto__` (whose setter ignores the string it is given), each holding
   * its tally.
   */
  ghost predicate CountTallies(counts: map<string, Value>, ks: seq<string>) {
    (forall k :: k in counts <==> k in ks && k != "__proto__") &&
    (forall k :: k in counts ==> counts[k] == TallyOf(k, multiset(ks)[k]))
  }

  /** One more occurrence of a key advances its tally by `+ 1`. */
  lemma PlusOneTally(key: string, n: nat)
    requires n > 0 || key in InheritedNames
    ensures PlusOne(if n == 0 then InheritedMember(key) else TallyOf(key, n)) == TallyOf(key, n + 1)
  {
    assert Ones(n + 1) == Ones(n) + "1";
    if key in InheritedNames && n == 0 {
      if key == "__proto__" {
        assert JsString(InheritedMember(key)) == "[object Object]";
      }
      assert JsString(InheritedMember(key)) + Ones(1) == JsString(InheritedMember(key)) + "1";
    }
  }

  /** Adding an occurrence of `key` to `ks` raises its multiplicity by one and no other. */
  lemma MultisetSnoc(ks: seq<string>, key: string)
    ensures multiset(ks + [key])[key] == multiset(ks)[key] + 1
    ensures forall k :: k != key ==> multiset(ks + [key])[k] == multiset(ks)[k]
    ensures forall k :: k in ks + [key] <==> k in ks || k == key
  {
    assert multiset(ks + [key]) == multiset(ks) + multiset{key};
  }

  /** Storing the next tally of `key` keeps `CountTallies`. */
  lemma CountUpdate(counts: map<string, Value>, ks: seq<string>, key: string, v: Value)
    requires CountTallies(counts, ks)
    requires key != "__proto__" && v == TallyOf(key, multiset(ks)[key] + 1)
    ensures CountTallies(counts[key := v], ks + [key])
  {
    MultisetSnoc(ks, key);
  }

  /** The reduce's write to `__proto__` changes nothing, and nothing is owed for it. */
  lemma CountSkip(counts: map<string, Value>, ks: seq<string>)
    requires CountTallies(counts, ks)
    ensures CountTallies(counts, ks + ["__proto__"])
  {
    MultisetSnoc(ks, "__proto__");
  }

  /** A key already counted, or one inherited and seen for the first time, has its tally advanced by `+ 1`. */
  lemma CountNext(counts: map<string, Value>, ks: seq<string>, key: string)
    requires CountTallies(counts, ks) && key != "__proto__"
    ensures key in counts ==> PlusOne(counts[key]) == TallyOf(key, multiset(ks)[key] + 1)
    ensures key !in counts && key in InheritedNames ==>
      PlusOne(InheritedMember(key)) == TallyOf(key, multiset(ks)[key] + 1)
    ensures key !in counts && key !in InheritedNames ==> Num(1) == TallyOf(key, multiset(ks)[key] + 1)
  {
    var n := multiset(ks)[key];
    if key in counts {
      assert key in ks;
      PlusOneTally(key, n);
    } else {
      assert key !in ks;
      assert n == 0;
      if key in InheritedNames {
        PlusOneTally(key, 0);
      }
    }
  }

  /** `obj[item] += 1` on a key that is present, own or inherited. */
  lemma CountPlusOne(counts: map<string, Value>, ks: seq<string>, key: string, current: Value)
    requires CountTallies(counts, ks) && key != "__proto__"
    requires key in counts || key in InheritedNames
    requires current == if key in counts then counts[key] else InheritedMember(key)
    ensures CountTallies(counts[key := PlusOne(current)], ks + [key])
  {
    CountNext(counts, ks, key);
    CountUpdate(counts, ks, key, PlusOne(current));
  }

  /** `obj[item] = 1` on a key that is absent, own and inherited. */
  lemma CountFirst(counts: map<string, Value>, ks: seq<string>, key: string)
    requires CountTallies(counts, ks) && key !in counts && key !in InheritedNames
    ensures CountTallies(counts[key := Num(1)], ks + [key])
  {
    assert key != "__proto__";
    CountNext(counts, ks, key);
    CountUpdate(counts, ks, key, Num(1));
  }

  /** `countBy`: the reduce over `obj`, which starts as an empty plain object. */
  method CountBy(xs: seq<Value>) returns (counts: map<string, Value>)
    requires NumbersOrStrings(xs)
    ensures CountTallies(counts, KeysOf(xs))
  {
    var ks := KeysOf(xs);
    counts := map[];
    for i := 0 to |xs|
      invariant CountTallies(counts, ks[..i])
    {
      var key := JsString(xs[i]);
      assert ks[..i + 1] == ks[..i] + [key];
      if key in counts || key in InheritedNames {
        // `item in obj` holds, own or inherited: `obj[item] += 1`
        var current := if key in counts then counts[key] else InheritedMember(key);
        if key != "__proto__" {
          CountPlusOne(counts, ks[..i], key, current);
          counts := counts[key := PlusOne(current)];
        } else {
          CountSkip(counts, ks[..i]);
        }
      } else {
        CountFirst(counts, ks[..i], key);
        counts := counts[key := Num(1)];
      }
    }
    assert ks[..|xs|] == ks;
  }

  /** Where no item names an inherited member, `countBy` tallies plain counts. */
  lemma CountByNumbers(xs: seq<Value>, counts: map<string, Value>)
    requires CountTallies(counts, KeysOf(xs))
    requires forall k :: k in KeysOf(xs) ==> k !in InheritedNames
    ensures forall k :: k in counts <==> k in KeysOf(xs)
    ensures forall k :: k in counts ==> counts[k] == Num(multiset(KeysOf(xs))[k])
  {
    assert "__proto__" in InheritedNames;
  }

  /** `countBy(['toString', 'toString'])`: the inherited method's text with "11" appended. */
  lemma CountByInherited(counts: map<string, Value>, key: string)
    requires key == "toString"
    requires CountTallies(counts, KeysOf([Str(key), Str(key)]))
    ensures counts == map[key := Str(NativeSource(key) + "11")]
  {
    assert KeysOf([Str(key), Str(key)]) == [key, key];
    assert multiset([key, key])[key] == 2;
    InheritedToString(key);
    assert Ones(2) == "11";
  }

  lemma InheritedToString(key: string)
    requires key == "toString"
    ensures key in InheritedNames && key != "__proto__"
  {
  }

  /** `countBy(['__proto__'])` is `{}`: the write goes to the prototype setter and is ignored. */
  lemma CountByProto(counts: map<string, Value>, key: string)
    requires key == "__proto__"
    requires CountTallies(counts, KeysOf([Str(key)]))
    ensures counts == map[]
  {
    assert KeysOf([Str(key)]) == [key];
  }

  /** The multiplicities in `ks` of the entries of `d`, added up. */
  function MultSum(ks: seq<string>, d: seq<string>): nat {
    if d == [] then 0 else MultSum(ks, d[..|d| - 1]) + multiset(ks)[d[|d| - 1]]
  }

  /** The number a tally holds, 0 for any other value. */
  function CountOf(v: Value): nat {
    if v.Num? && v.n >= 0 then v.n else 0
  }

  /** The counts `m` holds for the keys `d`, added up. */
  function SumAt(m: map<string, Value>, d: seq<string>): nat {
    if d == [] then 0 else SumAt(m, d[..|d| - 1]) + (if d[|d| - 1] in m then CountOf(m[d[|d| - 1]]) else 0)
  }

  lemma {:induction false} MultSumShift(ks: seq<string>, x: string, d: seq<string>)
    requires Distinct(d)
    ensures MultSum(ks + [x], d) == MultSum(ks, d) + (if x in d then 1 else 0)
  {
    if d != [] {
      var init := d[..|d| - 1];
      assert d == init + [d[|d| - 1]];
      MultSumShift(ks, x, init);
    }
  }

  lemma {:induction false} MultSumUnique(ks: seq<string>)
    ensures MultSum(ks, Unique(ks)) == |ks|
  {
    if ks != [] {
      var s, x := ks[..|ks| - 1], ks[|ks| - 1];
      assert ks == s + [x];
      MultSumUnique(s);
      MultSumShift(s, x, Unique(s));
      if x !in Unique(s) {
        assert Unique(ks) == Unique(s) + [x];
        assert (Unique(s) + [x])[..|Unique(s)|] == Unique(s);
        assert multiset(s)[x] == 0;
      }
    }
  }

  lemma {:induction false} SumAtIsMultSum(m: map<string, Value>, ks: seq<string>, d: seq<string>)
    requires forall k :: k in d ==> k in m && CountOf(m[k]) == multiset(ks)[k]
    ensures SumAt(m, d) == MultSum(ks, d)
  {
    if d != [] {
      SumAtIsMultSum(m, ks, d[..|d| - 1]);
    }
  }

  /** Where no item names an inherited member, the counts `countBy` produces add up to the number of items, one per distinct key. */
  lemma CountsSumToLength(xs: seq<Value>, counts: map<string, Value>)
    requires CountTallies(counts, KeysOf(xs))
    requires forall k :: k in KeysOf(xs) ==> k !in InheritedNames
    ensures SumAt(counts, Unique(KeysOf(xs))) == |xs|
    ensures forall k :: k in counts <==> k in Unique(KeysOf(xs))
  {
    CountByNumbers(xs, counts);
    SumAtIsMultSum(counts, KeysOf(xs), Unique(KeysOf(xs)));
    MultSumUnique(KeysOf(xs));
  }

  function EqualTo(u: Value): Value -> bool { c => c == u }

  /** `data.filter(c => c === u).length`. */
  function Occurrences(data: seq<Value>, u: Value): nat {
    |Filter(EqualTo(u), data)|
  }

  lemma {:induction false} OccurrencesCount(data: seq<Value>, u: Value)
    ensures Occurrences(data, u) == multiset(data)[u]
  {
    if data != [] {
      OccurrencesCount(data[1..], u);
      assert data == [data[0]] + data[1..];
    }
  }

  /** `Object.fromEntries`: a later pair overwrites an earlier one with the same key. */
  function MapFromPairs(ps: seq<(string, nat)>): map<string, nat> {
    if ps == [] then map[] else MapFromPairs(ps[..|ps| - 1])[ps[|ps| - 1].0 := ps[|ps| - 1].1]
  }

  lemma {:induction false} MapFromPairsKeys(ps: seq<(string, nat)>, k: string)
    ensures k in MapFromPairs(ps) <==> exists i :: 0 <= i < |ps| && ps[i].0 == k
  {
    if ps != [] {
      var init := ps[..|ps| - 1];
      MapFromPairsKeys(init, k);
      if k in MapFromPairs(init) {
        var i :| 0 <= i < |init| && init[i].0 == k;
        assert ps[i].0 == k;
      }
      if exists i :: 0 <= i < |ps| && ps[i].0 == k {
        var i :| 0 <= i < |ps| && ps[i].0 == k;
        if i < |init| {
          assert init[i].0 == k;
        }
      }
    }
  }

  lemma {:induction false} MapFromPairsDistinct(ps: seq<(string, nat)>, i: int)
    requires forall a, b :: 0 <= a < b < |ps| ==> ps[a].0 != ps[b].0
    requires 0 <= i < |ps|
    ensures ps[i].0 in MapFromPairs(ps) && MapFromPairs(ps)[ps[i].0] == ps[i].1
  {
    if i < |ps| - 1 {
      MapFromPairsDistinct(ps[..|ps| - 1], i);
    }
  }

  /** `occurrenceCount`: each distinct element, under its string form, with how often it occurs. */
  function OccurrenceCount(data: seq<Value>): map<string, nat> {
    MapFromPairs(OccurrencePairs(data))
  }

  /** The entries `occurrenceCount` assigns, one per distinct element in order of first appearance. */
  function OccurrencePairs(data: seq<Value>): (ps: seq<(string, nat)>)
    ensures |ps| == |Unique(data)|
    ensures forall i :: 0 <= i < |ps| ==> ps[i] == (JsString(Unique(data)[i]), Occurrences(data, Unique(data)[i]))
  {
    var u := Unique(data);
    seq(|u|, i requires 0 <= i < |u| => (JsString(u[i]), Occurrences(data, u[i])))
  }

  /** Arrays of only numbers or only strings: distinct elements have distinct string forms. */
  predicate SingleTyped(xs: seq<Value>) {
    (forall i :: 0 <= i < |xs| ==> xs[i].Num?) || (forall i :: 0 <= i < |xs| ==> xs[i].Str?)
  }

  lemma SingleTypedInjective(xs: seq<Value>, x: Value, y: Value)
    requires SingleTyped(xs) && x in xs && y in xs && JsString(x) == JsString(y)
    ensures x == y
  {
    if x.Num? && y.Num? {
      StringToNumberOfInt(x.n);
      StringToNumberOfInt(y.n);
    }
  }

  lemma KeysOfCount(data: seq<Value>, u: Value)
    requires forall x :: x in data && JsString(x) == JsString(u) ==> x == u
    ensures multiset(KeysOf(data))[JsString(u)] == multiset(data)[u]
  {
    CountUnderMap(data, KeysOf(data), x => JsString(x), u);
  }

  lemma KeysOfMembers(data: seq<Value>, k: string)
    ensures k in KeysOf(data) <==> exists x :: x in data && JsString(x) == k
  {
    if exists x :: x in data && JsString(x) == k {
      var x :| x in data && JsString(x) == k;
      var i :| 0 <= i < |data| && data[i] == x;
      assert KeysOf(data)[i] == k;
    }
  }

  /**
   * On arrays of only numbers or only strings, `occurrenceCount` files each
   * item's string form under its number of occurrences, as `countBy` does
   * where no item names an inherited member.
   */
  lemma OccurrenceCountAgrees(data: seq<Value>)
    requires SingleTyped(data)
    ensures Tallies(OccurrenceCount(data), KeysOf(data))
  {
    var r := OccurrenceCount(data);
    OccurrencePairsDistinct(data);
    forall k
      ensures k in r <==> k in KeysOf(data)
    {
      OccurrenceKey(data, k);
    }
    forall k | k in r
      ensures r[k] == multiset(KeysOf(data))[k]
    {
      OccurrenceValue(data, k);
    }
  }

  lemma OccurrencePairsDistinct(data: seq<Value>)
    requires SingleTyped(data)
    ensures var ps := OccurrencePairs(data);
      forall a, b :: 0 <= a < b < |ps| ==> ps[a].0 != ps[b].0
  {
    var u := Unique(data);
    var ps := OccurrencePairs(data);
    forall a, b | 0 <= a < b < |ps|
      ensures ps[a].0 != ps[b].0
    {
      if ps[a].0 == ps[b].0 {
        SingleTypedInjective(data, u[a], u[b]);
      }
    }
  }

  lemma OccurrenceKey(data: seq<Value>, k: string)
    ensures k in OccurrenceCount(data) <==> k in KeysOf(data)
  {
    var ps := OccurrencePairs(data);
    MapFromPairsKeys(ps, k);
    KeysOfMembers(data, k);
    OccurrencePairKey(data, k);
  }

  lemma OccurrencePairKey(data: seq<Value>, k: string)
    ensures var ps := OccurrencePairs(data);
      (exists i :: 0 <= i < |ps| && ps[i].0 == k) <==> exists x :: x in data && JsString(x) == k
  {
    var u := Unique(data);
    var ps := OccurrencePairs(data);
    var f := x => JsString(x);
    UniqueImage(data, f, k);
    ImageKeys(u, ps, f, k);
  }

  lemma OccurrenceValue(data: seq<Value>, k: string)
    requires SingleTyped(data) && k in OccurrenceCount(data)
    ensures OccurrenceCount(data)[k] == multiset(KeysOf(data))[k]
  {
    var u := Unique(data);
    var ps := OccurrencePairs(data);
    OccurrencePairsDistinct(data);
    MapFromPairsKeys(ps, k);
    var i :| 0 <= i < |ps| && ps[i].0 == k;
    MapFromPairsDistinct(ps, i);
    OccurrencesCount(data, u[i]);
    forall x | x in data && JsString(x) == JsString(u[i])
      ensures x == u[i]
    {
      SingleTypedInjective(data, x, u[i]);
    }
    KeysOfCount(data, u[i]);
  }

  lemma MapFromPairsTwoSameKey(k: string, a: nat, b: nat)
    ensures MapFromPairs([(k, a), (k, b)]) == map[k := b]
  {
    var none: seq<(string, nat)> := [];
    assert [(k, a), (k, b)][..1] == [(k, a)];
    assert [(k, a)][..0] == none;
    assert MapFromPairs([(k, a)]) == MapFromPairs(none)[k := a];
    assert MapFromPairs([(k, a), (k, b)]) == MapFromPairs([(k, a)])[k := b];
  }

  /** A number and its decimal string are distinct elements with one key: the later entry's count wins. */
  lemma OccurrenceCountMixedTypes()
    ensures OccurrenceCount([Num(1), Str("1")]) == map["1" := 1]
  {
    var data := [Num(1), Str("1")];
    UniqueMixed();
    OneText();
    OccurrencesCount(data, Str("1"));
    assert multiset(data)[Str("1")] == 1;
    var ps := OccurrencePairs(data);
    assert ps[0] == ("1", Occurrences(data, Num(1))) && ps[1] == ("1", 1);
    assert ps == [("1", Occurrences(data, Num(1))), ("1", 1)];
    MapFromPairsTwoSameKey("1", Occurrences(data, Num(1)), 1);
  }

  lemma OneText()
    ensures JsString(Num(1)) == "1"
  {
  }

  lemma UniqueMixed()
    ensures Unique([Num(1), Str("1")]) == [Num(1), Str("1")]
  {
    var data := [Num(1), Str("1")];
    assert data[..1] == [Num(1)] && [Num(1)][..0] == [];
  }

  /** `countBy` sees one key for the same two items and counts both. */
  lemma CountByMixedTypes(counts: map<string, Value>)
    requires CountTallies(counts, KeysOf([Num(1), Str("1")]))
    ensures counts == map["1" := Num(2)]
  {
    assert JsString(Num(1)) == "1";
    assert KeysOf([Num(1), Str("1")]) == ["1", "1"];
    assert multiset(["1", "1"])["1"] == 2;
    OneNotInherited();
  }

  lemma OneNotInherited()
    ensures "1" !in InheritedNames
  {
  }
}
