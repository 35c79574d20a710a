/**
 * The sort the host performs for `Array.prototype.sort(cmp)`: a stable
 * sort by a comparator returning a number (negative: first goes before,
 * positive: after, zero: keep their order). It is specified as insertion
 * sort; for a comparator that is consistent on the elements, any stable
 * sort produces this same sequence.
 */
module Sorting {
  import opened Seqs

  /** `cmp` is a total preorder on the elements of `s`: sign-antisymmetric and transitive. */
  ghost predicate ConsistentOn<T(!new)>(cmp: (T, T) -> int, s: seq<T>) {
    (forall x, y :: x in s && y in s ==> (cmp(x, y) > 0 <==> cmp(y, x) < 0)) &&
    (forall x, y, z :: x in s && y in s && z in s && cmp(x, y) <= 0 && cmp(y, z) <= 0 ==> cmp(x, z) <= 0)
  }

  predicate SortedBy<T>(cmp: (T, T) -> int, s: seq<T>) {
    forall i, j :: 0 <= i < j < |s| ==> cmp(s[i], s[j]) <= 0
  }

  /** Insert `x` after the trailing run of elements that do not compare above it. */
  function Insert<T>(x: T, s: seq<T>, cmp: (T, T) -> int): (r: seq<T>)
    ensures |r| == |s| + 1
    decreases |s|
  {
    if s == [] then [x]
    else if cmp(s[|s| - 1], x) > 0 then
      Insert(x, s[..|s| - 1], cmp) + [s[|s| - 1]]
    else s + [x]
  }

  function InsertionSort<T>(s: seq<T>, cmp: (T, T) -> int): (r: seq<T>)
    ensures |r| == |s|
    decreases |s|
  {
    if s == [] then []
    else
      Insert(s[|s| - 1], InsertionSort(s[..|s| - 1], cmp), cmp)
  }

  /** `Insert` places `x` at some position `k` with everything after it comparing above `x`. */
  lemma {:induction false} InsertAt<T>(x: T, s: seq<T>, cmp: (T, T) -> int) returns (k: nat)
    ensures k <= |s| && Insert(x, s, cmp) == s[..k] + [x] + s[k..]
    ensures forall i :: k <= i < |s| ==> cmp(s[i], x) > 0
    ensures k > 0 ==> cmp(s[k - 1], x) <= 0
    decreases |s|
  {
    if s == [] {
      k := 0;
    } else if cmp(s[|s| - 1], x) > 0 {
      var init := s[..|s| - 1];
      var last := s[|s| - 1];
      k := InsertAt(x, init, cmp);
      assert s == init + [last];
      InsertAtSnoc(x, init, last, k, cmp);
      calc {
        Insert(x, s, cmp);
        Insert(x, init, cmp) + [last];
        (init[..k] + [x] + init[k..]) + [last];
        s[..k] + [x] + s[k..];
      }
    } else {
      k := |s|;
      assert s[..k] == s && s[k..] == [];
    }
  }

  lemma InsertAtSnoc<T>(x: T, init: seq<T>, last: T, k: nat, cmp: (T, T) -> int)
    requires k <= |init|
    requires forall i :: k <= i < |init| ==> cmp(init[i], x) > 0
    requires cmp(last, x) > 0
    ensures (init + [last])[..k] == init[..k] && (init + [last])[k..] == init[k..] + [last]
    ensures forall i :: k <= i < |init| + 1 ==> cmp((init + [last])[i], x) > 0
    ensures k > 0 ==> (init + [last])[k - 1] == init[k - 1]
    ensures (init[..k] + [x] + init[k..]) + [last] == (init + [last])[..k] + [x] + (init + [last])[k..]
  {
  }

  lemma {:induction false} InsertPermutes<T>(x: T, s: seq<T>, cmp: (T, T) -> int)
    ensures multiset(Insert(x, s, cmp)) == multiset(s) + multiset{x}
  {
    var k := InsertAt(x, s, cmp);
    assert s == s[..k] + s[k..];
  }

  /** The sorted sequence is a permutation of the input. */
  lemma {:induction false} InsertionSortPermutes<T>(s: seq<T>, cmp: (T, T) -> int)
    ensures multiset(InsertionSort(s, cmp)) == multiset(s)
    decreases |s|
  {
    if s != [] {
      var init := s[..|s| - 1];
      assert s == init + [s[|s| - 1]];
      InsertionSortPermutes(init, cmp);
      InsertPermutes(s[|s| - 1], InsertionSort(init, cmp), cmp);
    }
  }

  lemma SortedSplice<T>(s: seq<T>, k: nat, x: T, cmp: (T, T) -> int)
    requires SortedBy(cmp, s) && k <= |s|
    requires forall i :: 0 <= i < k ==> cmp(s[i], x) <= 0
    requires forall i :: k <= i < |s| ==> cmp(x, s[i]) <= 0
    ensures SortedBy(cmp, s[..k] + [x] + s[k..])
  {
    var r := s[..k] + [x] + s[k..];
    assert forall i :: 0 <= i < k ==> r[i] == s[i];
    assert forall i :: k < i < |r| ==> r[i] == s[i - 1];
  }

  lemma {:induction false} InsertSorted<T(!new)>(x: T, s: seq<T>, cmp: (T, T) -> int, univ: seq<T>)
    requires SortedBy(cmp, s) && ConsistentOn(cmp, univ)
    requires x in univ && forall y :: y in s ==> y in univ
    ensures SortedBy(cmp, Insert(x, s, cmp))
  {
    var k := InsertAt(x, s, cmp);
    forall i | 0 <= i < k
      ensures cmp(s[i], x) <= 0
    {
      assert s[i] in univ && s[k - 1] in univ;
      if i < k - 1 {
        assert cmp(s[i], s[k - 1]) <= 0;
      }
    }
    forall i | k <= i < |s|
      ensures cmp(x, s[i]) <= 0
    {
      assert s[i] in univ;
    }
    SortedSplice(s, k, x, cmp);
  }

  /** For a consistent comparator the result is ordered. */
  lemma {:induction false} InsertionSortSorted<T(!new)>(s: seq<T>, cmp: (T, T) -> int)
    requires ConsistentOn(cmp, s)
    ensures SortedBy(cmp, InsertionSort(s, cmp))
    decreases |s|
  {
    if s != [] {
      var init := s[..|s| - 1];
      assert forall y :: y in init ==> y in s;
      assert ConsistentOn(cmp, init);
      InsertionSortSorted(init, cmp);
      var t := InsertionSort(init, cmp);
      InsertionSortPermutes(init, cmp);
      forall y | y in t
        ensures y in s
      {
        assert y in multiset(t);
      }
      InsertSorted(s[|s| - 1], t, cmp, s);
    }
  }

  /** The elements that compare equal to `e` in both directions. */
  function TiedWith<T>(cmp: (T, T) -> int, e: T): T -> bool {
    y => cmp(y, e) == 0 && cmp(e, y) == 0
  }

  lemma FilterSplice<T(!new)>(p: T -> bool, a: seq<T>, x: T, b: seq<T>)
    requires p(x) ==> forall i :: 0 <= i < |b| ==> !p(b[i])
    ensures Filter(p, a + [x] + b) == Filter(p, (a + b) + [x])
  {
    FilterConcat(p, a + [x], b);
    FilterConcat(p, a, [x]);
    FilterConcat(p, a, b);
    FilterConcat(p, a + b, [x]);
    if p(x) {
      FilterNone(p, b);
    }
  }

  lemma {:induction false} InsertStable<T(!new)>(x: T, s: seq<T>, cmp: (T, T) -> int, univ: seq<T>, e: T)
    requires ConsistentOn(cmp, univ)
    requires x in univ && e in univ && forall y :: y in s ==> y in univ
    ensures Filter(TiedWith(cmp, e), Insert(x, s, cmp)) == Filter(TiedWith(cmp, e), s + [x])
  {
    var p := TiedWith(cmp, e);
    var k := InsertAt(x, s, cmp);
    if p(x) {
      forall i | k <= i < |s|
        ensures !p(s[i])
      {
        assert s[i] in univ;
      }
    }
    assert s == s[..k] + s[k..];
    FilterSplice(p, s[..k], x, s[k..]);
  }

  lemma {:induction false} FilterNone<T(!new)>(p: T -> bool, s: seq<T>)
    requires forall i :: 0 <= i < |s| ==> !p(s[i])
    ensures Filter(p, s) == []
  {
    if s != [] {
      FilterNone(p, s[1..]);
    }
  }

  /** Stability: the elements tied with any `e` keep their input order. */
  lemma {:induction false} InsertionSortStable<T(!new)>(s: seq<T>, cmp: (T, T) -> int, e: T)
    requires ConsistentOn(cmp, s + [e])
    ensures Filter(TiedWith(cmp, e), InsertionSort(s, cmp)) == Filter(TiedWith(cmp, e), s)
    decreases |s|
  {
    if s != [] {
      var p := TiedWith(cmp, e);
      var init := s[..|s| - 1];
      var x := s[|s| - 1];
      assert s == init + [x];
      assert forall y :: y in init + [e] ==> y in s + [e];
      assert ConsistentOn(cmp, init + [e]);
      InsertionSortStable(init, cmp, e);
      var t := InsertionSort(init, cmp);
      InsertionSortPermutes(init, cmp);
      forall y | y in t
        ensures y in s + [e]
      {
        assert y in multiset(t);
      }
      InsertStable(x, t, cmp, s + [e], e);
      FilterConcat(p, t, [x]);
      FilterConcat(p, init, [x]);
    }
  }

  /**
   * The comparator that orders by `key` under the strict order `lt`,
   * scaled by `order`: `order` when the first key is greater, `-order` when
   * it is smaller, 0 otherwise.
   */
  function KeyCmp<T, U>(key: T -> U, lt: (U, U) -> bool, order: int): (T, T) -> int {
    (m: T, n: T) => if lt(key(n), key(m)) then order else if lt(key(m), key(n)) then -order else 0
  }

  /** `lt` is a strict total order on the keys of the elements of `xs`. */
  ghost predicate StrictTotalOn<T(!new), U(!new)>(key: T -> U, lt: (U, U) -> bool, xs: seq<T>) {
    (forall m :: m in xs ==> !lt(key(m), key(m))) &&
    (forall m, n :: m in xs && n in xs ==> key(m) == key(n) || lt(key(m), key(n)) || lt(key(n), key(m))) &&
    (forall a, b, c :: a in xs && b in xs && c in xs && lt(key(a), key(b)) && lt(key(b), key(c)) ==> lt(key(a), key(c)))
  }

  /** Ordering by a strict total order on keys, ascending or descending, is a consistent comparator. */
  lemma KeyCmpConsistent<T(!new), U(!new)>(key: T -> U, lt: (U, U) -> bool, order: int, xs: seq<T>)
    requires order == 1 || order == -1
    requires StrictTotalOn(key, lt, xs)
    ensures ConsistentOn(KeyCmp(key, lt, order), xs)
  {
    var cmp := KeyCmp(key, lt, order);
    forall x, y | x in xs && y in xs
      ensures cmp(x, y) > 0 <==> cmp(y, x) < 0
    {
      assert x in xs && y in xs;
    }
    forall x, y, z | x in xs && y in xs && z in xs && cmp(x, y) <= 0 && cmp(y, z) <= 0
      ensures cmp(x, z) <= 0
    {
      var kx, ky, kz := key(x), key(y), key(z);
      if order == 1 {
        assert !lt(ky, kx) && !lt(kz, ky);
      } else {
        assert !lt(kx, ky) && !lt(ky, kz);
      }
    }
  }

  /** `x` goes where everything after compares above it and the element before does not. */
  lemma InsertPositioned<T>(x: T, s: seq<T>, j: nat, cmp: (T, T) -> int)
    requires j <= |s|
    requires forall i :: j <= i < |s| ==> cmp(s[i], x) > 0
    requires j > 0 ==> cmp(s[j - 1], x) <= 0
    ensures Insert(x, s, cmp) == s[..j] + [x] + s[j..]
  {
    var k := InsertAt(x, s, cmp);
    assert k == j;
  }

  /** Sorting one more element inserts it into the sorted prefix. */
  lemma SortExtend<T>(s: seq<T>, i: nat, cmp: (T, T) -> int)
    requires i < |s|
    ensures InsertionSort(s[..i + 1], cmp) == Insert(s[i], InsertionSort(s[..i], cmp), cmp)
  {
    assert s[..i + 1][..i] == s[..i];
  }

  /** Insert `a[i]` into the prefix `a[..i]`, shifting the larger elements one place up. */
  method InsertInPlace<T>(a: array<T>, i: nat, cmp: (T, T) -> int)
    requires i < a.Length
    modifies a
    ensures a[..i + 1] == Insert(old(a[i]), old(a[..i]), cmp)
    ensures a[i + 1..] == old(a[i + 1..])
  {
    var x := a[i];
    ghost var A := a[..];
    ghost var S := A[..i];
    var j := i;
    while j > 0 && cmp(a[j - 1], x) > 0
      invariant 0 <= j <= i
      invariant forall k :: 0 <= k < j ==> a[k] == S[k]
      invariant forall k :: j < k <= i ==> a[k] == S[k - 1]
      invariant forall k :: i < k < a.Length ==> a[k] == A[k]
      invariant forall k :: j <= k < i ==> cmp(S[k], x) > 0
    {
      a[j] := a[j - 1];
      j := j - 1;
    }
    a[j] := x;
    InsertPositioned(x, S, j, cmp);
    InsertAssembled(a[..], A, S, x, i, j);
  }

  /** After the shift, the prefix is `S[..j] + [x] + S[j..]` and the rest is unchanged. */
  lemma InsertAssembled<T>(b: seq<T>, a: seq<T>, S: seq<T>, x: T, i: nat, j: nat)
    requires j <= i < |b| == |a| && |S| == i
    requires forall k :: 0 <= k < j ==> b[k] == S[k]
    requires b[j] == x
    requires forall k :: j < k <= i ==> b[k] == S[k - 1]
    requires forall k :: i < k < |b| ==> b[k] == a[k]
    ensures b[..i + 1] == S[..j] + [x] + S[j..]
    ensures b[i + 1..] == a[i + 1..]
  {
  }

  /**
   * In-place insertion sort of `a` (the host sort applied to a fresh copy
   * of the input array).
   */
  method SortInPlace<T>(a: array<T>, cmp: (T, T) -> int)
    modifies a
    ensures a[..] == InsertionSort(old(a[..]), cmp)
  {
    ghost var A := a[..];
    var i := 0;
    while i < a.Length
      invariant 0 <= i <= a.Length
      invariant a[..i] == InsertionSort(A[..i], cmp)
      invariant a[i..] == A[i..]
    {
      InsertInPlace(a, i, cmp);
      SortExtend(A, i, cmp);
      i := i + 1;
    }
    assert a[..] == a[..a.Length];
    assert A[..a.Length] == A;
  }
}
