/**
 * Generic sequence helpers: order-preserving filtering, subsequences,
 * de-duplication in order of first appearance, and splitting on
 * separators with its inverse, joining.
 */
module Seqs {

  /** Elements of `s` that satisfy `p`, in their original order (Array.prototype.filter). */
  function Filter<T(==,!new)>(p: T -> bool, s: seq<T>): (r: seq<T>)
    ensures |r| <= |s|
  {
    if s == [] then []
    else
      if p(s[0]) then [s[0]] + Filter(p, s[1..]) else Filter(p, s[1..])
  }

  /** The elements kept are exactly the accepted elements of `s`. */
  lemma {:induction false} FilterMembers<T(!new)>(p: T -> bool, s: seq<T>)
    ensures forall x :: x in Filter(p, s) <==> x in s && p(x)
  {
    if s != [] {
      FilterMembers(p, s[1..]);
      assert s == [s[0]] + s[1..];
    }
  }

  /** Filtering keeps every accepted element as often as it occurs and drops every rejected one. */
  lemma {:induction false} FilterMultiset<T(!new)>(p: T -> bool, s: seq<T>)
    ensures forall x :: multiset(Filter(p, s))[x] == if p(x) then multiset(s)[x] else 0
  {
    if s != [] {
      FilterMultiset(p, s[1..]);
      assert s == [s[0]] + s[1..];
    }
  }

  lemma {:induction false} FilterConcat<T(!new)>(p: T -> bool, a: seq<T>, b: seq<T>)
    ensures Filter(p, a + b) == Filter(p, a) + Filter(p, b)
  {
    if a != [] {
      assert (a + b)[1..] == a[1..] + b;
      FilterConcat(p, a[1..], b);
    } else {
      assert a + b == b;
    }
  }

  /** Filtering a sequence none of whose elements is rejected gives it back. */
  lemma {:induction false} FilterAll<T(!new)>(p: T -> bool, s: seq<T>)
    requires forall x :: x in s ==> p(x)
    ensures Filter(p, s) == s
  {
    if s != [] {
      assert forall x :: x in s[1..] ==> x in s;
      FilterAll(p, s[1..]);
    }
  }

  /** `a` can be obtained from `b` by deleting elements; greedy matching decides it. */
  predicate Subseq<T(==,!new)>(a: seq<T>, b: seq<T>)
    decreases |b|
  {
    if a == [] then true
    else if b == [] then false
    else if a[0] == b[0] then Subseq(a[1..], b[1..])
    else Subseq(a, b[1..])
  }

  lemma {:induction false} SubseqDropHead<T(!new)>(a: seq<T>, b: seq<T>)
    requires a != [] && Subseq(a, b)
    ensures Subseq(a[1..], b)
    decreases |b|, 0
  {
    if b != [] {
      if a[0] == b[0] {
        SubseqCons(b[0], a[1..], b[1..]);
        assert [b[0]] + b[1..] == b;
      } else {
        SubseqDropHead(a, b[1..]);
        SubseqCons(b[0], a[1..], b[1..]);
        assert [b[0]] + b[1..] == b;
      }
    }
  }

  /** Putting an extra element in front of `b` keeps `a` a subsequence of it. */
  lemma {:induction false} SubseqCons<T(!new)>(x: T, a: seq<T>, b: seq<T>)
    requires Subseq(a, b)
    ensures Subseq(a, [x] + b)
    decreases |b|, 1
  {
    assert ([x] + b)[1..] == b;
    if a != [] && a[0] == x {
      SubseqDropHead(a, b);
    }
  }

  lemma {:induction false} SubseqRefl<T(!new)>(a: seq<T>)
    ensures Subseq(a, a)
  {
    if a != [] {
      SubseqRefl(a[1..]);
    }
  }

  lemma {:induction false} FilterSubseq<T(!new)>(p: T -> bool, s: seq<T>)
    ensures Subseq(Filter(p, s), s)
  {
    if s != [] {
      FilterSubseq(p, s[1..]);
      var r := Filter(p, s[1..]);
      if !p(s[0]) {
        SubseqCons(s[0], r, s[1..]);
        assert [s[0]] + s[1..] == s;
      }
    }
  }

  /** No element occurs twice. */
  predicate Distinct<T(==,!new)>(s: seq<T>) {
    forall i, j :: 0 <= i < j < |s| ==> s[i] != s[j]
  }

  /**
   * The distinct elements of `s` in order of first appearance: the contents of
   * `Array.from(new Set(s))`. Defined from the end, as a Set is filled.
   */
  function Unique<T(==,!new)>(s: seq<T>): (r: seq<T>)
    ensures forall x :: x in r <==> x in s
    ensures Distinct(r)
    ensures |r| <= |s|
    decreases |s|
  {
    if s == [] then []
    else
      var u := Unique(s[..|s| - 1]);
      var x := s[|s| - 1];
      assert s == s[..|s| - 1] + [x];
      if x in u then u else u + [x]
  }

  /** Adding one element at the end adds it to the distinct elements unless it is there already. */
  lemma UniqueSnoc<T(!new)>(s: seq<T>, x: T)
    ensures Unique(s + [x]) == if x in Unique(s) then Unique(s) else Unique(s) + [x]
  {
    assert (s + [x])[..|s + [x]| - 1] == s;
  }

  /** Mapping by `f` keeps the count of `u` when no other element has the same image. */
  lemma {:induction false} CountUnderMap<T(!new), U(!new)>(xs: seq<T>, ys: seq<U>, f: T -> U, u: T)
    requires |ys| == |xs| && forall i :: 0 <= i < |xs| ==> ys[i] == f(xs[i])
    requires forall x :: x in xs && f(x) == f(u) ==> x == u
    ensures multiset(ys)[f(u)] == multiset(xs)[u]
    decreases |xs|
  {
    if xs != [] {
      CountUnderMap(xs[1..], ys[1..], f, u);
      assert xs == [xs[0]] + xs[1..];
      assert ys == [ys[0]] + ys[1..];
    }
  }

  lemma ConcatAssoc<T>(a: seq<T>, b: seq<T>, c: seq<T>)
    ensures a + b + c == a + (b + c)
  {
  }

  lemma ConcatEmpty<T>(a: seq<T>)
    ensures a + [] == a
  {
  }

  lemma ConsConcat<T>(w: seq<T>, y: seq<T>)
    requires w != []
    ensures (w + y)[0] == w[0] && (w + y)[1..] == w[1..] + y
    ensures [w[0]] + (w[1..] + y) == w + y
  {
  }

  lemma SnocConcat<T>(a: seq<T>, b: seq<T>)
    requires b != []
    ensures (a + b)[..|a + b| - 1] == a + b[..|b| - 1] && (a + b)[|a + b| - 1] == b[|b| - 1]
  {
  }

  /** Some distinct element maps to `k` exactly when some element does. */
  lemma UniqueImage<T(!new), U(!new)>(s: seq<T>, f: T -> U, k: U)
    ensures (exists i :: 0 <= i < |Unique(s)| && f(Unique(s)[i]) == k) <==> (exists x :: x in s && f(x) == k)
  {
    var u := Unique(s);
    if exists x :: x in s && f(x) == k {
      var x :| x in s && f(x) == k;
      var i :| 0 <= i < |u| && u[i] == x;
      assert 0 <= i < |Unique(s)| && f(Unique(s)[i]) == k;
    }
    if exists i :: 0 <= i < |u| && f(u[i]) == k {
      var i :| 0 <= i < |u| && f(u[i]) == k;
      var x := u[i];
      assert x in u;
      assert x in s && f(x) == k;
    }
  }

  /** A table whose keys are the images of `u` has key `k` exactly when some image is `k`. */
  lemma ImageKeys<T, U, V>(u: seq<T>, ps: seq<(U, V)>, f: T -> U, k: U)
    requires |ps| == |u| && forall i :: 0 <= i < |u| ==> ps[i].0 == f(u[i])
    ensures (exists i :: 0 <= i < |ps| && ps[i].0 == k) <==> (exists i :: 0 <= i < |u| && f(u[i]) == k)
  {
    if exists i :: 0 <= i < |ps| && ps[i].0 == k {
      var i :| 0 <= i < |ps| && ps[i].0 == k;
      assert f(u[i]) == k;
    }
  }

  /** An accepted first element is kept in front of the rest. */
  lemma FilterHead<T(!new)>(p: T -> bool, s: seq<T>)
    requires s != [] && p(s[0])
    ensures Filter(p, s) == [s[0]] + Filter(p, s[1..])
  {
  }

  /** Position of the first occurrence of `x`. */
  function FirstIndex<T(==,!new)>(s: seq<T>, x: T): (i: nat)
    requires x in s
    ensures i < |s| && s[i] == x && x !in s[..i]
  {
    if s[0] == x then 0 else 1 + FirstIndex(s[1..], x)
  }

  lemma FirstIndexPrefix<T(!new)>(s: seq<T>, t: seq<T>, x: T)
    requires x in s
    ensures FirstIndex(s + t, x) == FirstIndex(s, x)
  {
    var i := FirstIndex(s, x);
    assert (s + t)[..i] == s[..i];
    assert (s + t)[i] == x;
  }

  /** `Unique` lists the elements in order of their first appearance in `s`. */
  lemma {:induction false} UniqueFirstAppearance<T(!new)>(s: seq<T>)
    ensures forall i, j :: 0 <= i < j < |Unique(s)| ==>
              FirstIndex(s, Unique(s)[i]) < FirstIndex(s, Unique(s)[j])
    decreases |s|
  {
    if s != [] {
      var init := s[..|s| - 1];
      var x := s[|s| - 1];
      assert s == init + [x];
      UniqueFirstAppearance(init);
      var u := Unique(init);
      forall y | y in u
        ensures FirstIndex(s, y) == FirstIndex(init, y) < |init|
      {
        FirstIndexPrefix(init, [x], y);
      }
      if x !in u {
        assert x !in init;
        assert s[..|init|] == init;
      }
    }
  }

  /** Applying `Unique` twice changes nothing more. */
  lemma {:induction false} UniqueOfDistinct<T(!new)>(s: seq<T>)
    requires Distinct(s)
    ensures Unique(s) == s
    decreases |s|
  {
    if s != [] {
      var init := s[..|s| - 1];
      assert Distinct(init);
      UniqueOfDistinct(init);
      assert s[|s| - 1] !in init;
      assert s == init + [s[|s| - 1]];
    }
  }

  lemma UniqueIdempotent<T(!new)>(s: seq<T>)
    ensures Unique(Unique(s)) == Unique(s)
  {
    UniqueOfDistinct(Unique(s));
  }

  /** `Unique(a + Unique(b))` and `Unique(a + b)` coincide. */
  lemma {:induction false} UniqueAppendUnique<T(!new)>(a: seq<T>, b: seq<T>)
    ensures Unique(a + Unique(b)) == Unique(a + b)
    decreases |b|
  {
    if b == [] {
      assert a + [] == a;
    } else {
      var init := b[..|b| - 1];
      var y := b[|b| - 1];
      assert b == init + [y];
      assert a + b == (a + init) + [y];
      UniqueAppendUnique(a, init);
      var u := Unique(init);
      assert (a + b)[..|a + b| - 1] == a + init;
      if y in u {
        assert y in a + init;
      } else {
        assert a + (u + [y]) == (a + u) + [y];
        assert (a + (u + [y]))[..|a + (u + [y])| - 1] == a + u;
        assert y in a + u <==> y in a + init;
      }
    }
  }

  /**
   * The pieces of `s` between separators (String.prototype.split with a
   * one-character separator or a character class): always at least one
   * piece, and `k` separators give `k + 1` pieces.
   */
  function Split<T>(s: seq<T>, isSep: T -> bool): (r: seq<seq<T>>)
    ensures |r| >= 1
    ensures forall k, x :: 0 <= k < |r| && x in r[k] ==> !isSep(x)
    decreases |s|
  {
    if s == [] then [[]]
    else
      var rest := Split(s[1..], isSep);
      if isSep(s[0]) then [[]] + rest
      else [[s[0]] + rest[0]] + rest[1..]
  }

  /** The pieces joined back with `sep` between them (Array.prototype.join). */
  function Join<T>(pieces: seq<seq<T>>, sep: T): seq<T>
    decreases |pieces|
  {
    if pieces == [] then []
    else if |pieces| == 1 then pieces[0]
    else pieces[0] + [sep] + Join(pieces[1..], sep)
  }

  /** Splitting on a single separator and joining with it is the identity. */
  lemma {:induction false} JoinSplit<T>(s: seq<T>, isSep: T -> bool, sep: T)
    requires forall x :: isSep(x) <==> x == sep
    ensures Join(Split(s, isSep), sep) == s
    decreases |s|
  {
    if s != [] {
      var rest := Split(s[1..], isSep);
      JoinSplit(s[1..], isSep, sep);
      assert s == [s[0]] + s[1..];
      if isSep(s[0]) {
        assert ([[]] + rest)[1..] == rest;
      } else {
        var r := [[s[0]] + rest[0]] + rest[1..];
        if |rest| == 1 {
          assert r == [[s[0]] + rest[0]];
        } else {
          assert r[1..] == rest[1..];
          assert Join(rest, sep) == rest[0] + [sep] + Join(rest[1..], sep);
        }
      }
    }
  }

  /** A piece without separators is not split. */
  lemma {:induction false} SplitNoSep<T>(a: seq<T>, isSep: T -> bool)
    requires forall x :: x in a ==> !isSep(x)
    ensures Split(a, isSep) == [a]
    decreases |a|
  {
    if a != [] {
      assert forall x :: x in a[1..] ==> x in a;
      SplitNoSep(a[1..], isSep);
      assert [a[0]] + a[1..] == a;
    }
  }

  /** Splitting at a separator splits the two sides independently. */
  lemma {:induction false} SplitAtSep<T>(a: seq<T>, c: T, b: seq<T>, isSep: T -> bool)
    requires isSep(c)
    ensures Split(a + [c] + b, isSep) == Split(a, isSep) + Split(b, isSep)
    decreases |a|
  {
    if a == [] {
      assert a + [c] + b == [c] + b;
      assert ([c] + b)[1..] == b;
    } else {
      var s := a + [c] + b;
      assert s[0] == a[0];
      assert s[1..] == a[1..] + [c] + b;
      SplitAtSep(a[1..], c, b, isSep);
      var A, B := Split(a[1..], isSep), Split(b, isSep);
      if isSep(a[0]) {
        ConcatAssoc([[]], A, B);
      } else {
        assert (A + B)[0] == A[0] && (A + B)[1..] == A[1..] + B;
        ConcatAssoc([[a[0]] + A[0]], A[1..], B);
      }
    }
  }
}
