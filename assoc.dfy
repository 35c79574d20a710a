/**
 * Ordered key/value tables: the own enumerable properties of a JS object
 * in insertion order, or the entries of a JS `Map`. Assigning a key that is
 * present replaces its value in place; a new key goes at the end.
 */
module Assoc {
  import opened Wrappers
  import opened Seqs

  function Keys<K(==,!new), V(==,!new)>(t: seq<(K, V)>): (ks: seq<K>)
    ensures |ks| == |t| && forall i :: 0 <= i < |t| ==> ks[i] == t[i].0
  {
    seq(|t|, i requires 0 <= i < |t| => t[i].0)
  }

  function Values<K(==,!new), V(==,!new)>(t: seq<(K, V)>): (vs: seq<V>)
    ensures |vs| == |t| && forall i :: 0 <= i < |t| ==> vs[i] == t[i].1
  {
    seq(|t|, i requires 0 <= i < |t| => t[i].1)
  }

  predicate DistinctKeys<K(==,!new), V(==,!new)>(t: seq<(K, V)>) { Distinct(Keys(t)) }

  /** Property read: the value of the first entry with key `k`. */
  function Lookup<K(==,!new), V(==,!new)>(t: seq<(K, V)>, k: K): (r: Option<V>)
    ensures r.None? <==> k !in Keys(t)
    ensures r.Some? ==> exists i :: 0 <= i < |t| && t[i] == (k, r.value)
  {
    if t == [] then None
    else if t[0].0 == k then
      assert t[0] == (k, t[0].1);
      Some(t[0].1)
    else
      var r := Lookup(t[1..], k);
      assert Keys(t) == [t[0].0] + Keys(t[1..]);
      if r.Some? then
        var i :| 0 <= i < |t[1..]| && t[1..][i] == (k, r.value);
        assert t[i + 1] == (k, r.value);
        r
      else r
  }

  /** The value of the last entry with key `k`: which value survives when the entries are assigned in order. */
  function Last<K(==,!new), V(==,!new)>(t: seq<(K, V)>, k: K): (r: Option<V>)
    ensures r.None? <==> k !in Keys(t)
    decreases |t|
  {
    if t == [] then None
    else
      assert Keys(t) == Keys(t[..|t| - 1]) + [t[|t| - 1].0];
      if t[|t| - 1].0 == k then Some(t[|t| - 1].1) else Last(t[..|t| - 1], k)
  }

  /** Position of the first entry with key `k`. */
  function IndexOf<K(==,!new), V(==,!new)>(t: seq<(K, V)>, k: K): (i: nat)
    requires k in Keys(t)
    ensures i < |t| && t[i].0 == k && k !in Keys(t[..i])
  {
    if t[0].0 == k then 0
    else
      assert Keys(t) == [t[0].0] + Keys(t[1..]);
      var j := IndexOf(t[1..], k);
      assert Keys(t[..j + 1]) == [t[0].0] + Keys(t[1..][..j]);
      1 + j
  }

  /** Property assignment `t[k] = v`. */
  function Put<K(==,!new), V(==,!new)>(t: seq<(K, V)>, k: K, v: V): (r: seq<(K, V)>)
    ensures Keys(r) == if k in Keys(t) then Keys(t) else Keys(t) + [k]
    ensures Lookup(r, k) == Some(v)
    ensures forall j :: j != k ==> Lookup(r, j) == Lookup(t, j)
    ensures DistinctKeys(t) ==> DistinctKeys(r)
  {
    if k in Keys(t) then
      var i := IndexOf(t, k);
      var r := t[i := (k, v)];
      assert Keys(r) == Keys(t);
      LookupReplace(t, i, v);
      r
    else
      LookupAppend(t, k, v);
      t + [(k, v)]
  }

  /** An assignment keeps the entries it does not overwrite and adds only `(k, v)`. */
  lemma PutEntries<K(!new), V(!new)>(t: seq<(K, V)>, k: K, v: V)
    ensures forall e :: e in Put(t, k, v) ==> e in t || e == (k, v)
  {
    if k in Keys(t) {
      var i := IndexOf(t, k);
      forall e | e in t[i := (k, v)]
        ensures e in t || e == (k, v)
      {
        var j :| 0 <= j < |t| && t[i := (k, v)][j] == e;
        if j != i {
          assert t[j] == e;
        }
      }
    }
  }

  lemma {:induction false} LookupReplace<K(!new), V(!new)>(t: seq<(K, V)>, i: nat, v: V)
    requires i < |t| && t[i].0 !in Keys(t[..i])
    ensures Lookup(t[i := (t[i].0, v)], t[i].0) == Some(v)
    ensures forall j :: j != t[i].0 ==> Lookup(t[i := (t[i].0, v)], j) == Lookup(t, j)
  {
    var r := t[i := (t[i].0, v)];
    if i > 0 {
      assert Keys(t[..i]) == [t[0].0] + Keys(t[1..][..i - 1]);
      assert r[1..] == t[1..][i - 1 := (t[i].0, v)];
      LookupReplace(t[1..], i - 1, v);
    }
  }

  lemma {:induction false} LookupAppend<K(!new), V(!new)>(t: seq<(K, V)>, k: K, v: V)
    requires k !in Keys(t)
    ensures Lookup(t + [(k, v)], k) == Some(v)
    ensures forall j :: j != k ==> Lookup(t + [(k, v)], j) == Lookup(t, j)
  {
    if t != [] {
      assert (t + [(k, v)])[1..] == t[1..] + [(k, v)];
      assert Keys(t) == [t[0].0] + Keys(t[1..]);
      LookupAppend(t[1..], k, v);
    }
  }

  /** `delete t[k]`. */
  function Remove<K(==,!new), V(==,!new)>(t: seq<(K, V)>, k: K): (r: seq<(K, V)>)
    ensures Lookup(r, k) == None
    ensures forall j :: j != k ==> Lookup(r, j) == Lookup(t, j)
    ensures forall x :: x in Keys(r) <==> x in Keys(t) && x != k
    ensures Subseq(r, t)
  {
    if t == [] then []
    else
      var rest := Remove(t[1..], k);
      if t[0].0 == k then RemoveDrop(t, k, rest); rest
      else RemoveKeep(t, k, rest); [t[0]] + rest
  }

  /** `r` is `t` without its entries for `k`, as far as lookups, keys and order show. */
  ghost predicate RemovedFrom<K(!new), V(!new)>(r: seq<(K, V)>, t: seq<(K, V)>, k: K) {
    && Lookup(r, k) == None
    && (forall j :: j != k ==> Lookup(r, j) == Lookup(t, j))
    && (forall x :: x in Keys(r) <==> x in Keys(t) && x != k)
    && Subseq(r, t)
  }

  /** A first entry with key `k` is dropped. */
  lemma RemoveDrop<K(!new), V(!new)>(t: seq<(K, V)>, k: K, rest: seq<(K, V)>)
    requires t != [] && t[0].0 == k && RemovedFrom(rest, t[1..], k)
    ensures RemovedFrom(rest, t, k)
  {
    assert Keys(t) == [t[0].0] + Keys(t[1..]);
    SubseqCons(t[0], rest, t[1..]);
    assert [t[0]] + t[1..] == t;
  }

  /** A first entry with another key is kept. */
  lemma RemoveKeep<K(!new), V(!new)>(t: seq<(K, V)>, k: K, rest: seq<(K, V)>)
    requires t != [] && t[0].0 != k && RemovedFrom(rest, t[1..], k)
    ensures RemovedFrom([t[0]] + rest, t, k)
  {
    var r := [t[0]] + rest;
    assert Keys(t) == [t[0].0] + Keys(t[1..]);
    assert Keys(r) == [t[0].0] + Keys(rest);
    assert r[1..] == rest;
  }

  /** Assigning the entries of `ps` one after another, as `Object.fromEntries`, `Object.assign` or a `Map` constructor do. */
  function PutAll<K(==,!new), V(==,!new)>(t: seq<(K, V)>, ps: seq<(K, V)>): (r: seq<(K, V)>)
    ensures DistinctKeys(t) ==> DistinctKeys(r)
    decreases |ps|
  {
    if ps == [] then t
    else
      var p := ps[|ps| - 1];
      Put(PutAll(t, ps[..|ps| - 1]), p.0, p.1)
  }

  function FromPairs<K(==,!new), V(==,!new)>(ps: seq<(K, V)>): (r: seq<(K, V)>)
    ensures DistinctKeys(r)
  {
    PutAll([], ps)
  }

  /** The keys after assigning `ps`: the old keys, then the new ones in order of first appearance. */
  lemma {:induction false} PutAllKeys<K(!new), V(!new)>(t: seq<(K, V)>, ps: seq<(K, V)>)
    requires DistinctKeys(t)
    ensures Keys(PutAll(t, ps)) == Unique(Keys(t) + Keys(ps))
    decreases |ps|
  {
    if ps == [] {
      assert Keys(t) + Keys(ps) == Keys(t);
      UniqueOfDistinct(Keys(t));
    } else {
      var init, p := ps[..|ps| - 1], ps[|ps| - 1];
      PutAllKeys(t, init);
      var ks := Keys(t) + Keys(init);
      KeysSnoc(ps);
      assert Keys(t) + Keys(ps) == ks + [p.0];
      UniqueSnoc(ks, p.0);
    }
  }

  lemma KeysSnoc<K(!new), V(!new)>(ps: seq<(K, V)>)
    requires ps != []
    ensures Keys(ps) == Keys(ps[..|ps| - 1]) + [ps[|ps| - 1].0]
  {
  }

  /** The value of a key after assigning `ps`: the last one `ps` gives it, else the old one. */
  lemma {:induction false} PutAllLookup<K(!new), V(!new)>(t: seq<(K, V)>, ps: seq<(K, V)>, k: K)
    ensures Lookup(PutAll(t, ps), k) == if k in Keys(ps) then Last(ps, k) else Lookup(t, k)
    decreases |ps|
  {
    if ps != [] {
      var init := ps[..|ps| - 1];
      assert Keys(ps) == Keys(init) + [ps[|ps| - 1].0];
      PutAllLookup(t, init, k);
    }
  }

  /** Reads of a two-entry table. */
  lemma LookupPair<K(!new), V(!new)>(p: (K, V), q: (K, V), k: K)
    requires p.0 != q.0
    ensures Lookup([p, q], k) == if k == p.0 then Some(p.1) else if k == q.0 then Some(q.1) else None
  {
    assert [p, q][1..] == [q];
    assert [q][1..] == [];
  }

  /** Assigning two entries is two assignments. */
  lemma PutAllPair<K(!new), V(!new)>(t: seq<(K, V)>, p: (K, V), q: (K, V))
    ensures PutAll(t, [p, q]) == Put(Put(t, p.0, p.1), q.0, q.1)
  {
    var ps, one, none := [p, q], [p], [];
    assert ps[..|ps| - 1] == one && one[..|one| - 1] == none;
    assert PutAll(t, one) == Put(t, p.0, p.1);
    assert PutAll(t, ps) == Put(PutAll(t, one), q.0, q.1);
  }

  /** Assignments into a table of at most one entry. */
  lemma PutSmall<K(!new), V(!new)>(k: K, v: V, j: K, w: V)
    ensures Put([], k, v) == [(k, v)]
    ensures Put([(k, v)], k, w) == [(k, w)]
    ensures j != k ==> Put([(k, v)], j, w) == [(k, v), (j, w)]
  {
    assert Keys([(k, v)]) == [k];
  }

  lemma {:induction false} PutAllConcat<K(!new), V(!new)>(t: seq<(K, V)>, a: seq<(K, V)>, b: seq<(K, V)>)
    ensures PutAll(PutAll(t, a), b) == PutAll(t, a + b)
    decreases |b|
  {
    if b == [] {
      ConcatEmpty(a);
    } else {
      var init := b[..|b| - 1];
      PutAllConcat(t, a, init);
      SnocConcat(a, b);
      assert PutAll(t, a + b) == Put(PutAll(t, a + init), b[|b| - 1].0, b[|b| - 1].1);
    }
  }

  /** In a table with distinct keys, the entry at position `i` is what its key reads. */
  lemma {:induction false} LookupAt<K(!new), V(!new)>(t: seq<(K, V)>, i: nat)
    requires DistinctKeys(t) && i < |t|
    ensures Lookup(t, t[i].0) == Some(t[i].1)
  {
    if i > 0 {
      assert t[0].0 != t[i].0 by {
        assert Keys(t)[0] == t[0].0 && Keys(t)[i] == t[i].0;
      }
      assert Keys(t[1..]) == Keys(t)[1..];
      LookupAt(t[1..], i - 1);
    }
  }

  /** `Last` reads the entry at the last position holding the key. */
  lemma {:induction false} LastAt<K(!new), V(!new)>(t: seq<(K, V)>, j: nat)
    requires j < |t| && forall i :: j < i < |t| ==> t[i].0 != t[j].0
    ensures Last(t, t[j].0) == Some(t[j].1)
    decreases |t|
  {
    if j < |t| - 1 {
      LastAt(t[..|t| - 1], j);
    }
  }

  /** What `Last` reads comes from an entry no later entry with that key follows. */
  lemma {:induction false} LastEntry<K(!new), V(!new)>(t: seq<(K, V)>, k: K)
    requires Last(t, k).Some?
    ensures exists j :: 0 <= j < |t| && t[j] == (k, Last(t, k).value) && forall i :: j < i < |t| ==> t[i].0 != k
    decreases |t|
  {
    var n := |t| - 1;
    if t[n].0 != k {
      var init := t[..n];
      assert Last(t, k) == Last(init, k);
      LastEntry(init, k);
      var j :| 0 <= j < |init| && init[j] == (k, Last(init, k).value) && forall i :: j < i < |init| ==> init[i].0 != k;
      forall i | j < i < |t| ensures t[i].0 != k {
        if i < n { assert t[i] == init[i]; }
      }
      assert t[j] == init[j];
    } else {
      assert t[n] == (k, Last(t, k).value);
    }
  }

  /** With distinct keys the first and the last entry for a key are the same entry. */
  lemma {:induction false} LastIsLookup<K(!new), V(!new)>(t: seq<(K, V)>, k: K)
    requires DistinctKeys(t)
    ensures Last(t, k) == Lookup(t, k)
    decreases |t|
  {
    if t != [] {
      var init := t[..|t| - 1];
      assert Keys(init) == Keys(t)[..|t| - 1];
      LastIsLookup(init, k);
      if t[|t| - 1].0 == k {
        LookupAt(t, |t| - 1);
      } else {
        assert t == init + [t[|t| - 1]];
        LookupAppend(init, t[|t| - 1].0, t[|t| - 1].1);
      }
    }
  }

  /** Two tables with distinct keys are equal when they list the same keys in the same order and agree on every key. */
  lemma TableExt<K(!new), V(!new)>(a: seq<(K, V)>, b: seq<(K, V)>)
    requires DistinctKeys(a) && DistinctKeys(b) && Keys(a) == Keys(b)
    requires forall k :: Lookup(a, k) == Lookup(b, k)
    ensures a == b
  {
    forall i | 0 <= i < |a|
      ensures a[i] == b[i]
    {
      LookupAt(a, i);
      LookupAt(b, i);
    }
  }

  /** Building a table with exactly one entry per key gives that list back. */
  lemma {:induction false} FromPairsDistinct<K(!new), V(!new)>(ps: seq<(K, V)>)
    requires DistinctKeys(ps)
    ensures FromPairs(ps) == ps
    decreases |ps|
  {
    if ps != [] {
      var init := ps[..|ps| - 1];
      assert Keys(init) == Keys(ps)[..|ps| - 1];
      FromPairsDistinct(init);
      assert ps[|ps| - 1].0 !in Keys(init);
      assert ps == init + [ps[|ps| - 1]];
    }
  }

  /** Assigning a ready-built table has the same effect as assigning the entries it was built from. */
  lemma PutAllFromPairs<K(!new), V(!new)>(t: seq<(K, V)>, ps: seq<(K, V)>)
    requires DistinctKeys(t)
    ensures PutAll(t, FromPairs(ps)) == PutAll(t, ps)
  {
    var f := FromPairs(ps);
    var empty: seq<(K, V)> := [];
    PutAllKeys(empty, ps);
    assert Keys(empty) + Keys(ps) == Keys(ps);
    PutAllKeys(t, f);
    PutAllKeys(t, ps);
    UniqueAppendUnique(Keys(t), Keys(ps));
    forall k
      ensures Lookup(PutAll(t, f), k) == Lookup(PutAll(t, ps), k)
    {
      PutAllLookup(t, f, k);
      PutAllLookup(t, ps, k);
      PutAllLookup([], ps, k);
      LastIsLookup(f, k);
    }
    TableExt(PutAll(t, f), PutAll(t, ps));
  }

  /** `Object.fromEntries` / `new Map(...)`: one entry per distinct key, in order of first appearance, holding the last value given. */
  lemma FromPairsSpec<K(!new), V(!new)>(ps: seq<(K, V)>)
    ensures Keys(FromPairs(ps)) == Unique(Keys(ps))
    ensures forall k :: Lookup(FromPairs(ps), k) == Last(ps, k)
  {
    var empty: seq<(K, V)> := [];
    PutAllKeys(empty, ps);
    assert Keys(empty) + Keys(ps) == Keys(ps);
    forall k
      ensures Lookup(FromPairs(ps), k) == Last(ps, k)
    {
      PutAllLookup([], ps, k);
    }
  }
}
