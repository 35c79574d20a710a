/**
 * The object helpers: omitting and picking keys, flattening nested objects,
 * dropping falsy values, the falsy-excluding union, key/value flipping and
 * de-duplication by a key. Objects are their own entries in enumeration
 * order; a copy is a new list of entries, so no argument is ever changed.
 */
module ObjectUtils {
  import opened Wrappers
  import opened Seqs
  import opened Assoc
  import opened JsValue

  // ---------------------------------------------------------------- omit

  function KeyNotIn(ks: seq<string>): ((string, Value)) -> bool { (e: (string, Value)) => e.0 !in ks }

  /** The entries of `ps` whose key is not one of `ks`, in order. */
  function Without(ps: Props, ks: seq<string>): Props {
    Filter(KeyNotIn(ks), ps)
  }

  /** Deleting one more key from the copy is filtering by the longer key list. */
  lemma {:induction false} RemoveWithout(ps: Props, ks: seq<string>, k: string)
    ensures Remove(Without(ps, ks), k) == Without(ps, ks + [k])
  {
    if ps != [] {
      RemoveWithout(ps[1..], ks, k);
      assert ps[0].0 in ks + [k] <==> ps[0].0 in ks || ps[0].0 == k;
    }
  }

  /** `omitKeysFromObject`: a spread copy of `obj`, then `delete` of each key in turn. */
  method OmitKeysFromObject(obj: Value, keys: seq<string>) returns (r: Value)
    ensures r == Obj(Without(OwnEntries(obj), keys))
  {
    var newObj := OwnEntries(obj);
    assert Without(newObj, keys[..0]) == newObj by {
      FilterAll(KeyNotIn(keys[..0]), newObj);
    }
    for i := 0 to |keys|
      invariant newObj == Without(OwnEntries(obj), keys[..i])
    {
      RemoveWithout(OwnEntries(obj), keys[..i], keys[i]);
      assert keys[..i + 1] == keys[..i] + [keys[i]];
      newObj := Remove(newObj, keys[i]);
    }
    assert keys[..|keys|] == keys;
    r := Obj(newObj);
  }

  /** The result `omit` specifies: each array element's copy without the keys, or the object's. */
  function Omitted(v: Value, keys: seq<string>): Value {
    if v.Arr? then Arr(seq(|v.items|, i requires 0 <= i < |v.items| => Obj(Without(OwnEntries(v.items[i]), keys))))
    else Obj(Without(OwnEntries(v), keys))
  }

  /** `omit(objOrArray, ...keys)`. */
  method Omit(v: Value, keys: seq<string>) returns (r: Value)
    ensures r == Omitted(v, keys)
  {
    if v.Arr? {
      var out: seq<Value> := [];
      for i := 0 to |v.items|
        invariant |out| == i
        invariant forall j :: 0 <= j < i ==> out[j] == Obj(Without(OwnEntries(v.items[j]), keys))
      {
        var o := OmitKeysFromObject(v.items[i], keys);
        out := out + [o];
      }
      r := Arr(out);
    } else {
      r := OmitKeysFromObject(v, keys);
    }
  }

  /** The omitted keys read as absent; every other key keeps its value. */
  lemma OmitLookup(ps: Props, keys: seq<string>, k: string)
    ensures Lookup(Without(ps, keys), k) == if k in keys then None else Lookup(ps, k)
  {
    OmitLookupFrom(ps, keys, k);
  }

  lemma {:induction false} OmitLookupFrom(ps: Props, keys: seq<string>, k: string)
    ensures Lookup(Without(ps, keys), k) == if k in keys then None else Lookup(ps, k)
  {
    if ps != [] {
      OmitLookupFrom(ps[1..], keys, k);
    }
  }

  /** The remaining keys are the object's keys, in order, minus the omitted ones. */
  lemma OmitKeys(ps: Props, keys: seq<string>)
    ensures forall k :: k in Keys(Without(ps, keys)) <==> k in Keys(ps) && k !in keys
    ensures Subseq(Without(ps, keys), ps)
  {
    FilterSubseq(KeyNotIn(keys), ps);
    forall k
      ensures k in Keys(Without(ps, keys)) <==> k in Keys(ps) && k !in keys
    {
      OmitLookup(ps, keys, k);
    }
  }

  /** Omitting the same keys twice changes nothing more. */
  lemma OmitIdempotent(ps: Props, keys: seq<string>)
    ensures Without(Without(ps, keys), keys) == Without(ps, keys)
  {
    FilterMembers(KeyNotIn(keys), ps);
    FilterAll(KeyNotIn(keys), Without(ps, keys));
  }

  /** `omit({a: 1, b: 2, c: 3}, 'a', 'c')` is `{b: 2}`. */
  lemma OmitExample()
    ensures Omitted(Obj([("a", Num(1)), ("b", Num(2)), ("c", Num(3))]), ["a", "c"]) == Obj([("b", Num(2))])
  {
    var ps := [("a", Num(1)), ("b", Num(2)), ("c", Num(3))];
    assert ps[1..][1..][1..] == [];
  }

  // ---------------------------------------------------------------- pick

  function KeyIn(ks: seq<string>): ((string, Value)) -> bool { (e: (string, Value)) => e.0 in ks }

  /** `pick(obj, ...props)`: the entries whose key is listed, through `Object.fromEntries`. */
  function Pick(obj: Value, props: seq<string>): Value {
    Obj(FromPairs(Filter(KeyIn(props), OwnEntries(obj))))
  }

  /**
   * On an object (whose keys are distinct) `pick` keeps exactly the listed
   * keys that exist, in the object's order, with their values.
   */
  lemma PickSpec(ps: Props, props: seq<string>)
    requires DistinctKeys(ps)
    ensures Pick(Obj(ps), props) == Obj(Filter(KeyIn(props), ps))
    ensures Subseq(Pick(Obj(ps), props).props, ps)
    ensures forall k :: Lookup(Pick(Obj(ps), props).props, k) == if k in props then Lookup(ps, k) else None
  {
    PickDistinct(ps, props);
    FromPairsDistinct(Filter(KeyIn(props), ps));
    FilterSubseq(KeyIn(props), ps);
    forall k
      ensures Lookup(Filter(KeyIn(props), ps), k) == if k in props then Lookup(ps, k) else None
    {
      PickLookup(ps, props, k);
    }
  }

  lemma {:induction false} PickLookup(ps: Props, props: seq<string>, k: string)
    ensures Lookup(Filter(KeyIn(props), ps), k) == if k in props then Lookup(ps, k) else None
  {
    if ps != [] {
      PickLookup(ps[1..], props, k);
    }
  }

  lemma {:induction false} PickDistinct(ps: Props, props: seq<string>)
    requires DistinctKeys(ps)
    ensures DistinctKeys(Filter(KeyIn(props), ps))
  {
    if ps != [] {
      assert Keys(ps) == [ps[0].0] + Keys(ps[1..]);
      PickDistinct(ps[1..], props);
      var rest := Filter(KeyIn(props), ps[1..]);
      if ps[0].0 in props {
        FilterMembers(KeyIn(props), ps[1..]);
        forall m | 0 <= m < |rest|
          ensures rest[m].0 != ps[0].0
        {
          assert rest[m] in ps[1..];
          var j :| 0 <= j < |ps[1..]| && ps[1..][j] == rest[m];
          assert Keys(ps)[1 + j] == rest[m].0;
        }
        assert Keys([ps[0]] + rest) == [ps[0].0] + Keys(rest);
      }
    }
  }

  // ---------------------------------------------------------------- flattenObject

  /**
   * The values `flattenObject` descends into: `typeof` "object", not null,
   * not an array. Dates and regular expressions have no own keys and so
   * contribute nothing.
   */
  predicate Descends(x: Value) {
    x.Obj? || x.DateV? || x.RegExpV?
  }

  /**
   * The values `flattened[key] = value` stores as an own key: those not
   * descended into, under any key but `__proto__`, whose assignment goes to
   * the prototype setter instead.
   */
  predicate Stored(k: string, x: Value) {
    !Descends(x) && k != "__proto__"
  }

  /** Processing the keys of `ps` from position `i` on, into `acc`. */
  function FlattenFrom(acc: Props, ps: Props, i: nat): Props
    requires i <= |ps|
    decreases Obj(ps), |ps| - i
  {
    if i == |ps| then acc
    else FlattenFrom(Absorb(acc, ps[i].0, ps[i].1), ps, i + 1)
  }

  /** One key: a nested object's flattening is assigned over `acc`; any other kept value is stored under `k`. */
  function Absorb(acc: Props, k: string, x: Value): Props
    decreases x, if x.Obj? then |x.props| + 1 else 0
  {
    if x.Obj? then PutAll(acc, FlattenFrom([], x.props, 0))
    else if Stored(k, x) then Put(acc, k, x)
    else acc
  }

  /** `flattenObject(obj)`. */
  method FlattenObject(ps: Props) returns (flattened: Props)
    ensures flattened == FlattenFrom([], ps, 0)
    decreases Obj(ps)
  {
    flattened := [];
    for i := 0 to |ps|
      invariant FlattenFrom(flattened, ps, i) == FlattenFrom([], ps, 0)
    {
      var key, value := ps[i].0, ps[i].1;
      ghost var before := flattened;
      FlattenStep(before, ps, i);
      if value.Obj? {
        var inner := FlattenObject(value.props);
        flattened := PutAll(flattened, inner);
        AbsorbObject(before, key, value);
      } else if Stored(key, value) {
        flattened := Put(flattened, key, value);
        AbsorbScalar(before, key, value, flattened);
      }
    }
  }

  /** One key of the scan. */
  lemma FlattenStep(acc: Props, ps: Props, i: nat)
    requires i < |ps|
    ensures FlattenFrom(acc, ps, i) == FlattenFrom(Absorb(acc, ps[i].0, ps[i].1), ps, i + 1)
  {
  }

  /** A nested object's flattening is assigned over the accumulator. */
  lemma AbsorbObject(acc: Props, k: string, x: Value)
    requires x.Obj?
    ensures Absorb(acc, k, x) == PutAll(acc, FlattenFrom([], x.props, 0))
  {
  }

  /** Every value `flattenObject` keeps, in depth-first order, under its own key. */
  function LeavesFrom(ps: Props, i: nat): (r: Props)
    requires i <= |ps|
    decreases Obj(ps), |ps| - i
  {
    if i == |ps| then []
    else
      var k, x := ps[i].0, ps[i].1;
      var here :=
        if x.Obj? then
          LeavesFrom(x.props, 0)
        else if Stored(k, x) then [(k, x)]
        else [];
      here + LeavesFrom(ps, i + 1)
  }

  lemma {:induction false} LeavesAreScalars(ps: Props, i: nat)
    requires i <= |ps|
    ensures forall e :: e in LeavesFrom(ps, i) ==> Stored(e.0, e.1)
    decreases Obj(ps), |ps| - i
  {
    if i < |ps| {
      var x := ps[i].1;
      if x.Obj? {
        LeavesAreScalars(x.props, 0);
      }
      LeavesAreScalars(ps, i + 1);
    }
  }

  /** Flattening assigns the leaves in depth-first order: a later key overwrites an earlier one. */
  lemma {:induction false} FlattenIsAssignLeaves(acc: Props, ps: Props, i: nat)
    requires i <= |ps| && DistinctKeys(acc)
    ensures FlattenFrom(acc, ps, i) == PutAll(acc, LeavesFrom(ps, i))
    decreases Obj(ps), |ps| - i
  {
    if i < |ps| {
      var k, x := ps[i].0, ps[i].1;
      var here := if x.Obj? then LeavesFrom(x.props, 0) else if Stored(k, x) then [(k, x)] else [];
      AbsorbIsAssignLeaves(acc, k, x);
      FlattenIsAssignLeaves(Absorb(acc, k, x), ps, i + 1);
      PutAllConcat(acc, here, LeavesFrom(ps, i + 1));
    }
  }

  lemma {:induction false} AbsorbIsAssignLeaves(acc: Props, k: string, x: Value)
    requires DistinctKeys(acc)
    ensures Absorb(acc, k, x) == PutAll(acc, if x.Obj? then LeavesFrom(x.props, 0) else if Stored(k, x) then [(k, x)] else [])
    ensures DistinctKeys(Absorb(acc, k, x))
    decreases x, if x.Obj? then |x.props| + 1 else 0
  {
    if x.Obj? {
      var none: Props := [];
      FlattenIsAssignLeaves(none, x.props, 0);
      PutAllFromPairs(acc, LeavesFrom(x.props, 0));
    } else if Stored(k, x) {
      var one := [(k, x)];
      assert one[..0] == [];
    }
  }

  /**
   * `flattenObject`: each key of the result holds the value of the last leaf
   * with that key, in depth-first order; no value is a nested object, a date
   * or a regular expression; keys appear in order of first leaf; `__proto__`
   * is never an own key.
   */
  lemma FlattenObjectSpec(ps: Props)
    ensures Keys(FlattenFrom([], ps, 0)) == Unique(Keys(LeavesFrom(ps, 0)))
    ensures forall k :: Lookup(FlattenFrom([], ps, 0), k) == Last(LeavesFrom(ps, 0), k)
    ensures forall k :: Lookup(FlattenFrom([], ps, 0), k).Some? ==> !Descends(Lookup(FlattenFrom([], ps, 0), k).value)
    ensures Lookup(FlattenFrom([], ps, 0), "__proto__").None?
  {
    FlattenIsAssignLeaves([], ps, 0);
    FromPairsSpec(LeavesFrom(ps, 0));
    LeavesAreScalars(ps, 0);
    forall k | Lookup(FlattenFrom([], ps, 0), k).Some?
      ensures Stored(k, Lookup(FlattenFrom([], ps, 0), k).value)
    {
      var f := FlattenFrom([], ps, 0);
      var i :| 0 <= i < |f| && f[i] == (k, Lookup(f, k).value);
      FlattenValues(ps);
      assert f[i] in f;
    }
  }

  lemma FlattenValues(ps: Props)
    ensures forall e :: e in FlattenFrom([], ps, 0) ==> Stored(e.0, e.1)
  {
    FlattenIsAssignLeaves([], ps, 0);
    LeavesAreScalars(ps, 0);
    PutAllEntries([], LeavesFrom(ps, 0));
  }

  lemma {:induction false} PutAllEntries(t: Props, es: Props)
    ensures forall e :: e in PutAll(t, es) ==> e in t || e in es
  {
    if es != [] {
      var init := es[..|es| - 1];
      PutAllEntries(t, init);
      PutEntries(PutAll(t, init), es[|es| - 1].0, es[|es| - 1].1);
      assert forall e :: e in init ==> e in es;
    }
  }

  /** `{a: 1, b: {a: 2, c: null}}` flattens to `{a: 2, c: null}`: the nested `a` overwrites, `null` is kept. */
  lemma FlattenObjectExample()
    ensures FlattenFrom([], [("a", Num(1)), ("b", Obj([("a", Num(2)), ("c", Null)]))], 0) == [("a", Num(2)), ("c", Null)]
  {
    var inner := [("a", Num(2)), ("c", Null)];
    var ps := [("a", Num(1)), ("b", Obj(inner))];
    var none: Props := [];
    AbsorbScalar(none, "a", Num(1), [("a", Num(1))]);
    assert FlattenFrom(none, ps, 0) == FlattenFrom([("a", Num(1))], ps, 1);
    ExampleInner();
    assert FlattenFrom([("a", Num(1))], ps, 1) == FlattenFrom(inner, ps, 2);
  }

  /** A value that is not descended into is stored under its own key. */
  lemma AbsorbScalar(acc: Props, k: string, x: Value, r: Props)
    requires Stored(k, x) && r == Put(acc, k, x)
    ensures Absorb(acc, k, x) == r
  {
  }

  lemma ExampleInner()
    ensures Absorb([("a", Num(1))], "b", Obj([("a", Num(2)), ("c", Null)])) == [("a", Num(2)), ("c", Null)]
  {
    var inner := [("a", Num(2)), ("c", Null)];
    assert "c" != "a" by { assert "c"[0] != "a"[0]; }
    FlattenPair(inner[0], inner[1]);
    PutSmall("a", Num(2), "c", Null);
    assert FlattenFrom([], inner, 0) == inner;
    PutAllPair([("a", Num(1))], inner[0], inner[1]);
    PutSmall("a", Num(1), "a", Num(2));
  }

  /** Two keys whose values are not descended into are stored in order. */
  lemma FlattenPair(p: (string, Value), q: (string, Value))
    requires Stored(p.0, p.1) && Stored(q.0, q.1)
    ensures FlattenFrom([], [p, q], 0) == Put(Put([], p.0, p.1), q.0, q.1)
  {
    var none: Props := [];
    var ps := [p, q];
    assert FlattenFrom(none, ps, 0) == FlattenFrom(Put(none, p.0, p.1), ps, 1);
    assert FlattenFrom(Put(none, p.0, p.1), ps, 1) == FlattenFrom(Put(Put(none, p.0, p.1), q.0, q.1), ps, 2);
  }

  /** An own `__proto__` data key, as `JSON.parse` makes one, is not copied: `{__proto__: 1, a: 2}` flattens to `{a: 2}`. */
  lemma FlattenSkipsProto()
    ensures FlattenFrom([], [("__proto__", Num(1)), ("a", Num(2))], 0) == [("a", Num(2))]
  {
    var ps := [("__proto__", Num(1)), ("a", Num(2))];
    var none: Props := [];
    assert Absorb(none, "__proto__", Num(1)) == none;
    assert FlattenFrom(none, ps, 0) == FlattenFrom(none, ps, 1);
    AbsorbScalar(none, "a", Num(2), [("a", Num(2))]);
    assert FlattenFrom(none, ps, 1) == FlattenFrom([("a", Num(2))], ps, 2);
  }

  // ---------------------------------------------------------------- filterFalsyFromObject

  /**
   * The entries `acc[key] = obj[key]` stores: truthy values under any key
   * but `__proto__`, whose assignment goes to the prototype setter instead.
   */
  function TruthyEntry(): ((string, Value)) -> bool { (e: (string, Value)) => Truthy(e.1) && e.0 != "__proto__" }

  /** `filterFalsyFromObject(obj)`: the reduce that copies each truthy value into the accumulator. */
  method FilterFalsyFromObject(ps: Props) returns (acc: Props)
    requires DistinctKeys(ps)
    ensures acc == Filter(TruthyEntry(), ps)
  {
    acc := [];
    for i := 0 to |ps|
      invariant acc == Filter(TruthyEntry(), ps[..i])
    {
      assert ps[..i + 1] == ps[..i] + [ps[i]];
      FilterConcat(TruthyEntry(), ps[..i], [ps[i]]);
      if Truthy(ps[i].1) {
        // `acc.__proto__ = v` replaces or keeps the prototype and stores no own key
        if ps[i].0 != "__proto__" {
          FilterKeys(ps, i);
          acc := Put(acc, ps[i].0, ps[i].1);
        }
      }
    }
    assert ps[..|ps|] == ps;
  }

  /** The key at position `i` is new to any filtered prefix before it, so assigning it appends. */
  lemma FilterKeys(ps: Props, i: nat)
    requires DistinctKeys(ps) && i < |ps|
    ensures Put(Filter(TruthyEntry(), ps[..i]), ps[i].0, ps[i].1) == Filter(TruthyEntry(), ps[..i]) + [ps[i]]
  {
    var f := Filter(TruthyEntry(), ps[..i]);
    FilterMembers(TruthyEntry(), ps[..i]);
    forall m | 0 <= m < |f|
      ensures f[m].0 != ps[i].0
    {
      assert f[m] in ps[..i];
      var j :| 0 <= j < i && ps[j] == f[m];
      assert Keys(ps)[j] == f[m].0;
    }
    assert ps[i] == (ps[i].0, ps[i].1);
  }

  /** Exactly the keys whose values are truthy remain, with their values; `__proto__` is never an own key of the result. */
  lemma {:induction false} FilterFalsyLookup(ps: Props, k: string)
    requires DistinctKeys(ps)
    ensures Lookup(Filter(TruthyEntry(), ps), k) ==
            if k != "__proto__" && Lookup(ps, k).Some? && Truthy(Lookup(ps, k).value) then Lookup(ps, k) else None
  {
    if ps != [] {
      assert Keys(ps) == [ps[0].0] + Keys(ps[1..]);
      assert DistinctKeys(ps[1..]) by {
        forall a, b | 0 <= a < b < |ps[1..]|
          ensures Keys(ps[1..])[a] != Keys(ps[1..])[b]
        {
          assert Keys(ps)[a + 1] != Keys(ps)[b + 1];
        }
      }
      FilterFalsyLookup(ps[1..], k);
    }
  }

  // ---------------------------------------------------------------- unionWithExclusion

  function Max(a: nat, b: nat): nat { if a >= b then a else b }

  /** One less than `m`, not below zero. */
  function Below(m: nat): nat { if m == 0 then 0 else m - 1 }

  /** Every stored value is at most `b` deep. */
  predicate Bounded(ps: Props, b: nat) { forall e :: e in ps ==> Height(e.1) <= b }

  /** Every stored value is truthy. */
  predicate AllTruthy(ps: Props) { forall e :: e in ps ==> Truthy(e.1) }

  lemma EntriesBounded(v: Value, m: nat)
    requires Height(v) <= m
    ensures Bounded(OwnEntries(v), Below(m))
  {
    HeightOfEntries(v);
    forall e | e in OwnEntries(v)
      ensures Height(e.1) <= Below(m)
    {
      var i :| 0 <= i < |OwnEntries(v)| && OwnEntries(v)[i] == e;
    }
  }

  /**
   * `unionWithExclusion(left, right)`: the reduce over `[left, right]` that
   * assigns each truthy entry of each truthy operand into one accumulator,
   * merging `typeof` "object" values recursively with what is there. Every
   * value it stores is truthy.
   */
  function Union(l: Value, r: Value): (u: Props)
    ensures Bounded(u, Below(Max(Height(l), Height(r)))) && AllTruthy(u)
    decreases Max(Height(l), Height(r)), 2
  {
    var m := Max(Height(l), Height(r));
    EntriesBounded(l, m);
    EntriesBounded(r, m);
    MergeOperand(m, MergeOperand(m, [], l), r)
  }

  /** One reduce step: the entries of `cur`, if it is truthy. */
  function MergeOperand(m: nat, prev: Props, cur: Value): (u: Props)
    requires Bounded(prev, Below(m)) && AllTruthy(prev) && Bounded(OwnEntries(cur), Below(m))
    ensures Bounded(u, Below(m)) && AllTruthy(u)
    decreases m, 1
  {
    if Truthy(cur) then MergeEntries(m, prev, OwnEntries(cur), 0) else prev
  }

  /** The `forEach` over `Object.entries(current)` from position `i` on. */
  function MergeEntries(m: nat, prev: Props, es: Props, i: nat): (u: Props)
    requires i <= |es|
    requires Bounded(prev, Below(m)) && AllTruthy(prev) && Bounded(es, Below(m))
    ensures Bounded(u, Below(m)) && AllTruthy(u)
    decreases m, 0, |es| - i
  {
    if i == |es| then prev
    else MergeEntries(m, Merge(m, prev, es[i].0, es[i].1), es, i + 1)
  }

  /**
   * One entry: a falsy value is skipped, an object merged with the prior
   * value, anything else stored. `prev.__proto__ = …` goes to the prototype
   * setter and leaves the own keys as they were.
   */
  function Merge(m: nat, prev: Props, k: string, v: Value): (u: Props)
    requires Bounded(prev, Below(m)) && AllTruthy(prev) && Height(v) <= Below(m)
    ensures Bounded(u, Below(m)) && AllTruthy(u)
    decreases m, 0, 0
  {
    if !Truthy(v) || k == "__proto__" then prev
    else if TypeOf(v) == "object" then
      var prior := Get(prev, k);
      GetBounded(prev, k, Below(m));
      var sub := Union(prior, v);
      HeightOfObj(sub, Below(Max(Height(prior), Height(v))));
      PutEntries(prev, k, Obj(sub));
      Put(prev, k, Obj(sub))
    else
      PutEntries(prev, k, v);
      Put(prev, k, v)
  }

  /** `unionWithExclusion(left, right)`: the reduce over the two operands updating one accumulator. */
  method UnionWithExclusion(l: Value, r: Value) returns (prev: Props)
    ensures prev == Union(l, r)
    decreases Max(Height(l), Height(r)), 2
  {
    var m := Max(Height(l), Height(r));
    EntriesBounded(l, m);
    EntriesBounded(r, m);
    prev := [];
    if Truthy(l) {
      prev := MergeInto(m, prev, OwnEntries(l));
    }
    if Truthy(r) {
      prev := MergeInto(m, prev, OwnEntries(r));
    }
  }

  /** The `forEach` over one operand's entries, assigning into `prev`. */
  method MergeInto(m: nat, start: Props, es: Props) returns (prev: Props)
    requires Bounded(start, Below(m)) && AllTruthy(start) && Bounded(es, Below(m))
    ensures prev == MergeEntries(m, start, es, 0)
    decreases m, 1
  {
    prev := start;
    for i := 0 to |es|
      invariant Bounded(prev, Below(m)) && AllTruthy(prev)
      invariant MergeEntries(m, prev, es, i) == MergeEntries(m, start, es, 0)
    {
      var key, value := es[i].0, es[i].1;
      assert es[i] in es;
      ghost var before := prev;
      assert MergeEntries(m, before, es, i) == MergeEntries(m, Merge(m, before, key, value), es, i + 1);
      // `prev.__proto__ = …` replaces or keeps the prototype and stores no own key
      if Truthy(value) && key != "__proto__" {
        if TypeOf(value) == "object" {
          var prior := Get(prev, key);
          GetBounded(prev, key, Below(m));
          var sub := UnionWithExclusion(prior, value);
          prev := Put(prev, key, Obj(sub));
        } else {
          prev := Put(prev, key, value);
        }
      }
      assert prev == Merge(m, before, key, value);
    }
  }

  /** A read from a table of values at most `b` deep is at most `b` deep. */
  lemma GetBounded(ps: Props, k: string, b: nat)
    requires Bounded(ps, b)
    ensures Height(Get(ps, k)) <= b
  {
    if Lookup(ps, k).Some? {
      var i :| 0 <= i < |ps| && ps[i] == (k, Lookup(ps, k).value);
      assert ps[i] in ps;
    }
  }

  /** What assigning `v` over key `k`, which read `prior`, leaves there as an own value. */
  function Combine(k: string, prior: Option<Value>, v: Option<Value>): Option<Value> {
    if v.None? || !Truthy(v.value) || k == "__proto__" then prior
    else if TypeOf(v.value) == "object" then Some(Obj(Union(prior.GetOr(Undefined), v.value)))
    else v
  }

  lemma MergeLookup(m: nat, prev: Props, k: string, v: Value, j: string)
    requires Bounded(prev, Below(m)) && AllTruthy(prev) && Height(v) <= Below(m)
    ensures Lookup(Merge(m, prev, k, v), j) == if j == k then Combine(k, Lookup(prev, k), Some(v)) else Lookup(prev, j)
  {
  }

  lemma {:induction false} MergeEntriesLookup(m: nat, prev: Props, es: Props, i: nat, k: string)
    requires i <= |es| && DistinctKeys(es)
    requires Bounded(prev, Below(m)) && AllTruthy(prev) && Bounded(es, Below(m))
    ensures Lookup(MergeEntries(m, prev, es, i), k) == Combine(k, Lookup(prev, k), Lookup(es[i..], k))
    decreases |es| - i
  {
    if i < |es| {
      assert es[i] in es;
      var next := Merge(m, prev, es[i].0, es[i].1);
      MergeEntriesLookup(m, next, es, i + 1, k);
      MergeLookup(m, prev, es[i].0, es[i].1, k);
      assert es[i..][0] == es[i] && es[i..][1..] == es[i + 1..];
      if es[i].0 == k {
        assert k !in Keys(es[i + 1..]) by {
          assert Keys(es[i + 1..]) == Keys(es)[i + 1..];
        }
      }
      CombineShift(Lookup(prev, k), es[i..], k);
    }
  }

  /** Assigning the first entry and then the rest reads like assigning all of them at once. */
  lemma CombineShift(prior: Option<Value>, t: Props, k: string)
    requires t != [] && (t[0].0 == k ==> k !in Keys(t[1..]))
    ensures Combine(k, if t[0].0 == k then Combine(k, prior, Some(t[0].1)) else prior, Lookup(t[1..], k)) ==
            Combine(k, prior, Lookup(t, k))
  {
  }

  /**
   * Each key of the union reads what assigning the left operand's value and
   * then the right operand's over an empty object gives: a falsy value never
   * overwrites, a truthy non-object value from `right` replaces, objects
   * merge recursively, and a key neither operand holds truthily is absent.
   */
  lemma UnionLookup(l: Value, r: Value, k: string)
    requires DistinctKeys(OwnEntries(l)) && DistinctKeys(OwnEntries(r))
    ensures Lookup(Union(l, r), k) == Combine(k, Combine(k, None, Lookup(OwnEntries(l), k)), Lookup(OwnEntries(r), k))
  {
    var m := Max(Height(l), Height(r));
    EntriesBounded(l, m);
    EntriesBounded(r, m);
    var none: Props := [];
    var left := MergeOperand(m, none, l);
    OperandLookup(m, none, l, k);
    OperandLookup(m, left, r, k);
    assert Union(l, r) == MergeOperand(m, left, r);
  }

  /** Assigning one operand's entries: each key reads the combination of what was there and the operand's value. */
  lemma OperandLookup(m: nat, prev: Props, v: Value, k: string)
    requires Bounded(prev, Below(m)) && AllTruthy(prev) && Bounded(OwnEntries(v), Below(m))
    requires DistinctKeys(OwnEntries(v))
    ensures Lookup(MergeOperand(m, prev, v), k) == Combine(k, Lookup(prev, k), Lookup(OwnEntries(v), k))
  {
    if Truthy(v) {
      MergeEntriesLookup(m, prev, OwnEntries(v), 0, k);
      assert OwnEntries(v)[0..] == OwnEntries(v);
    } else {
      assert OwnEntries(v) == [];
    }
  }

  /** The three exclusion rules, for keys of two objects, and `__proto__` never being an own key of the union. */
  lemma UnionExclusion(lp: Props, rp: Props, k: string)
    requires DistinctKeys(lp) && DistinctKeys(rp)
    ensures forall e :: e in Union(Obj(lp), Obj(rp)) ==> Truthy(e.1)
    ensures k != "__proto__" && Lookup(rp, k).Some? && Truthy(Lookup(rp, k).value) && TypeOf(Lookup(rp, k).value) != "object" ==>
            Lookup(Union(Obj(lp), Obj(rp)), k) == Lookup(rp, k)
    ensures (Lookup(lp, k).None? || !Truthy(Lookup(lp, k).value)) && (Lookup(rp, k).None? || !Truthy(Lookup(rp, k).value)) ==>
            k !in Keys(Union(Obj(lp), Obj(rp)))
    ensures Lookup(rp, k).None? || !Truthy(Lookup(rp, k).value) ==>
            Lookup(Union(Obj(lp), Obj(rp)), k) == Combine(k, None, Lookup(lp, k))
    ensures "__proto__" !in Keys(Union(Obj(lp), Obj(rp)))
  {
    UnionLookup(Obj(lp), Obj(rp), "__proto__");
    UnionLookup(Obj(lp), Obj(rp), k);
  }

  /** `unionWithExclusion({a: 1, b: 0}, {a: 2, c: 3})` reads `a` as 2 and `c` as 3 and holds no other key. */
  lemma UnionExample(lp: Props, rp: Props, k: string)
    requires lp == [("a", Num(1)), ("b", Num(0))] && rp == [("a", Num(2)), ("c", Num(3))]
    ensures Lookup(Union(Obj(lp), Obj(rp)), k) == if k == "a" then Some(Num(2)) else if k == "c" then Some(Num(3)) else None
  {
    assert "a" != "b" && "a" != "c" by { assert "a"[0] != "b"[0] && "a"[0] != "c"[0]; }
    UnionLookup(Obj(lp), Obj(rp), k);
    LookupPair(lp[0], lp[1], k);
    LookupPair(rp[0], rp[1], k);
    if k == "a" {
      CombineNumber(k, None, 1);
      CombineNumber(k, Some(Num(1)), 2);
    } else if k == "b" {
      CombineNumber(k, None, 0);
    } else if k == "c" {
      CombineNumber(k, None, 3);
    }
  }

  /** A number is kept when it is not 0 and, not being an object, replaces what was there. */
  lemma CombineNumber(k: string, prior: Option<Value>, n: int)
    ensures Combine(k, prior, Some(Num(n))) == if n == 0 || k == "__proto__" then prior else Some(Num(n))
  {
    assert TypeOf(Num(n)) != "object" by { assert "number"[0] != "object"[0]; }
  }

  /** Nested objects merge: `{o: {x: 1}}` with `{o: {y: 2}}` gives `o` holding exactly `x: 1` and `y: 2`. */
  lemma UnionNestedExample(lx: Value, ry: Value, k: string)
    requires lx == Obj([("x", Num(1))]) && ry == Obj([("y", Num(2))])
    ensures Lookup(Union(Obj([("o", lx)]), Obj([("o", ry)])), "o") == Some(Obj(Union(Obj(Union(Undefined, lx)), ry)))
    ensures Lookup(Union(Obj(Union(Undefined, lx)), ry), k) == if k == "x" then Some(Num(1)) else if k == "y" then Some(Num(2)) else None
  {
    UnionNestedOuter(lx, ry, "o");
    UnionNestedInner(lx, ry, k);
  }

  /** Two objects under the same key merge into the union of the two. */
  lemma UnionNestedOuter(lx: Value, ry: Value, o: string)
    requires lx.Obj? && ry.Obj? && o != "__proto__"
    ensures Lookup(Union(Obj([(o, lx)]), Obj([(o, ry)])), o) == Some(Obj(Union(Obj(Union(Undefined, lx)), ry)))
  {
    SingleEntry(o, lx);
    SingleEntry(o, ry);
    UnionLookup(Obj([(o, lx)]), Obj([(o, ry)]), o);
    CombineObject(o, None, lx);
    CombineObject(o, Some(Obj(Union(Undefined, lx))), ry);
  }

  lemma SingleEntry(k: string, v: Value)
    ensures DistinctKeys([(k, v)]) && Lookup([(k, v)], k) == Some(v)
  {
    assert Keys([(k, v)]) == [k];
  }

  /** An object assigned over a key merges with what the key held. */
  lemma CombineObject(k: string, prior: Option<Value>, v: Value)
    requires v.Obj?
    ensures Combine(k, prior, Some(v)) == if k == "__proto__" then prior else Some(Obj(Union(prior.GetOr(Undefined), v)))
  {
  }

  lemma UnionNestedInner(lx: Value, ry: Value, k: string)
    requires lx == Obj([("x", Num(1))]) && ry == Obj([("y", Num(2))])
    ensures Lookup(Union(Obj(Union(Undefined, lx)), ry), k) == if k == "x" then Some(Num(1)) else if k == "y" then Some(Num(2)) else None
  {
    var inner := Union(Undefined, lx);
    UnionIntoEmpty(lx, k);
    UnionDistinct(Undefined, lx);
    SingleEntry("y", Num(2));
    UnionLookup(Obj(inner), ry, k);
    assert "x" != "y" by { assert "x"[0] != "y"[0]; }
    var ly := Lookup([("y", Num(2))], k);
    assert ly == if k == "y" then Some(Num(2)) else None;
    var li := Lookup(inner, k);
    CombineNumber(k, None, 1);
    CombineNumber(k, None, 2);
    CombineNumber(k, li, 2);
  }

  lemma UnionIntoEmpty(lx: Value, k: string)
    requires lx == Obj([("x", Num(1))])
    ensures Lookup(Union(Undefined, lx), k) == if k == "x" then Some(Num(1)) else None
  {
    SingleEntry("x", Num(1));
    assert OwnEntries(Undefined) == [];
    UnionLookup(Undefined, lx, k);
    CombineNumber(k, None, 1);
  }

  lemma {:induction false} MergeEntriesDistinct(m: nat, prev: Props, es: Props, i: nat)
    requires i <= |es|
    requires Bounded(prev, Below(m)) && AllTruthy(prev) && Bounded(es, Below(m)) && DistinctKeys(prev)
    ensures DistinctKeys(MergeEntries(m, prev, es, i))
    decreases |es| - i
  {
    if i < |es| {
      assert es[i] in es;
      MergeEntriesDistinct(m, Merge(m, prev, es[i].0, es[i].1), es, i + 1);
    }
  }

  /** The union is an object: its keys are distinct. */
  lemma UnionDistinct(l: Value, r: Value)
    ensures DistinctKeys(Union(l, r))
  {
    var m := Max(Height(l), Height(r));
    EntriesBounded(l, m);
    EntriesBounded(r, m);
    var none: Props := [];
    OperandDistinct(m, none, l);
    OperandDistinct(m, MergeOperand(m, none, l), r);
    assert Union(l, r) == MergeOperand(m, MergeOperand(m, none, l), r);
  }

  /** Assigning one operand's entries keeps the keys distinct. */
  lemma OperandDistinct(m: nat, prev: Props, v: Value)
    requires Bounded(prev, Below(m)) && AllTruthy(prev) && Bounded(OwnEntries(v), Below(m))
    requires DistinctKeys(prev)
    ensures DistinctKeys(MergeOperand(m, prev, v))
  {
    if Truthy(v) {
      MergeEntriesDistinct(m, prev, OwnEntries(v), 0);
    }
  }

  // ---------------------------------------------------------------- flip

  /** Each entry turned round: the value's string form becomes the key, the key a string value. */
  function FlipPairs(ps: Props): (r: Props)
    ensures |r| == |ps| && forall i :: 0 <= i < |ps| ==> r[i] == (JsString(ps[i].1), Str(ps[i].0))
  {
    seq(|ps|, i requires 0 <= i < |ps| => (JsString(ps[i].1), Str(ps[i].0)))
  }

  /** `flip(data)`: `Object.fromEntries` of the turned-round entries. */
  function Flip(ps: Props): Props {
    FromPairs(FlipPairs(ps))
  }

  /**
   * A string is a key of the flipped object exactly when some value prints
   * as it, and it reads the key of the last such entry.
   */
  lemma FlipLookup(ps: Props, j: nat)
    requires j < |ps| && forall i :: j < i < |ps| ==> JsString(ps[i].1) != JsString(ps[j].1)
    ensures Lookup(Flip(ps), JsString(ps[j].1)) == Some(Str(ps[j].0))
  {
    FromPairsSpec(FlipPairs(ps));
    LastAt(FlipPairs(ps), j);
  }

  lemma FlipKeys(ps: Props, s: string)
    ensures s in Keys(Flip(ps)) <==> exists i :: 0 <= i < |ps| && JsString(ps[i].1) == s
  {
    FromPairsSpec(FlipPairs(ps));
    if s in Keys(FlipPairs(ps)) {
      var i :| 0 <= i < |ps| && Keys(FlipPairs(ps))[i] == s;
      assert JsString(ps[i].1) == s;
    }
    if exists i :: 0 <= i < |ps| && JsString(ps[i].1) == s {
      var i :| 0 <= i < |ps| && JsString(ps[i].1) == s;
      assert Keys(FlipPairs(ps))[i] == s;
    }
  }

  /** Every value is a string, and no two entries hold the same one. */
  predicate DistinctStringValues(ps: Props) {
    (forall i :: 0 <= i < |ps| ==> ps[i].1.Str?) &&
    (forall i, j :: 0 <= i < j < |ps| ==> ps[i].1 != ps[j].1)
  }

  /** Flipping twice gives the object back when its values are distinct strings. */
  lemma FlipFlip(ps: Props)
    requires DistinctKeys(ps) && DistinctStringValues(ps)
    ensures Flip(Flip(ps)) == ps
  {
    var f := FlipPairs(ps);
    assert DistinctKeys(f) by {
      forall a, b | 0 <= a < b < |f|
        ensures Keys(f)[a] != Keys(f)[b]
      {
        assert ps[a].1 != ps[b].1;
      }
    }
    FromPairsDistinct(f);
    assert FlipPairs(f) == ps;
    FromPairsDistinct(ps);
  }

  /** `flip({a: 'x', b: 'x'})` is `{x: 'b'}`: the last key wins. */
  lemma FlipCollision(ps: Props)
    requires ps == [("a", Str("x")), ("b", Str("x"))]
    ensures Flip(ps) == [("x", Str("b"))]
  {
    var f := FlipPairs(ps);
    assert f == [("x", Str("a")), ("x", Str("b"))];
    PairsSameKey(f);
  }

  /** Two assignments to one key leave one entry with the second value. */
  lemma PairsSameKey<K(!new), V(!new)>(f: seq<(K, V)>)
    requires |f| == 2 && f[0].0 == f[1].0
    ensures FromPairs(f) == [f[1]]
  {
    var none: seq<(K, V)> := [];
    assert f == [f[0], f[1]];
    PutAllPair(none, f[0], f[1]);
    PutSmall(f[0].0, f[0].1, f[1].0, f[1].1);
  }

  // ---------------------------------------------------------------- uniqueObject, getUniqueByKey

  /** The pairs `arr.map(item => [item[key], item])` a `Map` is built from. */
  function KeyedPairs<T(==,!new), K(==,!new)>(arr: seq<T>, keyOf: T -> K): (ps: seq<(K, T)>)
    ensures |ps| == |arr| && forall i :: 0 <= i < |arr| ==> ps[i] == (keyOf(arr[i]), arr[i])
  {
    seq(|arr|, i requires 0 <= i < |arr| => (keyOf(arr[i]), arr[i]))
  }

  /** `getUniqueByKey(arr, key)`: the values of the `Map`, in key insertion order. */
  function GetUniqueByKey<T(==,!new), K(==,!new)>(arr: seq<T>, keyOf: T -> K): seq<T> {
    Values(FromPairs(KeyedPairs(arr, keyOf)))
  }

  /**
   * One item per distinct key, in order of the key's first appearance; each
   * is the last item with that key.
   */
  lemma GetUniqueByKeySpec<T(!new), K(!new)>(arr: seq<T>, keyOf: T -> K)
    ensures var r := GetUniqueByKey(arr, keyOf);
            var ks := Keys(KeyedPairs(arr, keyOf));
            |r| == |Unique(ks)| &&
            (forall i :: 0 <= i < |r| ==> keyOf(r[i]) == Unique(ks)[i]) &&
            (forall i :: 0 <= i < |r| ==>
               exists j :: 0 <= j < |arr| && arr[j] == r[i] && forall n :: j < n < |arr| ==> keyOf(arr[n]) != keyOf(r[i]))
  {
    var ps := KeyedPairs(arr, keyOf);
    var t := FromPairs(ps);
    FromPairsSpec(ps);
    var r := GetUniqueByKey(arr, keyOf);
    forall i | 0 <= i < |r|
      ensures keyOf(r[i]) == Unique(Keys(ps))[i]
      ensures exists j :: 0 <= j < |arr| && arr[j] == r[i] && forall n :: j < n < |arr| ==> keyOf(arr[n]) != keyOf(r[i])
    {
      LookupAt(t, i);
      assert Lookup(t, t[i].0) == Last(ps, t[i].0);
      LastEntry(ps, t[i].0);
      var j :| 0 <= j < |ps| && ps[j] == (t[i].0, Last(ps, t[i].0).value) && forall n :: j < n < |ps| ==> ps[n].0 != t[i].0;
      assert Keys(t)[i] == t[i].0;
      assert arr[j] == r[i];
    }
  }

  function NonNullish(v: Value): bool { !v.Undefined? && !v.Null? }

  /** `uniqueObject(data, key)`: `getUniqueByKey` keyed by property `key`. */
  function UniqueObject(data: seq<Value>, key: string): seq<Value>
    requires forall i :: 0 <= i < |data| ==> NonNullish(data[i])
  {
    GetUniqueByKey(data, (v: Value) => if NonNullish(v) then Member(v, key) else Undefined)
  }

  /** `getUniqueByKey([{id: 1}, {id: 1}, {id: 2}], 'id')` is `[{id: 1}, {id: 2}]`. */
  lemma UniqueObjectExample(a: Value, b: Value)
    requires a == Obj([("id", Num(1))]) && b == Obj([("id", Num(2))])
    ensures UniqueObject([a, a, b], "id") == [a, b]
  {
    var keyOf := (v: Value) => if NonNullish(v) then Member(v, "id") else Undefined;
    var ps := KeyedPairs([a, a, b], keyOf);
    assert keyOf(a) == Num(1) && keyOf(b) == Num(2);
    assert ps == [(Num(1), a), (Num(1), a), (Num(2), b)];
    FromPairsRepeat((Num(1), a), (Num(2), b));
  }

  /**
   * An own `toString` holding undefined and the inherited `toString` are two
   * different keys: both items are kept.
   */
  lemma UniqueObjectInheritedKey(a: Value, b: Value)
    requires a == Obj([("toString", Undefined)]) && b == Obj([("a", Num(1))])
    ensures UniqueObject([a, b], "toString") == [a, b]
  {
    var keyOf := (v: Value) => if NonNullish(v) then Member(v, "toString") else Undefined;
    assert Keys(a.props) == ["toString"] && Keys(b.props) == ["a"];
    assert keyOf(a) == Undefined && keyOf(b) == InheritedMember("toString");
    assert KeyedPairs([a, b], keyOf) == [(Undefined, a), (InheritedMember("toString"), b)];
    FromPairsTwo((Undefined, a), (InheritedMember("toString"), b));
  }

  /** Two pairs with different keys are both kept, in order. */
  lemma FromPairsTwo<K(!new), V(!new)>(p: (K, V), q: (K, V))
    requires p.0 != q.0
    ensures FromPairs([p, q]) == [p, q]
    ensures Values([p, q]) == [p.1, q.1]
  {
    var none: seq<(K, V)> := [];
    assert [p, q][..1] == [p] && [p][..0] == none;
    assert PutAll(none, [p]) == Put(none, p.0, p.1);
    assert Put(none, p.0, p.1) == [p];
    PutNewKey(p, q);
  }

  /** A repeated pair followed by one with another key leaves the two pairs, in order. */
  lemma FromPairsRepeat<K(!new), V(!new)>(p: (K, V), q: (K, V))
    requires p.0 != q.0
    ensures FromPairs([p, p, q]) == [p, q]
    ensures Values([p, q]) == [p.1, q.1]
  {
    var f := [p, p, q];
    PairsSameKey(f[..2]);
    assert f[..|f| - 1] == f[..2];
    assert FromPairs(f) == Put([p], q.0, q.1);
    PutNewKey(p, q);
  }

  lemma PutNewKey<K(!new), V(!new)>(p: (K, V), q: (K, V))
    requires p.0 != q.0
    ensures Put([p], q.0, q.1) == [p, q]
  {
    assert Keys([p]) == [p.0];
  }
}
