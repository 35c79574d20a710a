/**
 * The key-value cache: a store object written by `set`, read by `get`,
 * tested by `has` (which means "`get` is truthy") and emptied key by key by
 * `remove` (which deletes only keys that `has` reports).
 *
 * The store is a plain object, so keys are strings, and a key naming a
 * member inherited from Object.prototype reads that member until something
 * is stored under it. Writing `__proto__` would replace the store's
 * prototype instead of storing a value, so `set` and `remove` leave that one
 * key out.
 */
module Caching {
  import opened JsValue

  type Store = map<string, Value>

  /** A key whose assignment stores a value (every key but the prototype setter). */
  predicate CacheKey(key: string) { key != "__proto__" }

  /** The store holds only cache keys. */
  predicate ValidStore(store: Store) {
    "__proto__" !in store
  }

  /** `store[key]`: the own value, else the inherited member, else undefined. */
  function Read(store: Store, key: string): (v: Value)
    ensures key in store ==> v == store[key]
    ensures key !in store && key in InheritedNames ==> v == InheritedMember(key)
    ensures key !in store && key !in InheritedNames ==> v == Undefined
  {
    if key in store then store[key]
    else if key in InheritedNames then InheritedMember(key)
    else Undefined
  }

  /** `!!get(key)`. */
  predicate Holds(store: Store, key: string) {
    Truthy(Read(store, key))
  }

  /** The store after `set(key, value)`. */
  function AfterSet(store: Store, key: string, value: Value): (s: Store)
    ensures key in s && s[key] == value
    ensures forall k :: k != key ==> (k in s <==> k in store)
  {
    store[key := value]
  }

  /** The store after `remove(key)`: the key is gone if `has(key)` held, otherwise nothing changes. */
  function AfterRemove(store: Store, key: string): (s: Store)
    ensures Holds(store, key) ==> key !in s
    ensures !Holds(store, key) ==> s == store
    ensures forall k :: k != key ==> (k in s <==> k in store)
  {
    if Holds(store, key) then store - {key} else store
  }

  /** A read right after a write sees the written value; every other key reads as before. */
  lemma ReadAfterSet(store: Store, key: string, value: Value, other: string)
    requires CacheKey(key)
    ensures Read(AfterSet(store, key, value), key) == value
    ensures other != key ==> Read(AfterSet(store, key, value), other) == Read(store, other)
  {
  }

  /** Setting an existing key overwrites: the second write is all that is left of the first. */
  lemma SetOverwrites(store: Store, key: string, first: Value, second: Value)
    ensures AfterSet(AfterSet(store, key, first), key, second) == AfterSet(store, key, second)
  {
  }

  /** `has` is exactly "`get` is truthy": stored 0, '', false, null and undefined read as absent. */
  lemma HasMeansTruthy(store: Store, key: string, s: string)
    ensures Holds(store, key) <==> Truthy(Read(store, key))
    ensures !Holds(AfterSet(store, key, Num(0)), key)
    ensures !Holds(AfterSet(store, key, Str("")), key)
    ensures !Holds(AfterSet(store, key, Bool(false)), key)
    ensures !Holds(AfterSet(store, key, Null), key)
    ensures !Holds(AfterSet(store, key, Undefined), key)
    ensures s != "" ==> Holds(AfterSet(store, key, Str(s)), key)
  {
  }

  /**
   * Removing a key that `has` reports deletes its own value: an ordinary key
   * then reads undefined and is reported absent, while an inherited name
   * reads the inherited member again and is still reported.
   */
  lemma RemoveDeletes(store: Store, key: string)
    requires Holds(store, key)
    ensures key !in AfterRemove(store, key)
    ensures key !in InheritedNames ==> Read(AfterRemove(store, key), key) == Undefined
    ensures key !in InheritedNames ==> !Holds(AfterRemove(store, key), key)
    ensures key in InheritedNames ==> Read(AfterRemove(store, key), key) == InheritedMember(key)
    ensures key in InheritedNames ==> Holds(AfterRemove(store, key), key)
  {
  }

  /**
   * An empty cache already reports every inherited name: `has('toString')`
   * is true before any `set`, and `remove('toString')` leaves it true.
   */
  lemma InheritedReported(key: string)
    requires key in InheritedNames
    ensures Read(map[], key) == InheritedMember(key) && Holds(map[], key)
    ensures AfterRemove(map[], key) == map[]
  {
  }

  /** Removing a missing key, or one holding a falsy value, changes nothing: a stored falsy value survives. */
  lemma RemoveFalsyKeeps(store: Store, key: string)
    requires !Holds(store, key)
    ensures AfterRemove(store, key) == store
    ensures Read(AfterRemove(store, key), key) == Read(store, key)
    ensures Read(AfterRemove(AfterSet(store, key, Num(0)), key), key) == Num(0)
  {
  }

  /** `remove` leaves every other key's value unchanged. */
  lemma RemoveKeepsOthers(store: Store, key: string, other: string)
    requires other != key
    ensures Read(AfterRemove(store, key), other) == Read(store, other)
  {
  }

  /** One call on the cache. */
  datatype Op = SetOp(key: string, value: Value) | RemoveOp(key: string)

  /** The store after a sequence of calls, in order. */
  function Run(store: Store, ops: seq<Op>): Store
    decreases |ops|
  {
    if ops == [] then store
    else
      var s := match ops[0]
        case SetOp(k, v) => AfterSet(store, k, v)
        case RemoveOp(k) => AfterRemove(store, k);
      Run(s, ops[1..])
  }

  /** Every call in `ops` is on a cache key, as `Cache.Set` and `Cache.Remove` require. */
  predicate CacheOps(ops: seq<Op>) {
    forall i :: 0 <= i < |ops| ==> CacheKey(ops[i].key)
  }

  /** No call in `ops` sets or removes `key`. */
  predicate Untouched(ops: seq<Op>, key: string) {
    forall i :: 0 <= i < |ops| ==> ops[i].key != key
  }

  /** Calls on other keys never change what `key` reads. */
  lemma {:induction false} RunKeepsUntouched(store: Store, ops: seq<Op>, key: string)
    requires CacheOps(ops) && Untouched(ops, key)
    ensures Read(Run(store, ops), key) == Read(store, key)
    decreases |ops|
  {
    if ops != [] {
      var s := match ops[0]
        case SetOp(k, v) => AfterSet(store, k, v)
        case RemoveOp(k) => AfterRemove(store, k);
      assert Read(s, key) == Read(store, key);
      assert CacheOps(ops[1..]) && Untouched(ops[1..], key) by {
        forall i | 0 <= i < |ops[1..]| ensures CacheKey(ops[1..][i].key) && ops[1..][i].key != key {
          assert ops[1..][i] == ops[i + 1];
        }
      }
      RunKeepsUntouched(s, ops[1..], key);
    }
  }

  /** After `set(k, v)`, `get(k)` returns v until k is set again or removed. */
  lemma GetAfterSetPersists(store: Store, key: string, value: Value, later: seq<Op>)
    requires CacheKey(key) && CacheOps(later) && Untouched(later, key)
    ensures Read(Run(store, [SetOp(key, value)] + later), key) == value
  {
    var ops := [SetOp(key, value)] + later;
    assert ops[1..] == later;
    RunKeepsUntouched(AfterSet(store, key, value), later, key);
  }

  /** The cache object with its store. */
  class Cache {
    var store: Store

    /** No value is stored under the prototype setter's name. */
    predicate Valid()
      reads this
    {
      ValidStore(store)
    }

    /** A fresh cache has an empty store. */
    constructor()
      ensures store == map[]
      ensures Valid()
    {
      store := map[];
    }

    /** `set(key, value)` writes the value under the key. */
    method Set(key: string, value: Value)
      requires Valid() && CacheKey(key)
      modifies this
      ensures store == AfterSet(old(store), key, value)
      ensures Valid()
    {
      store := store[key := value];
    }

    /** `get(key)` reads the store. */
    method Get(key: string) returns (v: Value)
      ensures v == Read(store, key)
    {
      if key in store {
        v := store[key];
      } else if key in InheritedNames {
        v := InheritedMember(key);
      } else {
        v := Undefined;
      }
    }

    /** `has(key)` is `!!get(key)`. */
    method Has(key: string) returns (b: bool)
      ensures b == Holds(store, key)
      ensures b ==> key in store || key in InheritedNames
    {
      var v := Get(key);
      b := Truthy(v);
    }

    /** `remove(key)`: when `has(key)`, the entry is first nulled and then deleted. */
    method Remove(key: string)
      requires Valid() && CacheKey(key)
      modifies this
      ensures store == AfterRemove(old(store), key)
      ensures Valid()
    {
      var present := Has(key);
      if present {
        store := store[key := Null];
        store := store - {key};
      }
    }
  }
}
