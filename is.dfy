/** Type guards and property tests over JS values. */
module Is {
  import opened JsValue
  import opened Assoc

  /** `Object.prototype.toString.call(v)`. */
  function ToStringTag(v: Value): (r: string)
    ensures |r| == |Tag(v)| + 9 && r[..8] == "[object " && r[8..|r| - 1] == Tag(v) && r[|r| - 1] == ']'
  {
    "[object " + Tag(v) + "]"
  }

  /** `toRawType`: the tag string with its 8-character prefix and closing bracket sliced off. */
  function ToRawType(v: Value): (r: string)
    ensures r == Tag(v)
  {
    var s := ToStringTag(v);
    s[8..|s| - 1]
  }

  lemma ToRawTypeExamples()
    ensures ToRawType(Null) == "Null" && ToRawType(Arr([])) == "Array"
    ensures ToRawType(Obj([])) == "Object" && ToRawType(DateV(0, "")) == "Date"
  {
  }

  /** Tags decide the kind of value. */
  lemma {:induction false} TagIs(v: Value, t: string)
    requires ToStringTag(v) == "[object " + t + "]"
    ensures Tag(v) == t
  {
    var s := ToStringTag(v);
    assert s[8..|s| - 1] == t;
  }

  predicate IsDef(v: Value)
    ensures IsDef(v) <==> !v.Undefined?
  {
    TypeOf(v) != "undefined"
  }

  predicate IsBoolean(v: Value)
    ensures IsBoolean(v) <==> v.Bool?
  {
    TypeOf(v) == "boolean"
  }

  predicate IsFunction(v: Value)
    ensures IsFunction(v) <==> v.Fn?
  {
    TypeOf(v) == "function"
  }

  predicate IsNumber(v: Value)
    ensures IsNumber(v) <==> v.Num?
  {
    TypeOf(v) == "number"
  }

  predicate IsString(v: Value)
    ensures IsString(v) <==> v.Str?
  {
    TypeOf(v) == "string"
  }

  /** Any non-null object: arrays, plain objects, dates and regular expressions. */
  predicate IsObject(v: Value)
    ensures IsObject(v) <==> v.Arr? || v.Obj? || v.DateV? || v.RegExpV?
  {
    TypeOf(v) == "object" && v != Null
  }

  predicate IsUndefined(v: Value)
    ensures IsUndefined(v) <==> v.Undefined?
  {
    if ToStringTag(v) == "[object Undefined]" then TagIs(v, "Undefined"); UndefinedTag(v); true else false
  }

  /** "Undefined" is the only tag of nine characters. */
  lemma UndefinedTag(v: Value)
    requires Tag(v) == "Undefined"
    ensures v.Undefined?
  {
    assert |Tag(v)| == 9;
  }

  predicate IsNull(v: Value)
    ensures IsNull(v) <==> v.Null?
  {
    if ToStringTag(v) == "[object Null]" then TagIs(v, "Null"); true else false
  }

  predicate IsRegExp(v: Value)
    ensures IsRegExp(v) <==> v.RegExpV?
  {
    if ToStringTag(v) == "[object RegExp]" then TagIs(v, "RegExp"); true else false
  }

  predicate IsDate(v: Value)
    ensures IsDate(v) <==> v.DateV?
  {
    if ToStringTag(v) == "[object Date]" then TagIs(v, "Date"); true else false
  }

  /** Objects and functions, null excluded. */
  predicate IsJsObject(v: Value)
    ensures IsJsObject(v) <==> IsObject(v) || v.Fn?
  {
    v != Null && (TypeOf(v) == "function" || TypeOf(v) == "object")
  }

  /** `hasProperty`: false for a falsy object or an empty key, otherwise own-property membership. */
  predicate HasProperty(obj: Value, key: string)
    ensures !Truthy(obj) || key == "" ==> !HasProperty(obj, key)
    ensures obj.Obj? && key != "" ==> (HasProperty(obj, key) <==> key in Keys(obj.props))
  {
    if !Truthy(obj) || key == "" then false
    else HasOwn(obj, key)
  }

  /** Inherited members such as `toString` do not count as properties. */
  lemma HasPropertyIgnoresPrototype(ps: Props)
    requires "toString" !in Keys(ps)
    ensures !HasProperty(Obj(ps), "toString")
    ensures !HasProperty(Arr([]), "push")
  {
  }

  /** An array or a string has its own `length`. */
  lemma HasPropertyLength(items: seq<Value>, s: string)
    ensures HasProperty(Arr(items), "length")
    ensures s != "" ==> HasProperty(Str(s), "length")
  {
  }

  /** Every function owns `length` and `name`; only some own a `prototype`. */
  lemma HasPropertyFunction(f: Value)
    requires f.Fn?
    ensures HasProperty(f, "length") && HasProperty(f, "name")
    ensures HasProperty(f, "prototype") <==> f.ownsPrototype
    ensures !HasProperty(f, "call")
  {
  }

  /** `Object.keys(v).length === 0`. */
  predicate NoOwnKeys(v: Value) { |OwnEntries(v)| == 0 }

  /** `isTruthyAndNotEmpty`, branch by branch. */
  predicate IsTruthyAndNotEmpty(v: Value) {
    if !Truthy(v) then false
    else if v.Arr? && |v.items| == 0 then false
    else if Truthy(v) && TypeOf(v) == "object" && !v.Arr? && !IsDate(v) && !IsRegExp(v) && NoOwnKeys(v) then false
    else true
  }

  /** False exactly for falsy values, empty arrays and key-less plain objects. */
  lemma IsTruthyAndNotEmptyCharacterised(v: Value)
    ensures IsTruthyAndNotEmpty(v) <==>
              Truthy(v) && v != Arr([]) && v != Obj([])
  {
  }

  /** Dates and regular expressions count as non-empty although they have no own keys. */
  lemma IsTruthyAndNotEmptyDates(t: int, text: string, src: string)
    ensures IsTruthyAndNotEmpty(DateV(t, text)) && NoOwnKeys(DateV(t, text))
    ensures IsTruthyAndNotEmpty(RegExpV(src)) && NoOwnKeys(RegExpV(src))
  {
  }
}
