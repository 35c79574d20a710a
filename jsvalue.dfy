/**
 * JavaScript values as the library's helpers see them, with the language's
 * own conversions: truthiness, `typeof`, `String(v)`, `Number(v)`, the
 * relational `<`, property reads and own enumerable entries.
 *
 * Numbers are integers; objects are ordered property lists in insertion
 * order; a Date carries its time value and its `toString` text; a regular
 * expression carries its literal text, flags included, as `String(re)`
 * prints it; a function carries its source text, its own `name` and
 * `length`, and whether it owns a `prototype` (ordinary
 * `function` code, generators and classes do; arrow and async functions,
 * methods, bound functions and most built-ins do not).
 */
module JsValue {
  import opened Wrappers
  import opened Chars
  import opened Decimal
  import opened Assoc

  datatype Value =
    | Undefined
    | Null
    | Bool(b: bool)
    | Num(n: int)
    | Str(s: string)
    | Arr(items: seq<Value>)
    | Obj(props: seq<(string, Value)>)
    | DateV(time: int, text: string)
    | RegExpV(source: string)  // the whole literal, such as "/a/g"
    | Fn(source: string, name: string, arity: nat, ownsPrototype: bool)

  type Props = seq<(string, Value)>

  /** `Boolean(v)`: the falsy values are undefined, null, false, 0 and the empty string. */
  predicate Truthy(v: Value) {
    match v
    case Undefined => false
    case Null => false
    case Bool(b) => b
    case Num(n) => n != 0
    case Str(s) => s != ""
    case _ => true
  }

  /** The `typeof` operator. */
  function TypeOf(v: Value): string {
    match v
    case Undefined => "undefined"
    case Null => "object"
    case Bool(_) => "boolean"
    case Num(_) => "number"
    case Str(_) => "string"
    case Fn(_, _, _, _) => "function"
    case _ => "object"
  }

  /** The tag `Object.prototype.toString` prints inside `[object …]`. */
  function Tag(v: Value): string {
    match v
    case Undefined => "Undefined"
    case Null => "Null"
    case Bool(_) => "Boolean"
    case Num(_) => "Number"
    case Str(_) => "String"
    case Arr(_) => "Array"
    case Obj(_) => "Object"
    case DateV(_, _) => "Date"
    case RegExpV(_) => "RegExp"
    case Fn(_, _, _, _) => "Function"
  }

  /** Array.prototype.join with "," where null and undefined elements print as empty. */
  function JoinComma(parts: seq<string>): string
    decreases |parts|
  {
    if parts == [] then ""
    else if |parts| == 1 then parts[0]
    else parts[0] + "," + JoinComma(parts[1..])
  }

  /**
   * `String(v)`. A plain object reads as `Object.prototype.toString` prints
   * it; an own `toString` or `valueOf` is code and is not run here.
   */
  function JsString(v: Value): string
    decreases v
  {
    match v
    case Undefined => "undefined"
    case Null => "null"
    case Bool(b) => if b then "true" else "false"
    case Num(n) => IntToString(n)
    case Str(s) => s
    case Arr(items) =>
      JoinComma(seq(|items|, i requires 0 <= i < |items| =>
        if items[i].Undefined? || items[i].Null? then "" else JsString(items[i])))
    case Obj(_) => "[object Object]"
    case DateV(_, text) => text
    case RegExpV(source) => source
    case Fn(source, _, _, _) => source
  }

  /**
   * The white space and line terminators that `Number(s)` trims: the same
   * set as the regular-expression class `\s`, space separators included.
   */
  predicate IsJsWhite(c: char) {
    IsRegExpSpace(c) || IsLineTerminator(c)
  }

  function TrimWhite(s: string): (r: string)
    ensures |r| <= |s|
    decreases |s|
  {
    if s == [] then s
    else if IsJsWhite(s[0]) then TrimWhite(s[1..])
    else if IsJsWhite(s[|s| - 1]) then TrimWhite(s[..|s| - 1])
    else s
  }

  /**
   * `Number(s)` for a string, `None` standing for NaN and for the values the
   * integer model cannot hold. After trimming, blank text reads as 0, a
   * `0x`/`0o`/`0b` prefix introduces an unsigned hexadecimal, octal or binary
   * integer, and anything else is an optionally signed decimal literal.
   */
  function StringToNumber(s: string): Option<int> {
    var t := TrimWhite(s);
    if t == "" then Some(0) else NumericLiteral(t)
  }

  /** The trimmed, non-blank text `Number` reads. */
  function NumericLiteral(t: string): Option<int>
    requires t != []
  {
    if |t| > 2 && t[0] == '0' && RadixOf(t[1]) > 0 then RadixLiteral(t[2..], RadixOf(t[1]))
    else if t[0] == '-' then Negate(UnsignedDecimal(t[1..]))
    else if t[0] == '+' then UnsignedDecimal(t[1..])
    else UnsignedDecimal(t)
  }

  /** The digits after a `0x`, `0o` or `0b` prefix: NaN unless every one is a digit of that radix. */
  function RadixLiteral(h: string, radix: nat): (r: Option<int>)
    ensures r.Some? <==> RadixDigits(h, radix)
  {
    if RadixDigits(h, radix) then Some(ParseRadix(h, radix)) else None
  }

  function Negate(x: Option<int>): (r: Option<int>)
    ensures r.Some? <==> x.Some?
    ensures x.Some? ==> r.value == -x.value
  {
    if x.Some? then Some(-x.value) else None
  }

  /** The radix a letter after a leading `0` selects (`x`, `o`, `b` in either case), 0 for none. */
  function RadixOf(c: char): (r: nat)
    ensures r in {0, 2, 8, 16}
  {
    if c == 'x' || c == 'X' then 16
    else if c == 'o' || c == 'O' then 8
    else if c == 'b' || c == 'B' then 2
    else 0
  }

  /** The value of a digit or a hexadecimal letter in either case; 16 for any other character. */
  function RadixDigitValue(c: char): (d: nat)
    ensures d <= 16
    ensures IsDigit(c) ==> d == DigitValue(c)
  {
    if IsDigit(c) then DigitValue(c)
    else if 'a' <= c <= 'f' then c as int - 'a' as int + 10
    else if 'A' <= c <= 'F' then c as int - 'A' as int + 10
    else 16
  }

  /** A non-empty run of digits of the given radix. */
  predicate RadixDigits(s: string, radix: nat) {
    s != [] && forall i :: 0 <= i < |s| ==> RadixDigitValue(s[i]) < radix
  }

  /** The value of a run of radix digits, most significant first. */
  function ParseRadix(s: string, radix: nat): (n: nat)
    requires forall i :: 0 <= i < |s| ==> RadixDigitValue(s[i]) < radix
    decreases |s|
  {
    if s == [] then 0
    else ParseRadix(s[..|s| - 1], radix) * radix + RadixDigitValue(s[|s| - 1])
  }

  /**
   * `StrUnsignedDecimalLiteral`: digits with an optional `.` fraction and an
   * optional `e`/`E` exponent, at least one digit in the mantissa. `None` when
   * the text is not such a literal or its value is not an integer
   * (`Infinity` included).
   */
  function UnsignedDecimal(u: string): Option<int> {
    if u != [] && AllDigits(u) then Some(ParseDigits(u))
    else
      var k := IndexOfAny(u, "eE");
      DecimalParts(u[..k], if k < |u| then SignedDigits(u[k + 1..]) else Some(0))
  }

  /** The mantissa split at its `.` and scaled by the exponent read. */
  function DecimalParts(mantissa: string, exponent: Option<int>): Option<int> {
    if exponent.None? then None
    else
      var d := IndexOfAny(mantissa, ".");
      Mantissa(mantissa[..d], if d < |mantissa| then mantissa[d + 1..] else "", exponent.value)
  }

  /** Whole and fraction digits, not both empty, times 10^exponent. */
  function Mantissa(whole: string, fraction: string, exponent: int): Option<int> {
    if !AllDigits(whole) || !AllDigits(fraction) || whole + fraction == [] then None
    else
      assert AllDigits(whole + fraction) by {
        assert forall i :: 0 <= i < |whole + fraction| ==>
          (whole + fraction)[i] == (if i < |whole| then whole[i] else fraction[i - |whole|]);
      }
      Scale(ParseDigits(whole + fraction), exponent - |fraction|)
  }

  /** The exponent part's `SignedInteger`: digits with an optional sign. */
  function SignedDigits(e: string): Option<int> {
    if e != [] && AllDigits(e) then Some(ParseDigits(e))
    else if |e| > 1 && e[0] == '-' && AllDigits(e[1..]) then Some(-(ParseDigits(e[1..]) as int))
    else if |e| > 1 && e[0] == '+' && AllDigits(e[1..]) then Some(ParseDigits(e[1..]))
    else None
  }

  /** The index of the first character of `s` that is in `cs`, or `|s|` when there is none. */
  function IndexOfAny(s: string, cs: string): (k: nat)
    ensures k <= |s|
    ensures forall i :: 0 <= i < k ==> s[i] !in cs
    ensures k < |s| ==> s[k] in cs
    decreases |s|
  {
    if s == [] then 0
    else if s[0] in cs then 0
    else 1 + IndexOfAny(s[1..], cs)
  }

  function Pow10(e: nat): (p: nat)
    ensures p >= 1
  {
    if e == 0 then 1 else 10 * Pow10(e - 1)
  }

  /** m × 10^shift when that is an integer. */
  function Scale(m: nat, shift: int): (r: Option<int>)
    ensures shift >= 0 ==> r == Some(m * Pow10(shift))
    ensures shift < 0 ==> (r.Some? <==> m % Pow10(-shift) == 0)
    ensures r.Some? && shift < 0 ==> r.value * Pow10(-shift) == m
  {
    if shift >= 0 then Some(m * Pow10(shift))
    else if m % Pow10(-shift) == 0 then Some(m / Pow10(-shift))
    else None
  }

  /** Text with no white space at either end is read without trimming. */
  lemma ReadsAsLiteral(t: string)
    requires t != [] && !IsJsWhite(t[0]) && !IsJsWhite(t[|t| - 1])
    ensures StringToNumber(t) == NumericLiteral(t)
  {
    TrimTight(t);
  }

  /** Hexadecimal and binary text reads in its radix, in either letter case. */
  lemma RadixLiterals()
    ensures StringToNumber("0x10") == Some(16)
    ensures StringToNumber("0B101") == Some(5)
  {
    ReadsAsLiteral("0x10");
    assert "0x10"[2..] == "10";
    HexTen();
    ReadsAsLiteral("0B101");
    assert "0B101"[2..] == "101";
    BinaryFive();
  }

  lemma HexTen()
    ensures RadixLiteral("10", 16) == Some(16)
  {
    var h := "10";
    assert RadixDigitValue(h[0]) == 1 && RadixDigitValue(h[1]) == 0;
    assert RadixDigits(h, 16);
    assert h[..1] == ['1'] && ['1'][..0] == [];
    assert ParseRadix(['1'], 16) == 1;
    assert ParseRadix(h, 16) == ParseRadix(['1'], 16) * 16 + 0;
  }

  lemma BinaryFive()
    ensures RadixLiteral("101", 2) == Some(5)
  {
    var h := "101";
    assert RadixDigitValue(h[0]) == 1 && RadixDigitValue(h[1]) == 0 && RadixDigitValue(h[2]) == 1;
    assert RadixDigits(h, 2);
    assert h[..2] == ['1', '0'] && ['1', '0'][..1] == ['1'] && ['1'][..0] == [];
    assert ParseRadix(['1'], 2) == 1;
    assert ParseRadix(['1', '0'], 2) == 2;
    assert ParseRadix(h, 2) == ParseRadix(['1', '0'], 2) * 2 + 1;
  }

  /** A sign before a radix prefix makes the text NaN. */
  lemma SignedRadixIsNaN()
    ensures StringToNumber("-0x10").None?
  {
    ReadsAsLiteral("-0x10");
    var u := "0x10";
    assert "-0x10"[1..] == u;
    HexIsNotDecimal(u);
  }

  /** `0x10` has no exponent, so its mantissa is all of it, which is not digits. */
  lemma HexIsNotDecimal(u: string)
    requires u == "0x10"
    ensures UnsignedDecimal(u).None?
  {
    assert !AllDigits(u) by { assert !IsDigit(u[1]); }
    ScanFour(u, "eE");
    assert u[..4] == u;
    ScanFour(u, ".");
    assert !AllDigits(u[..4]);
  }

  /** A four-character string none of whose characters is in `cs`. */
  lemma ScanFour(u: string, cs: string)
    requires |u| == 4 && u[0] !in cs && u[1] !in cs && u[2] !in cs && u[3] !in cs
    ensures IndexOfAny(u, cs) == 4
  {
    assert u[1..][1..][1..][1..] == [];
  }

  /** The first character in `cs` is at `k`. */
  lemma {:induction false} IndexOfAnyAt(s: string, cs: string, k: nat)
    requires k <= |s| && (k < |s| ==> s[k] in cs)
    requires forall i :: 0 <= i < k ==> s[i] !in cs
    ensures IndexOfAny(s, cs) == k
    decreases k
  {
    if k > 0 {
      IndexOfAnyAt(s[1..], cs, k - 1);
    }
  }

  /** `WeN`: the digits W times ten to the power N. */
  lemma ExponentForm(w: string, n: string)
    requires w != [] && AllDigits(w) && n != [] && AllDigits(n)
    ensures UnsignedDecimal(w + "e" + n) == Some(ParseDigits(w) * Pow10(ParseDigits(n)))
  {
    var u := w + "e" + n;
    assert u[|w|] == 'e' && !IsDigit(u[|w|]);
    IndexOfAnyAt(u, "eE", |w|);
    assert u[..|w|] == w && u[|w| + 1..] == n;
    IndexOfAnyAt(w, ".", |w|);
    assert w[..|w|] == w;
    assert DecimalParts(w, Some(ParseDigits(n))) == Mantissa(w, "", ParseDigits(n));
    WholeMantissa(w, ParseDigits(n));
  }

  /** Digits with no fraction, times a non-negative power of ten. */
  lemma WholeMantissa(w: string, e: nat)
    requires w != [] && AllDigits(w)
    ensures Mantissa(w, "", e) == Some(ParseDigits(w) * Pow10(e))
  {
    assert w + "" == w;
  }

  /** `W.FeN`: the digits WF times ten to the power N less the fraction's length. */
  lemma FractionExponentForm(w: string, f: string, n: string)
    requires AllDigits(w) && AllDigits(f) && w + f != [] && n != [] && AllDigits(n)
    ensures UnsignedDecimal(w + "." + f + "e" + n) == Mantissa(w, f, ParseDigits(n))
  {
    var m := w + "." + f;
    var u := m + "e" + n;
    assert u[|m|] == 'e' && !IsDigit(u[|m|]);
    MantissaHasNoExponent(w, f);
    assert forall i :: 0 <= i < |m| ==> u[i] == m[i];
    IndexOfAnyAt(u, "eE", |m|);
    assert u[..|m|] == m && u[|m| + 1..] == n;
    PointSplits(w, f, ParseDigits(n));
  }

  /** `W.F` with no exponent: the digits WF over ten to the fraction's length. */
  lemma FractionForm(w: string, f: string)
    requires AllDigits(w) && AllDigits(f) && w + f != []
    ensures UnsignedDecimal(w + "." + f) == Mantissa(w, f, 0)
  {
    var m := w + "." + f;
    assert m[|w|] == '.' && !IsDigit(m[|w|]);
    MantissaHasNoExponent(w, f);
    IndexOfAnyAt(m, "eE", |m|);
    assert m[..|m|] == m;
    PointSplits(w, f, 0);
  }

  lemma MantissaHasNoExponent(w: string, f: string)
    requires AllDigits(w) && AllDigits(f)
    ensures forall i :: 0 <= i < |w + "." + f| ==> (w + "." + f)[i] !in "eE"
  {
    var m := w + "." + f;
    forall i | 0 <= i < |m| ensures m[i] !in "eE" {
      if i < |w| { assert m[i] == w[i]; } else if i > |w| { assert m[i] == f[i - |w| - 1]; }
    }
  }

  /** The mantissa `W.F` splits at its point into W and F. */
  lemma PointSplits(w: string, f: string, e: int)
    requires AllDigits(w)
    ensures DecimalParts(w + "." + f, Some(e)) == Mantissa(w, f, e)
  {
    var m := w + "." + f;
    assert forall i :: 0 <= i < |w| ==> m[i] == w[i];
    IndexOfAnyAt(m, ".", |w|);
    assert m[..|w|] == w && m[|w| + 1..] == f;
  }

  /** An exponent scales the mantissa: `1e1` is 10. */
  lemma ExponentLiteral()
    ensures StringToNumber("1e1") == Some(10)
  {
    ReadsAsLiteral("1e1");
    assert "1e1" == "1" + "e" + "1";
    ExponentForm("1", "1");
  }

  /** A fraction counts against the exponent: `1.5e1` is 15. */
  lemma FractionExponentLiteral()
    ensures StringToNumber("1.5e1") == Some(15)
  {
    ReadsAsLiteral("1.5e1");
    assert "1.5e1" == "1" + "." + "5" + "e" + "1";
    FractionExponentForm("1", "5", "1");
    OneFive();
  }

  /** A value that is not an integer falls outside the model: `1.5` is `None`. */
  lemma FractionLiteral()
    ensures StringToNumber("1.5").None?
  {
    ReadsAsLiteral("1.5");
    assert "1.5" == "1" + "." + "5";
    FractionForm("1", "5");
    OneFive();
  }

  lemma OneFive()
    ensures ParseDigits("1" + "5") == 15 && |"5"| == 1
  {
    assert "1" + "5" == "15" && "15"[..1] == "1";
  }

  /** Converting a number to text and back gives the number. */
  lemma StringToNumberOfInt(n: int)
    ensures StringToNumber(IntToString(n)) == Some(n)
  {
    var t := IntToString(n);
    if n >= 0 {
      assert t == NatToString(n);
      StringToNumberOfNat(n);
    } else {
      var m: nat := -n;
      assert t == "-" + NatToString(m);
      StringToNumberOfNegative(m);
      assert -(m as int) == n;
    }
  }

  lemma StringToNumberOfNat(m: nat)
    ensures StringToNumber(NatToString(m)) == Some(m)
  {
    ParseShow(m);
    NumberOfCanonical(NatToString(m));
  }

  lemma StringToNumberOfNegative(m: nat)
    requires m > 0
    ensures StringToNumber("-" + NatToString(m)) == Some(-(m as int))
  {
    ParseShow(m);
    NumberOfMinusCanonical(NatToString(m), m);
  }

  /** Canonical decimal text reads as the number it spells. */
  lemma NumberOfCanonical(d: string)
    requires Canonical(d)
    ensures StringToNumber(d) == Some(ParseDigits(d))
  {
    ReadsAsLiteral(d);
    NumberOfDigits(d);
  }

  lemma NumberOfMinusCanonical(d: string, m: nat)
    requires Canonical(d) && ParseDigits(d) == m
    ensures StringToNumber("-" + d) == Some(-(m as int))
  {
    var t := "-" + d;
    assert t[1..] == d && t[0] == '-' && t[|t| - 1] == d[|d| - 1];
    ReadsAsLiteral(t);
    NumberOfSignedDigits(t);
  }

  lemma NumberOfDigits(t: string)
    requires t != [] && AllDigits(t)
    ensures NumericLiteral(t) == Some(ParseDigits(t))
  {
    assert IsDigit(t[0]);
    assert |t| > 2 ==> IsDigit(t[1]);
    DigitsAreDecimal(t);
  }

  lemma NumberOfSignedDigits(t: string)
    requires |t| > 1 && t[0] == '-' && AllDigits(t[1..])
    ensures NumericLiteral(t) == Some(-(ParseDigits(t[1..]) as int))
  {
    DigitsAreDecimal(t[1..]);
  }

  /** A plain run of digits is a decimal literal with value `ParseDigits`. */
  lemma DigitsAreDecimal(u: string)
    requires u != [] && AllDigits(u)
    ensures UnsignedDecimal(u) == Some(ParseDigits(u))
  {
  }

  /** Text that neither starts nor ends with white space is not trimmed. */
  lemma TrimTight(t: string)
    requires t != [] && !IsJsWhite(t[0]) && !IsJsWhite(t[|t| - 1])
    ensures TrimWhite(t) == t
  {
  }

  /**
   * ToPrimitive with hint "number", what `<` and `Number(v)` apply to
   * objects: the inherited `valueOf` gives the object back, so its string
   * form is used; a Date gives its time value. Own `valueOf`, `toString` and
   * `Symbol.toPrimitive` members are code and are not run here.
   */
  function ToPrimitive(v: Value): (p: Value)
    ensures !p.Arr? && !p.Obj? && !p.DateV? && !p.RegExpV? && !p.Fn?
  {
    match v
    case DateV(time, _) => Num(time)
    case Arr(_) => Str(JsString(v))
    case Obj(_) => Str(JsString(v))
    case RegExpV(_) => Str(JsString(v))
    case Fn(_, _, _, _) => Str(JsString(v))
    case _ => v
  }

  /** `Number(v)`, `None` standing for NaN. */
  function ToNumber(v: Value): Option<int> {
    match ToPrimitive(v)
    case Undefined => None
    case Null => Some(0)
    case Bool(b) => Some(if b then 1 else 0)
    case Num(n) => Some(n)
    case Str(s) => StringToNumber(s)
    case _ => None
  }

  /**
   * String comparison by character codes: a proper prefix is smaller,
   * otherwise the first difference decides. Characters are compared as code
   * points, while JavaScript compares UTF-16 code units.
   */
  predicate StrLess(a: string, b: string) {
    if b == [] then false
    else if a == [] then true
    else if a[0] != b[0] then a[0] < b[0]
    else StrLess(a[1..], b[1..])
  }

  lemma {:induction false} StrLessIrreflexive(a: string)
    ensures !StrLess(a, a)
  {
    if a != [] {
      StrLessIrreflexive(a[1..]);
    }
  }

  lemma {:induction false} StrLessTransitive(a: string, b: string, c: string)
    requires StrLess(a, b) && StrLess(b, c)
    ensures StrLess(a, c)
  {
    if a != [] && a[0] == b[0] && b[0] == c[0] {
      StrLessTransitive(a[1..], b[1..], c[1..]);
    }
  }

  lemma {:induction false} StrLessTotal(a: string, b: string)
    ensures a == b || StrLess(a, b) || StrLess(b, a)
  {
    if a != [] && b != [] && a[0] == b[0] {
      StrLessTotal(a[1..], b[1..]);
      if a[1..] == b[1..] {
        assert a == [a[0]] + a[1..] && b == [b[0]] + b[1..];
      }
    }
  }

  /** The relational comparison `a < b`: two strings compare as text, anything else as numbers, and NaN makes it false. */
  predicate JsLess(a: Value, b: Value) {
    var pa := ToPrimitive(a);
    var pb := ToPrimitive(b);
    if pa.Str? && pb.Str? then StrLess(pa.s, pb.s)
    else
      var x := ToNumber(pa);
      var y := ToNumber(pb);
      x.Some? && y.Some? && x.value < y.value
  }

  /** Keys that name an array or string index. */
  predicate IsIndexLike(k: string) {
    Canonical(k) && ParseDigits(k) < 0xFFFF_FFFF
  }

  /** The properties every plain object inherits from Object.prototype. */
  const InheritedNames: set<string> := {
    "constructor", "hasOwnProperty", "isPrototypeOf", "propertyIsEnumerable",
    "toLocaleString", "toString", "valueOf", "__proto__",
    "__defineGetter__", "__defineSetter__", "__lookupGetter__", "__lookupSetter__"
  }

  /**
   * What a plain object reads under an inherited name it has no own
   * property for: Object.prototype itself for `__proto__`, and otherwise the
   * built-in method, whose text is the engine's native-function source.
   */
  function InheritedMember(name: string): (v: Value)
    requires name in InheritedNames
    ensures Truthy(v)
    ensures name == "__proto__" <==> v.Obj?
    ensures name != "__proto__" ==> v.Fn? && JsString(v) == NativeSource(name)
  {
    if name == "__proto__" then Obj([])
    else Fn(NativeSource(name), if name == "constructor" then "Object" else name, NativeArity(name), name == "constructor")
  }

  /** The `length` of each built-in method of Object.prototype, and 1 for `Object` itself. */
  function NativeArity(name: string): nat {
    if name in {"toString", "toLocaleString", "valueOf"} then 0
    else if name in {"__defineGetter__", "__defineSetter__"} then 2
    else 1
  }

  /** `String(f)` of the built-in method reached through `name`; `constructor` is `Object`. */
  function NativeSource(name: string): string {
    "function " + (if name == "constructor" then "Object" else name) + "() { [native code] }"
  }

  /** One-character strings of `s`, keyed by index. */
  function IndexEntries<T>(s: seq<T>): (r: seq<(string, T)>)
    ensures |r| == |s| && forall i :: 0 <= i < |s| ==> r[i] == (NatToString(i), s[i])
  {
    seq(|s|, i requires 0 <= i < |s| => (NatToString(i), s[i]))
  }

  /** `Object.entries(v)`: own enumerable string-keyed properties in order. */
  function OwnEntries(v: Value): (r: Props)
    ensures v.Obj? ==> r == v.props
  {
    match v
    case Obj(ps) => ps
    case Arr(items) => IndexEntries(items)
    case Str(s) => IndexEntries(seq(|s|, i requires 0 <= i < |s| => Str([s[i]])))
    case _ => []
  }

  /** All own property names, enumerable or not, as `hasOwnProperty` sees them. */
  predicate HasOwn(v: Value, key: string) {
    match v
    case Obj(ps) => key in Keys(ps)
    case Arr(items) => key == "length" || (IsIndexLike(key) && ParseDigits(key) < |items|)
    case Str(s) => key == "length" || (IsIndexLike(key) && ParseDigits(key) < |s|)
    case RegExpV(_) => key == "lastIndex"
    case Fn(_, _, _, ownsPrototype) => key == "length" || key == "name" || (ownsPrototype && key == "prototype")
    case _ => false
  }

  /**
   * The property read `v[key]` on a value that is not null or undefined. A
   * plain object falls back to what it inherits from Object.prototype; a
   * function reads its own `name`, `length` and `prototype`; other inherited
   * members read as undefined.
   */
  function Member(v: Value, key: string): (r: Value)
    requires !v.Undefined? && !v.Null?
    ensures v.Obj? && key in Keys(v.props) ==> r == Lookup(v.props, key).value
    ensures v.Obj? && key !in Keys(v.props) && key in InheritedNames ==> r == InheritedMember(key)
    ensures v.Obj? && key !in Keys(v.props) && key !in InheritedNames ==> r == Undefined
  {
    match v
    case Obj(ps) =>
      (match Lookup(ps, key)
       case Some(x) => x
       case None => if key in InheritedNames then InheritedMember(key) else Undefined)
    case Fn(_, name, arity, ownsPrototype) =>
      if key == "name" then Str(name)
      else if key == "length" then Num(arity)
      else if key == "prototype" && ownsPrototype then Obj([])
      else Undefined
    case Arr(items) =>
      if key == "length" then Num(|items|)
      else if IsIndexLike(key) && ParseDigits(key) < |items| then items[ParseDigits(key)]
      else Undefined
    case Str(s) =>
      if key == "length" then Num(|s|)
      else if IsIndexLike(key) && ParseDigits(key) < |s| then Str([s[ParseDigits(key)]])
      else Undefined
    case _ => Undefined
  }

  /** The property read `obj[key]` on a plain object under construction. */
  function Get(ps: Props, key: string): Value {
    Lookup(ps, key).GetOr(Undefined)
  }

  function MaxOf(xs: seq<nat>): (m: nat)
    ensures forall i :: 0 <= i < |xs| ==> xs[i] <= m
    ensures xs == [] ==> m == 0
    ensures xs != [] ==> exists i :: 0 <= i < |xs| && xs[i] == m
  {
    if xs == [] then 0
    else
      var m := MaxOf(xs[1..]);
      assert forall i :: 1 <= i < |xs| ==> xs[i] == xs[1..][i - 1];
      if xs[0] >= m then xs[0] else m
  }

  /** Nesting depth: containers and the key-less Date and RegExp objects count one level. */
  function Height(v: Value): nat
    decreases v
  {
    match v
    case Arr(items) => 1 + MaxOf(seq(|items|, i requires 0 <= i < |items| => Height(items[i])))
    case Obj(ps) => 1 + MaxOf(seq(|ps|, i requires 0 <= i < |ps| => Height(ps[i].1)))
    case DateV(_, _) => 1
    case RegExpV(_) => 1
    case _ => 0
  }

  /** Every value held by an object, or by an array of `OwnEntries`, is strictly lower than the container. */
  lemma HeightOfEntries(v: Value)
    ensures forall i :: 0 <= i < |OwnEntries(v)| ==> Height(OwnEntries(v)[i].1) < Height(v) || Height(OwnEntries(v)[i].1) == 0
  {
    match v
    case Obj(ps) =>
      var hs := seq(|ps|, i requires 0 <= i < |ps| => Height(ps[i].1));
      assert forall i :: 0 <= i < |ps| ==> hs[i] == Height(ps[i].1);
    case Arr(items) =>
      var hs := seq(|items|, i requires 0 <= i < |items| => Height(items[i]));
      assert forall i :: 0 <= i < |items| ==> hs[i] == Height(items[i]);
    case _ =>
  }

  /** An object all of whose values are at most `h` high is at most `h + 1` high. */
  lemma HeightOfObj(ps: Props, h: nat)
    requires forall i :: 0 <= i < |ps| ==> Height(ps[i].1) <= h
    ensures Height(Obj(ps)) <= h + 1
  {
    var hs := seq(|ps|, i requires 0 <= i < |ps| => Height(ps[i].1));
    if hs != [] {
      var i :| 0 <= i < |hs| && hs[i] == MaxOf(hs);
    }
  }

  /** On numbers `<` is the integer order; on strings it is the character-code order. */
  lemma JsLessPrimitives(x: Value, y: Value)
    ensures x.Num? && y.Num? ==> (JsLess(x, y) <==> x.n < y.n)
    ensures x.Str? && y.Str? ==> (JsLess(x, y) <==> StrLess(x.s, y.s))
  {
  }

  /** Text that is not a number makes every comparison with a number false. */
  lemma JsLessNaN(n: int)
    ensures !JsLess(Num(n), Str("abc")) && !JsLess(Str("abc"), Num(n))
  {
    AbcIsNaN();
  }

  lemma AbcIsNaN()
    ensures StringToNumber("abc").None?
  {
    var t := "abc";
    ReadsAsLiteral(t);
    assert !IsDigit(t[0]);
    IndexOfAnyAt(t, "eE", 3);
    assert t[..3] == t;
    IndexOfAnyAt(t, ".", 3);
  }
}
