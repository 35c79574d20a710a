/**
 * `tryCatch`: the decision that turns the settled outcome of a callable
 * into a `{ data, error }` record. The callable is invoked once; the model
 * takes what that one invocation did (returned a value or threw one) as
 * its input. Error classes are named; an error instance records the names
 * on its prototype chain, and `new ErrorClass(message, status, cause)` is
 * recorded as the construction together with the arguments passed to it.
 */
module TryCatch {
  import opened Wrappers
  import opened JsValue
  import opened Chars
  import opened Decimal
  import opened Assoc

  /** An instance of the built-in `Error` or of one of its subclasses (every such instance is an `Error`). */
  datatype ErrorInstance = ErrorInstance(
    id: nat,                 // object identity
    chain: seq<string>,      // constructor names on the prototype chain below `Error`
    message: string,
    cause: Value,            // `undefined` when the error has no cause
    status: Value            // `undefined` when the error has no status property
  )

  /** What the callable threw: an error instance or any other value. */
  datatype Thrown = ThrownError(e: ErrorInstance) | ThrownValue(v: Value)

  /** The settled outcome of the single invocation of the callable. */
  datatype Outcome = Returned(v: Value) | Threw(x: Thrown)

  /** The options object; an absent member is `None`/`undefined`. */
  datatype Options = Options(errorClass: Option<string>, defaultStatus: Value)

  const NoOptions := Options(None, Undefined)

  /** The error a failure carries: a caught error kept by identity, or a freshly constructed one. */
  datatype ErrorRef =
    | Existing(e: ErrorInstance)
    | Created(cls: string, message: string, status: Value, cause: Value)

  /** The discriminated union `Success<T> | Failure<E>`. */
  datatype Result = Success(data: Value) | Failure(error: ErrorRef) {
    /** The `data` field: `null` on failure. */
    function Data(): Value {
      if Success? then data else Null
    }
    /** The `error` field: `null` (None) on success. */
    function Error(): Option<ErrorRef> {
      if Success? then None else Some(error)
    }
  }

  /** The destructuring defaults: `ErrorClass = Error`. */
  function ClassOf(opts: Options): string {
    opts.errorClass.GetOr("Error")
  }

  /** The destructuring defaults: `defaultStatus = 500`, applied only when the member is undefined. */
  function DefaultStatusOf(opts: Options): (s: Value)
    ensures opts.defaultStatus.Undefined? ==> s == Num(500)
    ensures !opts.defaultStatus.Undefined? ==> s == opts.defaultStatus
  {
    if opts.defaultStatus.Undefined? then Num(500) else opts.defaultStatus
  }

  /** `x instanceof cls`: only error instances have a class chain, and all of them are Errors. */
  predicate InstanceOf(x: Thrown, cls: string) {
    x.ThrownError? && (cls == "Error" || cls in x.e.chain)
  }

  /** The message: the Error's own message, otherwise `String(x)`. */
  function MessageOf(x: Thrown): string {
    match x
    case ThrownError(e) => e.message
    case ThrownValue(v) => JsString(v)
  }

  /** The cause: the Error's `cause`, otherwise undefined. */
  function CauseOf(x: Thrown): Value {
    match x
    case ThrownError(e) => e.cause
    case ThrownValue(_) => Undefined
  }

  /** `x?.status`: undefined for null and undefined, otherwise the property read. */
  function StatusPropertyOf(x: Thrown): Value {
    match x
    case ThrownError(e) => e.status
    case ThrownValue(v) => if v.Undefined? || v.Null? then Undefined else Member(v, "status")
  }

  /** `x?.status || defaultStatus`. */
  function StatusOf(x: Thrown, opts: Options): (s: Value)
    ensures Truthy(StatusPropertyOf(x)) ==> s == StatusPropertyOf(x)
    ensures !Truthy(StatusPropertyOf(x)) ==> s == DefaultStatusOf(opts)
  {
    var p := StatusPropertyOf(x);
    if Truthy(p) then p else DefaultStatusOf(opts)
  }

  /** The normalisation performed by `tryCatch`. */
  function Normalise(outcome: Outcome, opts: Options): (r: Result)
    ensures r.Success? <==> outcome.Returned?
    ensures r.Success? ==> r.Data() == outcome.v && r.Error() == None
    ensures r.Failure? ==> r.Data() == Null && r.Error().Some?
    ensures outcome.Threw? && InstanceOf(outcome.x, ClassOf(opts)) ==>
              r == Failure(Existing(outcome.x.e))
    ensures outcome.Threw? && !InstanceOf(outcome.x, ClassOf(opts)) ==>
              r.error.Created? && r.error.cls == ClassOf(opts)
  {
    match outcome
    case Returned(v) => Success(v)
    case Threw(x) =>
      if InstanceOf(x, ClassOf(opts)) then Failure(Existing(x.e))
      else Failure(Created(ClassOf(opts), MessageOf(x), StatusOf(x, opts), CauseOf(x)))
  }

  /** A callable that returns, even `null` or `undefined`, is a success carrying that value and a null error. */
  lemma ReturnedIsSuccess(v: Value, opts: Options)
    ensures Normalise(Returned(v), opts).Data() == v
    ensures Normalise(Returned(v), opts).Error() == None
    ensures Normalise(Returned(Undefined), opts) == Success(Undefined)
    ensures Normalise(Returned(Null), opts) == Success(Null)
  {
  }

  /** A throw is never rethrown: it always becomes a failure with null data and a non-null error. */
  lemma ThrowIsFailure(x: Thrown, opts: Options)
    ensures Normalise(Threw(x), opts).Failure?
    ensures Normalise(Threw(x), opts).Data() == Null
    ensures Normalise(Threw(x), opts).Error().Some?
  {
  }

  /** An error that already is an instance of the requested class is returned by identity. */
  lemma KeepsInstanceByIdentity(e: ErrorInstance, cls: string, st: Value)
    requires cls in e.chain
    ensures Normalise(Threw(ThrownError(e)), Options(Some(cls), st)).Error() == Some(Existing(e))
  {
  }

  /**
   * With the default `ErrorClass = Error`, every thrown Error passes
   * through unchanged, its own status and message included: no default
   * status is applied to it.
   */
  lemma DefaultClassPassesErrors(e: ErrorInstance)
    ensures Normalise(Threw(ThrownError(e)), NoOptions) == Failure(Existing(e))
    ensures e.status == Undefined ==> Normalise(Threw(ThrownError(e)), NoOptions).error.e.status != Num(500)
  {
  }

  /** Every constructed error gets the arguments `(message, status, cause)` derived from the thrown value. */
  lemma ConstructedArguments(x: Thrown, opts: Options)
    requires !InstanceOf(x, ClassOf(opts))
    ensures var r := Normalise(Threw(x), opts);
      r.error == Created(ClassOf(opts), MessageOf(x), StatusOf(x, opts), CauseOf(x))
  {
  }

  /**
   * A thrown non-Error value is converted with `String(v)`: a plain object
   * without an own `toString` yields "[object Object]", and there is no cause.
   */
  lemma NonErrorMessage(ps: Props, s: string, n: int, opts: Options)
    ensures "toString" !in Keys(ps) ==> Normalise(Threw(ThrownValue(Obj(ps))), opts).error.message == "[object Object]"
    ensures Normalise(Threw(ThrownValue(Str(s))), opts).error.message == s
    ensures Normalise(Threw(ThrownValue(Num(n))), opts).error.message == IntToString(n)
    ensures Normalise(Threw(ThrownValue(Null)), opts).error.message == "null"
    ensures Normalise(Threw(ThrownValue(Obj(ps))), opts).error.cause == Undefined
  {
  }

  /** An Error of another class, converted to the requested class, keeps its message and cause. */
  lemma ConvertedErrorKeepsMessage(e: ErrorInstance, cls: string, st: Value)
    requires cls != "Error" && cls !in e.chain
    ensures var r := Normalise(Threw(ThrownError(e)), Options(Some(cls), st));
      r.error.Created? && r.error.message == e.message && r.error.cause == e.cause
  {
  }

  /** The status is the thrown value's own status when truthy; 0, absent or undefined falls back to the default, 500 unless given. */
  lemma StatusFallback(ps: Props, code: int, opts: Options)
    requires opts.errorClass.Some?
    requires Lookup(ps, "status") == Some(Num(code))
    ensures var r := Normalise(Threw(ThrownValue(Obj(ps))), opts);
      r.error.status == if code != 0 then Num(code) else DefaultStatusOf(opts)
    ensures Normalise(Threw(ThrownValue(Str("boom"))), opts).error.status == DefaultStatusOf(opts)
    ensures opts.defaultStatus.Undefined? ==>
      Normalise(Threw(ThrownValue(Undefined)), opts).error.status == Num(500)
  {
    StatusOfObject(ps, code, opts);
    StatusOfString(opts);
  }

  lemma StatusOfObject(ps: Props, code: int, opts: Options)
    requires Lookup(ps, "status") == Some(Num(code))
    ensures StatusOf(ThrownValue(Obj(ps)), opts) == if code != 0 then Num(code) else DefaultStatusOf(opts)
  {
    assert !IsIndexLike("status") by { assert !IsDigit("status"[0]); }
    assert StatusPropertyOf(ThrownValue(Obj(ps))) == Num(code);
  }

  lemma StatusOfString(opts: Options)
    ensures StatusOf(ThrownValue(Str("boom")), opts) == DefaultStatusOf(opts)
  {
    assert !IsIndexLike("status") by { assert !IsDigit("status"[0]); }
    assert "status" != "length" by { assert "status"[0] != "length"[0]; }
  }

  /** An explicitly given default is used as given, even when it is itself falsy. */
  lemma ExplicitDefaultStatus(x: Thrown, cls: string, st: Value)
    requires !st.Undefined? && !InstanceOf(x, cls) && !Truthy(StatusPropertyOf(x))
    ensures Normalise(Threw(x), Options(Some(cls), st)).error.status == st
  {
  }
}
