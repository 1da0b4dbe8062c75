/** The slice of JavaScript value semantics the validator relies on: what a
    field of a submitted form body can hold, when such a value is falsy, and what
    calling `.trim()` on it does. */
module JsValues {
  import opened Whitespace

  /** A property of the object handed to the validator. The caller is not part
      of this model, so every kind of value is allowed: strings, arrays and
      nested objects (what a URL-encoded body parsed in extended mode would
      give), `undefined` for a property that is not there, and numbers,
      booleans and `null` for objects built in code. */
  datatype JsValue =
    | Undefined
    | Null
    | Bool(b: bool)
    | Num(n: real)
    | NaN
    | Str(s: string)
    | Object   // arrays and plain objects: always truthy, no `trim` method

  /** The error a property access or call raises at run time. */
  datatype TypeError =
    | CannotReadProperty   // `v.trim` on `undefined` or `null`
    | NotAFunction         // `v.trim()` where `v.trim` is `undefined`

  /** How evaluating an expression completes: with a value or by throwing. */
  datatype Completion<T> = Normal(value: T) | Throw(error: TypeError) {
    /** A thrown error propagates through `:-`, as an uncaught exception does. */
    predicate IsFailure() {
      Throw?
    }

    function PropagateFailure<U>(): Completion<U>
      requires Throw?
    {
      Throw(error)
    }

    function Extract(): T
      requires Normal?
    {
      value
    }
  }

  /** JavaScript truthiness: `!v` is `!Truthy(v)`. The falsy values are
      exactly `undefined`, `null`, `false`, `0` (and `-0`, the same real),
      `NaN` and the empty string. */
  predicate Truthy(v: JsValue)
    ensures !Truthy(v) <==> v in {Undefined, Null, Bool(false), Num(0.0), NaN, Str([])}
  {
    match v
    case Undefined => false
    case Null => false
    case Bool(b) => b
    case Num(n) => n != 0.0
    case NaN => false
    case Str(s) => s != []
    case Object => true
  }

  /** The expression `v.trim()`: strings are trimmed; reading `trim` off
      `undefined` or `null` throws, and on any other non-string it is not a
      function. */
  function CallTrim(v: JsValue): (r: Completion<string>)
    ensures r.Normal? <==> v.Str?
    ensures r.Throw? ==> (r.error == CannotReadProperty <==> v == Undefined || v == Null)
    ensures r.Normal? ==> (r.value == [] <==> AllWhitespace(v.s))
  {
    match v
    case Str(s) =>
      TrimEmptyIff(s);
      Normal(Trim(s))
    case Undefined => Throw(CannotReadProperty)
    case Null => Throw(CannotReadProperty)
    case _ => Throw(NotAFunction)
  }
}
