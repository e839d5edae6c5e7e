/** The JSON values a request body field can hold, and the JavaScript operations the
    controllers apply to them: truthiness (`!x`), `typeof x === 'string'`, `x.trim()`,
    `x?.trim() || null` and `String(x)`. */
module JsValues {
  import opened Wrappers
  import opened JsText
  import opened JsNumbers

  /** A body field: absent (`undefined`), `null`, a boolean, an integral number, a string,
      or an object/array. */
  datatype Json = Undefined | Null | Bool(b: bool) | Num(n: int) | Str(s: string) | Compound

  /** The result of an expression that may throw a TypeError (calling `.trim()` on a
      value that is not a string); the handlers turn it into a 500 reply. */
  datatype Eval<+T> = Value(value: T) | TypeError

  /** JavaScript truthiness: `undefined`, `null`, `false`, `0` and `""` are falsy. */
  predicate Truthy(v: Json): (r: bool)
    ensures !r <==> v in {Undefined, Null, Bool(false), Num(0), Str("")}
  {
    match v
    case Undefined => false
    case Null => false
    case Bool(b) => b
    case Num(n) => n != 0
    case Str(s) => s != ""
    case Compound => true
  }

  /** `v.trim()`: defined on strings only. */
  function TrimField(v: Json): (r: Eval<string>)
    ensures r.Value? <==> v.Str?
    ensures r.Value? ==> r.value == Trim(v.s)
  {
    if v.Str? then Value(Trim(v.s)) else TypeError
  }

  /** `v?.trim() || null`: nothing for `undefined`/`null` and for a string that is blank
      once trimmed; the trimmed string otherwise; a TypeError for other values. */
  function OptionalTrim(v: Json): (r: Eval<Option<string>>)
    ensures v.Undefined? || v.Null? ==> r == Value(None)
    ensures v.Str? ==> r == Value(if Trim(v.s) == "" then None else Some(Trim(v.s)))
    ensures r.Value? && r.value.Some? ==> r.value.value != "" && IsTrimmed(r.value.value)
    ensures r.TypeError? <==> !(v.Undefined? || v.Null? || v.Str?)
  {
    match v
    case Undefined => Value(None)
    case Null => Value(None)
    case Str(s) => var t := Trim(s); if t == "" then Value(None) else Value(Some(t))
    case _ => TypeError
  }

  /** `String(v)`, the conversion `parseInt` applies to its argument. Arrays are read as
      plain objects. */
  function ToJsString(v: Json): (r: string)
    ensures v.Str? ==> r == v.s
    ensures v.Num? ==> ParseInt(r) == Some(v.n)
    ensures !v.Str? && !v.Num? ==>
      r != [] && !IsJsSpace(r[0]) && !IsDecimalDigit(r[0]) && r[0] != '+' && r[0] != '-'
  {
    match v
    case Undefined => "undefined"
    case Null => "null"
    case Bool(b) => if b then "true" else "false"
    case Num(n) => IntStringRoundTrip(n); IntString(n)
    case Str(s) => s
    case Compound => "[object Object]"
  }

  /** `parseInt(v)`. */
  function ParseIntField(v: Json): Option<int> {
    ParseInt(ToJsString(v))
  }

  /** `parseInt` gives back a number it is handed, and NaN for the values that are
      neither numbers nor strings. */
  lemma ParseIntFieldOfNonStrings(v: Json)
    requires !v.Str?
    ensures v.Num? ==> ParseIntField(v) == Some(v.n)
    ensures !v.Num? ==> ParseIntField(v).None?
  {
    if !v.Num? {
      TrimStartOfTrimmed(ToJsString(v));
    }
  }
}
