/** The request-body values a handler receives after `JSON.parse`, and the
    handful of JavaScript semantics the validator relies on: truthiness,
    `typeof … === 'string'` and reading `.length` followed by a numeric comparison. */
module Json {
  import opened Results

  /** One UTF-16 code unit. A JavaScript string's `.length` counts these, not characters. */
  newtype CodeUnit = x: int | 0 <= x < 0x1_0000

  type JsString = seq<CodeUnit>

  /** A parsed JSON value. `JNum` holds the number `JSON.parse` produced; reals that
      are not doubles are inputs the program never sees, and an out-of-range literal
      that parses to Infinity is not represented. */
  datatype JValue =
    | JNull
    | JBool(b: bool)
    | JNum(n: real)
    | JStr(s: JsString)
    | JArr(elems: seq<JValue>)
    | JObj(fields: map<JsString, JValue>)

  /** The property name "length". */
  const LengthKey: JsString := [0x6C, 0x65, 0x6E, 0x67, 0x74, 0x68]

  /** JavaScript truthiness of a property read; `None` is `undefined`. */
  predicate Truthy(v: Option<JValue>)
  {
    match v
    case None => false
    case Some(JNull) => false
    case Some(JBool(b)) => b
    case Some(JNum(n)) => n != 0.0
    case Some(JStr(s)) => |s| > 0
    case Some(JArr(_)) => true
    case Some(JObj(_)) => true
  }

  /** `typeof v === 'string'`. */
  predicate IsString(v: Option<JValue>)
  {
    v.Some? && v.value.JStr?
  }

  /** ToNumber of a property value; `None` is NaN. Only null, booleans and
      numbers are converted: every other value is read as NaN. */
  function ToNumber(v: JValue): Option<real>
  {
    match v
    case JNull => Some(0.0)
    case JBool(b) => Some(if b then 1.0 else 0.0)
    case JNum(n) => Some(n)
    case _ => None
  }

  /** The number that `v.length` denotes, for a value that is neither null nor
      undefined; `None` when the property is undefined or not a number. */
  function Length(v: JValue): Option<real>
  {
    match v
    case JStr(s) => Some(|s| as real)
    case JArr(a) => Some(|a| as real)
    case JObj(f) => if LengthKey in f then ToNumber(f[LengthKey]) else None
    case _ => None
  }

  /** `v.length >= k`; a comparison with undefined or NaN is false. */
  predicate LengthAtLeast(v: JValue, k: real)
  {
    Length(v).Some? && Length(v).value >= k
  }

  /** `v.length > k`; a comparison with undefined or NaN is false. */
  predicate LengthAbove(v: JValue, k: real)
  {
    Length(v).Some? && Length(v).value > k
  }
}
