/** JavaScript values as they reach the library from `JSON.parse`, `localStorage` and the
    book list, and the coercions the source applies to them: `String(v)`, truthiness,
    `typeof v === 'object'`, `Number.isInteger`, `Number.isFinite`, `parseInt(v, 10)` and
    property access `v?.key`. */
module Json {
  import opened Wrappers
  import opened Strings

  /** A JavaScript number: an integer, a finite non-integer (kept as the decimal text
      `String` gives it), `NaN`, or an infinity. */
  datatype Num = Int(i: int) | Fraction(text: string) | NaN | Infinity(negative: bool)

  datatype Value =
    | Undefined
    | Null
    | Bool(b: bool)
    | Number(n: Num)
    | Str(s: string)
    | Arr(items: seq<Value>)
    | Obj(fields: map<string, Value>)

  function NumToString(n: Num): string {
    match n
    case Int(i) => IntToString(i)
    case Fraction(t) => t
    case NaN => "NaN"
    case Infinity(negative) => if negative then "-Infinity" else "Infinity"
  }

  /** `String(v)`; an array is joined with commas, its `null` and `undefined` items
      written as empty strings. */
  function ToJsString(v: Value): string
    decreases v
  {
    match v
    case Undefined => "undefined"
    case Null => "null"
    case Bool(b) => if b then "true" else "false"
    case Number(n) => NumToString(n)
    case Str(s) => s
    case Arr(items) =>
      if items == [] then ""
      else Join(seq(|items|, i requires 0 <= i < |items| =>
                  if items[i].Null? || items[i].Undefined? then "" else ToJsString(items[i])), ",")
    case Obj(_) => "[object Object]"
  }

  /** `String(v ?? '')`. */
  function StringOrEmpty(v: Value): (s: string)
    ensures v.Null? || v.Undefined? ==> s == ""
    ensures v.Str? ==> s == v.s
  {
    if v.Null? || v.Undefined? then "" else ToJsString(v)
  }

  /** Boolean coercion: `!!v`. */
  predicate Truthy(v: Value) {
    match v
    case Undefined => false
    case Null => false
    case Bool(b) => b
    case Number(n) => !(n.NaN? || n == Int(0))
    case Str(s) => s != ""
    case Arr(_) => true
    case Obj(_) => true
  }

  /** `typeof v === 'object'` (true of `null` as well). */
  predicate IsObjectType(v: Value) {
    v.Null? || v.Arr? || v.Obj?
  }

  /** `Number.isInteger(v)`. */
  predicate IsInteger(v: Value) {
    v.Number? && v.n.Int?
  }

  /** `Number.isFinite(v)`. */
  predicate IsFinite(v: Value) {
    v.Number? && (v.n.Int? || v.n.Fraction?)
  }

  /** `v?.key`: a field of an object, `undefined` for anything else. */
  function Get(v: Value, key: string): Value {
    if v.Obj? && key in v.fields then v.fields[key] else Undefined
  }

  /** `parseInt(v, 10)`, with `None` for `NaN`. */
  function ParseInt(v: Value): Option<int> {
    ParseIntPrefix(ToJsString(v))
  }

  /** `parseInt` of a JavaScript integer gives the integer back. */
  lemma ParseIntOfInteger(i: int)
    ensures ParseInt(Number(Int(i))) == Some(i)
  {
    ParseIntOfIntToString(i);
  }
}
