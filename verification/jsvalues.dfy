/** The JavaScript values the modelled functions receive where the source
    expects text: strings, and everything a caller may pass instead. */
module JsValues {

  /** `null` results of the source are `None`. */
  datatype Option<+T> = None | Some(value: T)

  /** A success value, or the message of the error the source throws. */
  datatype Result<+T> = Success(value: T) | Failure(error: string)

  /** An argument the source type-checks with `typeof text === 'string'`:
      a string, or any other value (null, undefined, a number, an object). */
  datatype Text = TStr(s: string) | TOther

  /** `text && typeof text === 'string'`: a non-empty string. */
  predicate IsNonEmptyString(t: Text) {
    t.TStr? && |t.s| > 0
  }

  /** A property read from a plain data object: missing (`undefined`),
      explicitly `null`, or a string. */
  datatype Field = Undefined | Null | Value(s: string)

  /** JavaScript truthiness of a field: only a non-empty string is truthy. */
  predicate Truthy(f: Field) {
    f.Value? && |f.s| > 0
  }

  /** The field after a destructuring default of `''`: defaults apply to
      `undefined` only, so `null` stays `null`. */
  function DefaultEmpty(f: Field): (r: Field)
    ensures r.Undefined? == false
    ensures f.Undefined? ==> r == Value("")
    ensures !f.Undefined? ==> r == f
  {
    if f.Undefined? then Value("") else f
  }

  /** `String(v)` of a field that has been defaulted (or `${v}` in a
      template literal): `null` becomes the four letters "null". */
  function Interpolate(f: Field): string
  {
    match f
    case Undefined => "undefined"
    case Null => "null"
    case Value(s) => s
  }

  /** The field as an argument to a function that checks for a string. */
  function AsText(f: Field): Text
  {
    match f
    case Value(s) => TStr(s)
    case _ => TOther
  }
}
