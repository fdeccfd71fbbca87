/** The JavaScript values the query page handles: what `JSON.parse` can produce,
    the truthiness test the batch loops apply to each identifier, and the two
    small wrappers used for remote answers. */
module JsValues {

  /** A value `JSON.parse` can return. JSON has no `undefined`, no `NaN` and no
      functions, so these six cases are all of them. Numbers are kept as reals;
      the rounding of the parser is not modelled. */
  datatype JsValue =
    | JsString(s: string)
    | JsNumber(n: real)
    | JsBool(b: bool)
    | JsNull
    | JsArray(elements: seq<JsValue>)
    | JsObject(members: seq<(string, JsValue)>)

  /** JavaScript's `!v` on the values above: the empty string, zero (`0` and
      `-0` alike), `false` and `null` are falsy; arrays and objects, even empty
      ones, are truthy. */
  predicate Falsy(v: JsValue) {
    match v
    case JsString(s) => s == ""
    case JsNumber(n) => n == 0.0
    case JsBool(b) => !b
    case JsNull => true
    case JsArray(_) => false
    case JsObject(_) => false
  }

  /** A value that may be JavaScript's `null`. */
  datatype Option<+T> = None | Some(value: T)

  /** The settled result of one awaited remote call: its value, or the
      `message` of the error it rejected with. */
  datatype Outcome<+T> = Ok(value: T) | Err(message: string)
}
