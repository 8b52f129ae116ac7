/** The slice of JavaScript's value model that the three core files rely on:
    JSON-shaped values, plain objects as string-keyed maps, truthiness, object
    spread, and the two ways a JS function ends (it returns or it throws). */
module Js {

  datatype Option<+T> = None | Some(value: T)

  /** A JSON value as `JSON.parse` produces it. `undefined` has no constructor:
      an absent key stands for it. */
  datatype Json =
    | Null
    | Bool(b: bool)
    | Num(n: real)
    | Str(s: string)
    | Arr(items: seq<Json>)
    | Obj(fields: map<string, Json>)

  /** A plain JS object. */
  type Object = map<string, Json>

  /** Property read `o.k` on a plain object: `None` is `undefined`. */
  function Get(o: Object, k: string): (v: Option<Json>)
    ensures v.Some? <==> k in o
    ensures v.Some? ==> v.value == o[k]
  {
    if k in o then Some(o[k]) else None
  }

  /** JS truthiness of a property value (`undefined`, `null`, `false`, `0`, `''` are falsy). */
  predicate Truthy(v: Option<Json>) {
    match v
    case None => false
    case Some(j) =>
      match j
      case Null => false
      case Bool(b) => b
      case Num(n) => n != 0.0
      case Str(s) => s != ""
      case Arr(_) => true
      case Obj(_) => true
  }

  /** Object spread `{...a, ...b}`: every key of either, `b` winning on a clash. */
  function Spread(a: Object, b: Object): (r: Object)
    ensures r.Keys == a.Keys + b.Keys
    ensures forall k :: k in b ==> r[k] == b[k]
    ensures forall k :: k in a && k !in b ==> r[k] == a[k]
  {
    a + b
  }

  /** What a JS function can throw in the core files. */
  datatype JsError =
    | TypeError                      // property read on undefined/null, or a missing array method
    | NotACurlCommand                // `new Error('Not a curl command')`
    | DirectoryUnavailable(path: Json) // `Cannot access or create directory: ...`
    | WriteFailed                    // a rejected lowdb `write()`, re-thrown
    | FileSystemError                // a synchronous `fs` call that throws (`mkdirSync`)

  /** How a call ends: it returns a value or throws. */
  datatype Outcome<+T> = Returned(value: T) | Threw(error: JsError)
}
