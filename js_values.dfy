/** The JavaScript values that cross the pipeline's boundaries (request
    bodies, parsed model output, JSON responses), with JavaScript's
    truthiness and property access. */
module JsValues {

  datatype Option<+T> = None | Some(value: T)

  /** Numbers are modelled as integers; NaN and fractions are not modelled. */
  datatype JsValue =
    | Undefined
    | Null
    | Bool(b: bool)
    | Num(n: int)
    | Str(s: string)
    | Arr(items: seq<JsValue>)
    | Obj(fields: map<string, JsValue>)

  /** `!!v`: `undefined`, `null`, `false`, `0` and `""` are falsy. */
  predicate Truthy(v: JsValue): (b: bool)
    ensures b ==> !v.Undefined? && !v.Null?
    ensures v.Arr? || v.Obj? ==> b
  {
    match v
    case Undefined => false
    case Null => false
    case Bool(b) => b
    case Num(n) => n != 0
    case Str(s) => s != ""
    case Arr(_) => true
    case Obj(_) => true
  }

  /** The value of `o[key]`, for a key that names no built-in property;
      `None` where JavaScript throws a TypeError (a property of `undefined`
      or `null`). */
  function Get(o: JsValue, key: string): (r: Option<JsValue>)
    ensures r.None? <==> (o.Undefined? || o.Null?)
    ensures o.Obj? && key !in o.fields ==> r == Some(Undefined)
  {
    match o
    case Undefined => None
    case Null => None
    case Obj(fields) => Some(if key in fields then fields[key] else Undefined)
    case _ => Some(Undefined)
  }

  /** A JSON error body `{ error }`. */
  function ErrorBody(error: string): JsValue {
    Obj(map["error" := Str(error)])
  }

  /** A JSON error body `{ error, details }`. */
  function ErrorDetailsBody(error: string, details: string): JsValue {
    Obj(map["error" := Str(error), "details" := Str(details)])
  }

  /** An HTTP response produced by one of the API handlers. */
  datatype Response =
    | TextReply(status: int, text: string)
    | JsonReply(status: int, body: JsValue)
    | PdfReply(pdf: seq<bv8>, fileName: string)
  {
    function Status(): int {
      match this
      case TextReply(status, _) => status
      case JsonReply(status, _) => status
      case PdfReply(_, _) => 200
    }
  }

  /** Stands for the message of a TypeError raised by the JavaScript engine
      (reading a property of `undefined`, calling a missing method); its
      exact wording is the engine's. */
  const TypeErrorMessage := "TypeError"
}
