/**
 JavaScript values as the request handlers of the bookstore backend see them
 once express.json() has parsed a request body, with the three pieces of
 JavaScript semantics the handlers rely on: truthiness, property access and
 optional chaining.
 */
module JsValue {

  /** A value that a parsed JSON body can hold, plus `Undefined`, which is what
      reading a property that is not there yields. JSON numbers are modelled as
      integers. */
  datatype Value =
    | Undefined
    | Null
    | Bool(b: bool)
    | Num(n: int)
    | Str(s: string)
    | Arr(elems: seq<Value>)
    | Obj(fields: map<string, Value>)

  /** The own properties of a request body. express.json() in strict mode only
      yields objects and arrays, and an array has none of the properties the
      handlers read, so it behaves as the empty map. */
  type Body = map<string, Value>

  /** How evaluating an expression completes: with a value, or by throwing a
      TypeError (reading a property of `null`/`undefined`, calling a
      non-function). */
  datatype Eval<+T> = Done(value: T) | TypeError

  /** JavaScript's ToBoolean: `undefined`, `null`, `false`, `0` and `""` are
      falsy, every other value (including every object and array) is truthy. */
  predicate Truthy(v: Value) {
    match v
    case Undefined => false
    case Null => false
    case Bool(b) => b
    case Num(n) => n != 0
    case Str(s) => s != ""
    case Arr(_) => true
    case Obj(_) => true
  }

  predicate Nullish(v: Value) {
    v.Undefined? || v.Null?
  }

  /** `v.key`. Reading a property of `null` or `undefined` throws; any other
      primitive or an array has no property of the names the handlers read,
      so the read yields `undefined`. */
  function Get(v: Value, key: string): (r: Eval<Value>)
    ensures r.TypeError? <==> Nullish(v)
    ensures v.Obj? && key in v.fields ==> r == Done(v.fields[key])
    ensures r.Done? && r.value != Undefined ==> v.Obj? && key in v.fields
  {
    match v
    case Undefined => TypeError
    case Null => TypeError
    case Obj(m) => Done(if key in m then m[key] else Undefined)
    case _ => Done(Undefined)
  }

  /** `v?.key`: short-circuits to `undefined` instead of throwing. */
  function OptGet(v: Value, key: string): (r: Value)
    ensures Nullish(v) ==> r == Undefined
    ensures !Nullish(v) ==> Get(v, key) == Done(r)
  {
    if Nullish(v) then Undefined else Get(v, key).value
  }

  /** `body.key` for a request body. */
  function Read(body: Body, key: string): (r: Value)
    ensures key !in body ==> r == Undefined
    ensures key in body ==> r == body[key]
  {
    if key in body then body[key] else Undefined
  }
}
