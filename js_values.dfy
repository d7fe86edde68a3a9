/** JavaScript values as the Electron main process and the renderer hand them
    around: IPC payloads, backend results, vitals objects. Only what the
    modelled code observes of a value is kept: its type, its truthiness and
    the own properties of plain objects. */
module JsValues {

  datatype Option<+T> = None | Some(value: T) {
    function GetOr(default: T): T {
      match this
      case Some(v) => v
      case None => default
    }
  }

  /** How a JavaScript call completes: with a value, or by throwing an Error
      whose `message` is kept. */
  datatype Outcome<+T> = Returned(value: T) | Threw(message: string)

  /** The message of a TypeError raised by the engine itself (reading a
      property of null, destructuring null, calling a missing method). Its
      wording is the engine's and is not modelled; only the fact that it is
      thrown is. */
  const EngineTypeError: string := "TypeError"

  /** An IEEE double, abstracted to a real when finite. */
  datatype Number = Finite(value: real) | NaN | PosInfinity | NegInfinity

  datatype JsValue =
    | Undefined
    | Null
    | Bool(b: bool)
    | Num(n: Number)
    | Str(s: string)
    | Arr(items: seq<JsValue>)
    | Obj(props: map<string, JsValue>)

  /** ToBoolean: the test behind `!x`, `x && y` and `if (x)`. The falsy values
      are undefined, null, false, 0, NaN and the empty string. */
  predicate Truthy(v: JsValue)
  {
    match v
    case Undefined => false
    case Null => false
    case Bool(b) => b
    case Num(n) => !n.NaN? && n != Finite(0.0)
    case Str(s) => s != ""
    case Arr(_) => true
    case Obj(_) => true
  }

  predicate Nullish(v: JsValue)
  {
    v.Undefined? || v.Null?
  }

  /** `v ?? fallback`: the fallback replaces only null and undefined. */
  function Coalesce(v: JsValue, fallback: JsValue): (r: JsValue)
    ensures Nullish(v) ==> r == fallback
    ensures !Nullish(v) ==> r == v
  {
    if Nullish(v) then fallback else v
  }

  const EmptyObject: JsValue := Obj(map[])

  /** The property read `v.key` on a value that is not null or undefined
      (on those the engine throws). Every key the modelled code reads is an
      ordinary data property, which booleans, numbers, strings and arrays do
      not have, so on them the read yields undefined. */
  function Get(v: JsValue, key: string): (r: JsValue)
    requires !Nullish(v)
    ensures v.Obj? && key in v.props ==> r == v.props[key]
    ensures !(v.Obj? && key in v.props) ==> r == Undefined
  {
    match v
    case Obj(props) => if key in props then props[key] else Undefined
    case _ => Undefined
  }

  /** `const { key } = payload ?? {}`: never throws, and a missing, null or
      non-object payload yields undefined for every key. */
  function Field(payload: JsValue, key: string): (r: JsValue)
    ensures !payload.Obj? ==> r == Undefined
    ensures payload.Obj? && key in payload.props ==> r == payload.props[key]
  {
    Get(Coalesce(payload, EmptyObject), key)
  }
}
