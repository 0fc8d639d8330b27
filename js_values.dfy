/**
 * The slice of JavaScript values the modelled code inspects: loose and
 * strict equality, truthiness and the `length` property. Numbers are
 * integers; arrays and objects are compared by identity (`id`).
 */
module JsValues {
  import opened Wrappers

  datatype JsValue =
    | Null
    | Undefined
    | Bool(b: bool)
    | Num(n: int)
    | Str(s: string)
    | Arr(id: nat, items: seq<JsValue>)
      /** Any other object; `lengthProp` is its `length` property when that is a number. */
    | Obj(id: nat, lengthProp: Option<int>)

  /** `v == null`: loose equality with null holds for null and undefined only. */
  predicate IsNullish(v: JsValue)
  {
    v.Null? || v.Undefined?
  }

  /** `!!v`. */
  predicate Truthy(v: JsValue)
  {
    match v
    case Null => false
    case Undefined => false
    case Bool(b) => b
    case Num(n) => n != 0
    case Str(s) => |s| > 0
    case Arr(_, _) => true
    case Obj(_, _) => true
  }

  /** `v.length` when it is a number (strings, arrays, objects with a numeric length); `None` stands for undefined. */
  function Length(v: JsValue): Option<int>
    requires !IsNullish(v)
  {
    match v
    case Str(s) => Some(|s|)
    case Arr(_, items) => Some(|items|)
    case Obj(_, len) => len
    case _ => None
  }

  /** `a === b`: primitives by value, arrays and objects by identity. */
  predicate StrictEquals(a: JsValue, b: JsValue)
  {
    match (a, b)
    case (Null, Null) => true
    case (Undefined, Undefined) => true
    case (Bool(x), Bool(y)) => x == y
    case (Num(x), Num(y)) => x == y
    case (Str(x), Str(y)) => x == y
    case (Arr(x, _), Arr(y, _)) => x == y
    case (Obj(x, _), Obj(y, _)) => x == y
    case _ => false
  }
}
