/** The slice of JavaScript's value semantics that the modelled code relies on:
    the values stored in entry fields, job payloads and worker exit events,
    truthiness (`if (x)`, `!x`), strict equality (`===`), reading a property
    of a plain object, and the numeric comparisons `<` and `>`. */
module Js {

  /** A JavaScript value. Numbers are integers here (no NaN, no fractions);
      `List` is an array of values. */
  datatype Value =
    | Undefined
    | Null
    | Bool(b: bool)
    | Num(n: int)
    | Str(s: string)
    | List(items: seq<Value>)

  /** The conventional optional value, standing for "a value or nothing". */
  datatype Option<T> = None | Some(value: T)

  /** Truthiness: `undefined`, `null`, `false`, `0` and `""` are falsy;
      every other value, every array included, is truthy. */
  predicate Truthy(v: Value)
    ensures !Truthy(v) <==> v in {Undefined, Null, Bool(false), Num(0), Str("")}
  {
    match v
    case Undefined => false
    case Null => false
    case Bool(b) => b
    case Num(n) => n != 0
    case Str(s) => s != ""
    case List(_) => true
  }

  /** Strict equality `===`. Primitives compare by value. Two arrays are
      equal only if they are the same object; the arrays compared here always
      come from separately loaded records, so they never are. */
  predicate StrictEquals(a: Value, b: Value)
    ensures StrictEquals(a, b) ==> a == b
    ensures a.List? || b.List? ==> !StrictEquals(a, b)
  {
    !a.List? && a == b
  }

  /** A plain object: its own properties and their values. */
  type Object = map<string, Value>

  /** Reading `o[key]`: a missing property reads as `undefined`. */
  function Get(o: Object, key: string): Value
  {
    if key in o then o[key] else Undefined
  }

  /** The number a value converts to in a relational comparison, or None for
      NaN. Strings and arrays are not converted in this model. */
  function ToNumber(v: Value): Option<int>
  {
    match v
    case Undefined => None
    case Null => Some(0)
    case Bool(b) => Some(if b then 1 else 0)
    case Num(n) => Some(n)
    case Str(_) => None
    case List(_) => None
  }

  /** `a < b`; any comparison with NaN is false. */
  predicate Less(a: Value, b: Value)
    ensures Less(a, b) ==> a != b
    ensures a.Num? && b.Num? ==> (Less(a, b) <==> a.n < b.n)
    ensures a == Undefined || b == Undefined ==> !Less(a, b)
  {
    ToNumber(a).Some? && ToNumber(b).Some? && ToNumber(a).value < ToNumber(b).value
  }
}
