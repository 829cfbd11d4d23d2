/**
 * The JavaScript values an entity field or a database cell can hold, and the
 * run-time tests the store applies to them (truthiness, lodash's `isDate` and
 * `isObject`).
 */
module Values {

  /** A Date's time value: milliseconds since the epoch, or NaN for an Invalid Date. */
  datatype Time = Valid(ms: int) | Invalid

  /**
   * A JavaScript value. Numbers are integers (floating point is not modelled);
   * an object is its own enumerable properties in the order they were added.
   * JavaScript lists integer-like keys first, in ascending order; that
   * ordering is not modelled.
   */
  datatype Value =
    | Undefined
    | Null
    | Bool(b: bool)
    | Num(n: int)
    | Str(s: string)
    | Date(time: Time)
    | Arr(items: seq<Value>)
    | Obj(props: seq<Prop>)

  datatype Prop = Prop(key: string, val: Value)

  /** `!!v` */
  predicate Truthy(v: Value) {
    match v
    case Undefined => false
    case Null => false
    case Bool(b) => b
    case Num(n) => n != 0
    case Str(s) => s != ""
    case Date(_) => true
    case Arr(_) => true
    case Obj(_) => true
  }

  /** lodash `_.isDate` */
  predicate IsDate(v: Value) {
    v.Date?
  }

  /** lodash `_.isObject`: objects, arrays and Dates, never null */
  predicate IsObject(v: Value) {
    v.Date? || v.Arr? || v.Obj?
  }

  /** `o[k]` on a plain object held as a map: a missing key reads as undefined. */
  function Get(m: map<string, Value>, k: string): Value {
    if k in m then m[k] else Undefined
  }
}
