/** JavaScript values as the bookmark code sees them after `JSON.parse` or
    when it inspects a loosely typed object: the nullish values, booleans,
    numbers (integers only), strings, arrays and plain objects. */
module Values {

  datatype Option<+T> = None | Some(value: T) {
    function GetOr(default: T): T {
      match this
      case Some(v) => v
      case None => default
    }
  }

  datatype Value =
    | Undefined
    | Null
    | Bool(b: bool)
    | Num(n: int)
    | Str(s: string)
    | Arr(items: seq<Value>)
    | Obj(fields: map<string, Value>)

  /** A plain object, as built by an object literal. */
  type Object = map<string, Value>

  /** JavaScript truthiness: `undefined`, `null`, `false`, `0` and `""` are falsy. */
  predicate Truthy(v: Value) {
    match v
    case Undefined => false
    case Null => false
    case Bool(b) => b
    case Num(n) => n != 0
    case Str(s) => s != ""
    case Arr(_) => true
    case Obj(_) => true
  }

  /** `o.k` on a plain object: a missing property reads as `undefined`. */
  function Get(o: Object, k: string): Value {
    if k in o then o[k] else Undefined
  }

  /** `v.k` (or `v?.k`) on a parsed value: only an object has properties. */
  function Field(v: Value, k: string): Value {
    if v.Obj? then Get(v.fields, k) else Undefined
  }

  /** `a || b` */
  function Or(a: Value, b: Value): (r: Value)
    ensures Truthy(a) ==> r == a
    ensures !Truthy(a) ==> r == b
  {
    if Truthy(a) then a else b
  }

  /** `!!v` */
  function ToBool(v: Value): Value {
    Bool(Truthy(v))
  }

  /** `Array.isArray(v) ? v : []` */
  function ArrayOrEmpty(v: Value): (r: Value)
    ensures r.Arr?
  {
    if v.Arr? then v else Arr([])
  }

  predicate IsNullish(v: Value) {
    v.Undefined? || v.Null?
  }

  /** An optional string column read back as a value: `null` when `None`. */
  function OptStr(o: Option<string>): Value {
    match o
    case None => Null
    case Some(s) => Str(s)
  }

  function StrArray(ts: seq<string>): (r: Value)
    ensures r.Arr? && |r.items| == |ts|
    ensures forall i :: 0 <= i < |ts| ==> r.items[i] == Str(ts[i])
  {
    Arr(seq(|ts|, i requires 0 <= i < |ts| => Str(ts[i])))
  }
}
