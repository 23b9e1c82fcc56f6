/**
 * PHP values as the bundle handles them: request payloads, criteria arrays,
 * configured names and the few opaque collaborator handles that flow through
 * the handlers and controllers.
 */
module Values {

  datatype Option<+T> = None | Some(value: T)

  datatype Result<+T, +E> = Ok(value: T) | Err(error: E)

  /**
   * A PHP value. Arrays are ordered maps in PHP; here an array is a map from
   * its (string) keys to values, which is all the modelled code relies on
   * (every loop over an array updates each key independently). An integer
   * key such as 0 is written as the string "0".
   */
  datatype Value =
    | Null
    | Bool(b: bool)
    | Int(i: int)
    | Float(r: real)
    | Str(s: string)
    | Arr(entries: map<string, Value>)
    | Object(handle: nat, props: map<string, Value>)   // an object and its accessible properties

  /** PHP's conversion to boolean; `empty($v)` and `$a ?: $b` use it. */
  predicate Truthy(v: Value)
  {
    match v
    case Null => false
    case Bool(b) => b
    case Int(i) => i != 0
    case Float(r) => r != 0.0
    case Str(s) => s != "" && s != "0"
    case Arr(m) => m != map[]
    case Object(_, _) => true
  }

  /**
   * `(array)$v`: null becomes the empty array, an array stays, an object
   * becomes the array of its properties, a scalar becomes `[0 => $v]`.
   */
  function CastToArray(v: Value): (m: map<string, Value>)
    ensures v.Null? ==> m == map[]
    ensures v.Arr? ==> m == v.entries
    ensures v.Object? ==> m == v.props
    ensures !v.Null? && !v.Arr? && !v.Object? ==> m.Keys == {"0"} && m["0"] == v
  {
    match v
    case Null => map[]
    case Arr(m) => m
    case Object(_, props) => props
    case _ => map["0" := v]
  }

  /** An entity: the record a handler persists; only its identity is observed here. */
  datatype Entity = Entity(id: Value)

  /** The dependency-injection container, an opaque handle. */
  datatype Container = Container(handle: nat)
}
