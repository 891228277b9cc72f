/** JSON values as `json.loads` produces them, and Python truthiness over them. */
module Json {

  /** A decoded JSON value: `null`, a boolean, an integer, a non-integral
      number, a string, an array or an object. */
  datatype Value =
    | Null
    | Bool(b: bool)
    | Int(i: int)
    | Num(r: real)
    | Str(s: string)
    | List(items: seq<Value>)
    | Object(fields: map<string, Value>)

  /** A JSON object, the record the vision model is asked to return. */
  type Record = map<string, Value>

  /** Python's truth value of a decoded JSON value: `None`, `False`, `0`,
      `0.0`, `""`, `[]` and `{}` are false, everything else is true. */
  predicate Truthy(v: Value)
  {
    match v
    case Null => false
    case Bool(b) => b
    case Int(i) => i != 0
    case Num(r) => r != 0.0
    case Str(s) => s != ""
    case List(items) => items != []
    case Object(fields) => fields != map[]
  }

  /** `record.get(key)`: the value under `key`, or `None` when it is absent. */
  function Get(record: Record, key: string): Value
  {
    if key in record then record[key] else Null
  }
}
