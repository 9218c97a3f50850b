/** Shared value types: an optional result and the dynamically typed values that
    a serialised paper record (and a paper's `extra` map) may hold. */
module Values {

  /** The usual Some/None wrapper, used for the model's partial operations. */
  datatype Option<+T> = None | Some(value: T) {
    function GetOr(default: T): T {
      match this
      case Some(v) => v
      case None => default
    }
  }

  /** A dynamically typed value as it appears in a record dictionary or in a
      paper's `extra` map. `Opaque` stands for any other object (a float, a
      date, ...) and carries only what the code can observe of it: whether it
      is truthy. */
  datatype Value =
    | Null
    | Bool(b: bool)
    | Int(i: int)
    | Text(s: string)
    | TextList(items: seq<string>)
    | Object(fields: map<string, Value>)
    | Opaque(truthy: bool)

  /** Truthiness of a value, as an `if value:` test sees it. */
  predicate Truthy(v: Value) {
    match v
    case Null => false
    case Bool(b) => b
    case Int(i) => i != 0
    case Text(s) => s != ""
    case TextList(items) => items != []
    case Object(fields) => fields != map[]
    case Opaque(t) => t
  }
}
