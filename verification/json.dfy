/** The Python values that `json.loads` can produce, with the few Python
    operations the application applies to them. */
module Json {

  /** A decoded JSON document: `None`, a bool, a number, a str, a list or a
      dict with string keys. */
  datatype Value =
    | Null
    | Bool(b: bool)
    | Num(n: int)
    | Str(s: string)
    | Arr(items: seq<Value>)
    | Obj(fields: map<string, Value>)

  /** Python's `bool(v)`. */
  predicate Truthy(v: Value) {
    match v
    case Null => false
    case Bool(b) => b
    case Num(n) => n != 0
    case Str(s) => s != []
    case Arr(items) => items != []
    case Obj(fields) => fields != map[]
  }

  /** `type(v).__name__`. */
  function TypeName(v: Value): string {
    match v
    case Null => "NoneType"
    case Bool(_) => "bool"
    case Num(_) => "int"
    case Str(_) => "str"
    case Arr(_) => "list"
    case Obj(_) => "dict"
  }

  /** `d.get(key)` on a dict: the stored value, or `None` when absent. */
  function Get(fields: map<string, Value>, key: string): (r: Value)
    ensures key !in fields ==> r == Null
    ensures key in fields ==> r == fields[key]
  {
    if key in fields then fields[key] else Null
  }

  /** The text of the `AttributeError` Python raises when `attr` is looked up
      on a value that does not have it. */
  function NoAttribute(v: Value, attr: string): string {
    "'" + TypeName(v) + "' object has no attribute '" + attr + "'"
  }
}
