/**
 * The JSON values that `posts.json` holds and that the program passes around
 * as Python dicts, lists, strings and numbers, with Python's truth test and
 * `str()`. Numbers are integers; floats are not modelled.
 */
module JsonValues {
  import opened Text

  datatype Json =
    | Null
    | Bool(b: bool)
    | Num(n: int)
    | Str(s: string)
    | List(items: seq<Json>)
    | Object(fields: map<string, Json>)

  /** Python's `bool(v)`: `None`, `False`, `0` and empty strings, lists and dicts are false. */
  predicate Truthy(v: Json) {
    match v
    case Null => false
    case Bool(b) => b
    case Num(n) => n != 0
    case Str(s) => s != ""
    case List(items) => items != []
    case Object(fields) => fields != map[]
  }

  /**
   * Python's `str(v)`. The text of a list or dict (its `repr`, with quoting and
   * escapes) is left to the parameter `repr`.
   */
  function Show(v: Json, repr: Json -> string): (r: string)
    ensures v.Str? ==> r == v.s
    ensures v.Num? ==> r == IntToString(v.n)
  {
    match v
    case Null => "None"
    case Bool(b) => if b then "True" else "False"
    case Num(n) => IntToString(n)
    case Str(s) => s
    case List(_) => repr(v)
    case Object(_) => repr(v)
  }

  /** `d.get(key)` on a dict: the value, or `None` when the key is missing. */
  function Get(fields: map<string, Json>, key: string): (r: Json)
    ensures key in fields ==> r == fields[key]
    ensures key !in fields ==> r == Null
  {
    if key in fields then fields[key] else Null
  }
}
