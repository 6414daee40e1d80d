/** Values shared across the model: optional and failing results, the
    Python exceptions the core raises or catches, and JSON-shaped data. */
module Common {

  datatype Option<+T> = None | Some(value: T)

  datatype Result<+T> = Ok(value: T) | Err(error: Exception)

  /** A raised Python exception: its class name and str(e). */
  datatype Exception = Exception(typeName: string, message: string)
  {
    /** f"{type(e).__name__}: {e}" */
    function Describe(): string
    {
      typeName + ": " + message
    }
  }

  /** JSON-compatible values as they appear in the harness report, the
      trajectory entries and the cached pipeline files. */
  datatype Json =
    | JNull
    | JBool(b: bool)
    | JInt(i: int)
    | JReal(r: real)
    | JStr(s: string)
    | JList(items: seq<Json>)
    | JObj(fields: map<string, Json>)

  /** A JSON object: a Python dict with string keys. */
  type Dict = map<string, Json>

  /** d.get(key, default) */
  function Get(d: Dict, key: string, default: Json): Json
  {
    if key in d then d[key] else default
  }

  /** `x in v` where v is expected to be a JSON list of strings. */
  predicate ListHas(v: Json, x: string)
  {
    v.JList? && JStr(x) in v.items
  }
}
