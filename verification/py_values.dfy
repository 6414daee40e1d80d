/** How Python treats the JSON-shaped values the harness passes around:
    type names, attribute errors and the `in` operator. */
module PyValues {
  import opened Common
  import opened Text

  /** type(x).__name__ for a JSON value. */
  function PyTypeName(j: Json): string
  {
    match j
    case JNull => "NoneType"
    case JBool(_) => "bool"
    case JInt(_) => "int"
    case JReal(_) => "float"
    case JStr(_) => "str"
    case JList(_) => "list"
    case JObj(_) => "dict"
  }

  /** The AttributeError of calling a str or dict method on a value of
      another type. */
  function NoAttribute(j: Json, name: string): Exception
  {
    Exception("AttributeError", "'" + PyTypeName(j) + "' object has no attribute '" + name + "'")
  }

  /** `key in container`, with Python's meaning for each container type;
      TypeError for a value that is not a container. */
  function PyIn(key: string, container: Json): Result<bool>
  {
    match container
    case JList(items) => Ok(JStr(key) in items)
    case JStr(t) => Ok(Contains(t, key))
    case JObj(fields) => Ok(key in fields)
    case _ => Err(Exception("TypeError", "argument of type '" + PyTypeName(container) + "' is not iterable"))
  }
}
