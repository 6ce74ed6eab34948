/** Untyped values as they arrive from a decoded JSON document or request
    body, together with the small wrappers the model uses for Python's
    `None` results and raised exceptions. */
module Json {

  /** A decoded JSON scalar. Booleans are their own constructor: Python's
      `type(True)` is `bool`, not `int`, so an exact-type test tells them apart. */
  datatype Value = Str(s: string) | Int(i: int) | Bool(b: bool) | Null

  /** A decoded JSON object. */
  type Dict = map<string, Value>

  datatype Option<+T> = None | Some(value: T)

  /** The Python exceptions the core can raise. */
  datatype Error = ValueError | KeyError

  datatype Result<+T> = Ok(value: T) | Err(error: Error)
}
