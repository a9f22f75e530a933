/** The Python values that `json.loads` produces and that the core inspects. */
module Json {

  /**
   * A decoded JSON value: `str`, `list`, `dict`, `int`, `float`, `bool` or
   * `None`. A number with a fraction or an exponent decodes to a `float`;
   * it is kept as an exact real, since no code in the core computes with it.
   */
  datatype Value =
    | Str(s: string)
    | Arr(items: seq<Value>)
    | Obj(fields: map<string, Value>)
    | Num(n: int)
    | Float(x: real)
    | Bool(b: bool)
    | Null
}
