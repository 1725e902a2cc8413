/** Values exchanged by the calculator service: the JSON-shaped result of an
    evaluation, the record kept in the history log and the response returned
    to the caller of the calculate endpoint. */
module Records {

  datatype Option<+T> = None | Some(value: T)

  /** The value stored under "result": the evaluator's own value on success
      (a number, or null when the evaluator produced none), the empty string
      when the evaluator reported errors, null after an exception. */
  datatype Value = Null | Num(x: real) | Text(s: string)

  /** One entry of the history log. */
  datatype Record = Record(
    timestamp: string,
    expression: string,
    result: Value,
    ok: bool,
    error: string)

  /** The body of the calculate response; `result` is None when the response
      has no "result" key at all. */
  datatype Response = Response(
    ok: bool,
    expr: string,
    result: Option<Value>,
    error: string)
}
