/**
 * The values that `json.loads` produces and that the Python code inspects:
 * dictionaries from strings to values, with `None` standing for JSON `null`.
 * Parsing itself and the language-model calls are outside the model; they
 * reach it only through the `ParseResult` and `CallResult` values below,
 * which the operations receive from function-typed parameters.
 */
module Json {

  datatype JsonValue =
    | JNull
    | JBool(b: bool)
    | JNum(n: real)
    | JStr(s: string)
    | JArr(items: seq<JsonValue>)
    | JObj(fields: map<string, JsonValue>)

  /** What an abstract `json.loads` returns: a value, or the exception's text. */
  datatype ParseResult = Parsed(value: JsonValue) | ParseFailed(reason: string)

  /** What an abstract chat-completion call returns: the reply text, or the exception's text. */
  datatype CallResult = Reply(content: string) | CallFailed(reason: string)

  /** Python's `d.get(k)`: the stored value, or `None` when the key is absent. */
  function Get(d: map<string, JsonValue>, k: string): JsonValue
  {
    if k in d then d[k] else JNull
  }

  /** Python truthiness of a JSON value (`if plot_info:`, `metric and ...`). */
  predicate Truthy(v: JsonValue)
  {
    match v
    case JNull => false
    case JBool(b) => b
    case JNum(n) => n != 0.0
    case JStr(s) => s != ""
    case JArr(items) => items != []
    case JObj(fields) => fields != map[]
  }

}
