/** The values `json.loads` produces, and the Python built-ins the core
    applies to them: truthiness, `type(v).__name__` and hash-equality of keys. */
module Json {
  import opened Wrappers

  /** A decoded JSON document. Numbers are integers in this model. */
  datatype JsonValue =
    | JNull
    | JBool(b: bool)
    | JNum(n: int)
    | JString(s: string)
    | JList(items: seq<JsonValue>)
    | JObject(fields: map<string, JsonValue>)

  /** What `json.loads` returns, or the message of the decode error it raised. */
  datatype Parse = Parsed(value: JsonValue) | DecodeError(error: string)

  /** `bool(v)` */
  predicate Truthy(v: JsonValue) {
    match v
    case JNull => false
    case JBool(b) => b
    case JNum(n) => n != 0
    case JString(s) => |s| > 0
    case JList(xs) => |xs| > 0
    case JObject(m) => |m| > 0
  }

  /** `type(v).__name__` */
  function TypeName(v: JsonValue): string {
    match v
    case JNull => "NoneType"
    case JBool(_) => "bool"
    case JNum(_) => "int"
    case JString(_) => "str"
    case JList(_) => "list"
    case JObject(_) => "dict"
  }

  /** `d.get(k, default)` on a decoded object. */
  function GetOr(m: map<string, JsonValue>, k: string, default: JsonValue): JsonValue {
    if k in m then m[k] else default
  }

  /** A dict key up to Python's hash-equality: `True == 1` and `False == 0`. */
  datatype PyKey = KNone | KInt(i: int) | KStr(s: string)

  /** The dict key a value stands for, or None when it is unhashable (a list or a dict). */
  function HashKey(v: JsonValue): (k: Option<PyKey>)
    ensures k.None? <==> v.JList? || v.JObject?
  {
    match v
    case JNull => Some(KNone)
    case JBool(b) => Some(KInt(if b then 1 else 0))
    case JNum(n) => Some(KInt(n))
    case JString(s) => Some(KStr(s))
    case JList(_) => None
    case JObject(_) => None
  }
}
