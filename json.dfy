/**
 * Parsed JSON as Ruby holds it: a Hash whose keys are strings (as `JSON.parse`
 * gives them) or symbols (after `symbolize_keys`), and ActiveSupport's `blank?` and
 * `presence` on its values.
 */
module Json {

  /** A Hash key: a String or a Symbol with the same spelling are different keys. */
  datatype Key = StrKey(name: string) | SymKey(name: string)

  /** A JSON value; numbers are kept as integers (their magnitude never matters here). */
  datatype Value =
    | Null
    | Bool(b: bool)
    | Num(n: int)
    | Str(s: string)
    | List(items: seq<Value>)
    | Object(fields: map<Key, Value>)

  /** The characters of the POSIX class `[[:space:]]` on a Unicode string. */
  predicate IsSpace(c: char) {
    || c == ' ' || '\t' <= c <= '\r'
    || c == '\U{0085}' || c == '\U{00A0}' || c == '\U{1680}'
    || '\U{2000}' <= c <= '\U{200A}'
    || c == '\U{2028}' || c == '\U{2029}' || c == '\U{202F}' || c == '\U{205F}' || c == '\U{3000}'
  }

  /**
   * `blank?`: nil, false, a string of whitespace only (the empty string included),
   * an empty array or an empty hash. Numbers and `true` are never blank.
   */
  predicate Blank(v: Value) {
    match v
    case Null => true
    case Bool(b) => !b
    case Num(_) => false
    case Str(s) => forall i :: 0 <= i < |s| ==> IsSpace(s[i])
    case List(xs) => |xs| == 0
    case Object(m) => |m| == 0
  }

  /** `presence`: the value itself unless it is blank, nil otherwise. */
  function Presence(v: Value): (r: Value)
    ensures Blank(v) ==> r == Null
    ensures !Blank(v) ==> r == v
  {
    if Blank(v) then Null else v
  }

  /** Ruby truthiness: everything but nil and false. */
  predicate Truthy(v: Value) {
    !v.Null? && v != Bool(false)
  }
}
