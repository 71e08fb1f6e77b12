/**
 * The data the codebase-map scripts read and write: JSON documents as Python
 * holds them after `json.load` (dicts, lists, strings, integers, booleans and
 * `None`), Python truthiness on them, and the two exceptions the merge can
 * raise on a malformed document.
 */
module PyJson {

  datatype Json =
    | JNull
    | JBool(b: bool)
    | JNum(n: int)
    | JStr(s: string)
    | JArr(items: seq<Json>)
    | JObj(fields: map<string, Json>)

  /** A JSON object as a Python dict. */
  type Record = map<string, Json>

  /** `bool(v)`: `None`, `False`, `0`, `""`, `[]` and `{}` are falsy. */
  predicate Truthy(v: Json)
  {
    match v
    case JNull => false
    case JBool(b) => b
    case JNum(n) => n != 0
    case JStr(s) => s != ""
    case JArr(items) => items != []
    case JObj(fields) => fields != map[]
  }

  /** The exceptions a malformed map document raises. */
  datatype PyError =
    | KeyError(key: string)
    | TypeError

  /** `s` as a JSON list of strings. */
  function StrList(s: seq<string>): Json
  {
    JArr(seq(|s|, i requires 0 <= i < |s| => JStr(s[i])))
  }
}
