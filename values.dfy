/**
 * The values a facet can take: the catalog stores text for most fields and
 * an integer for the leaf count. JavaScript compares them "loosely" in the
 * engine, through their text rendering `String(v)`.
 */
module Values {
  import opened Strings

  datatype Value = Str(s: string) | Num(n: int)

  /** `String(v)`. */
  function Render(v: Value): string
  {
    match v
    case Str(s) => s
    case Num(n) => IntToString(n)
  }

  /** JavaScript truthiness of a non-null value (`""` and `0` are falsy). */
  predicate Truthy(v: Value)
  {
    match v
    case Str(s) => s != ""
    case Num(n) => n != 0
  }
}
