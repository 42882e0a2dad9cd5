/** The JSON values the character manager stores and exchanges. */
module Json {

  datatype Option<T> = None | Some(value: T)

  /** A scalar JSON value as it appears in a character record. */
  datatype Value = Null | Bool(b: bool) | Num(n: int) | Str(s: string)

  /** A character record: a JSON object from field names to values
      (`id`, `name`, `realName`, `universe` and any extra client fields). */
  type Record = map<string, Value>

  /** Property access `r.k`; `None` stands for JavaScript's `undefined`. */
  function Prop(r: Record, k: string): Option<Value>
  {
    if k in r then Some(r[k]) else None
  }

  /** The id of a record as the server's numeric comparisons see it:
      present only when the `id` field holds a number. */
  function IdOf(r: Record): Option<int>
  {
    if "id" in r && r["id"].Num? then Some(r["id"].n) else None
  }

  /** True when field `k` of `r` is a string, so that `r.k.toLowerCase()` is defined. */
  predicate HasText(r: Record, k: string)
  {
    k in r && r[k].Str?
  }

  /** The string held in field `k`; only meaningful when `HasText(r, k)`. */
  function TextOf(r: Record, k: string): string
  {
    if HasText(r, k) then r[k].s else ""
  }
}
