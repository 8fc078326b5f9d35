/**
 * `serde_json::Value`.  An object keeps its members in the order in which
 * `serde_json::Map` iterates them; numbers keep their literal text.
 */
module JsonValues {
  import opened Wrappers

  datatype Json =
    | Null
    | Bool(b: bool)
    | Num(literal: string)
    | Str(s: string)
    | Arr(items: seq<Json>)
    | Obj(fields: seq<(string, Json)>)

  /** The value of the first member named `k`. */
  function Member(fields: seq<(string, Json)>, k: string): Option<Json>
  {
    if fields == [] then None
    else if fields[0].0 == k then Some(fields[0].1)
    else Member(fields[1..], k)
  }
}
