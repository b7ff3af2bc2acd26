/** The already-parsed JSON values the plugin reads from its catalog file. */
module Json {

  /** A decoded JSON value. Objects are maps: a repeated key keeps its last value,
      as Python's json module does. Numbers are carried as reals. */
  datatype Json =
    | Null
    | Bool(b: bool)
    | Number(n: real)
    | Str(s: string)
    | Array(items: seq<Json>)
    | Object(fields: map<string, Json>)

  /** Python's `dict.get(key, default)`. */
  function Get(fields: map<string, Json>, key: string, default: Json): (v: Json)
    ensures key in fields ==> v == fields[key]
    ensures key !in fields ==> v == default
  {
    if key in fields then fields[key] else default
  }
}
