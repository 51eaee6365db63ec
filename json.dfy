/** JSON values as Python's json module produces them, and the codec the
    recorder uses (json.loads, json.dumps, Response.json). */
module Json {
  import opened Wrappers
  import opened Exceptions

  datatype Json =
    | JNull
    | JBool(b: bool)
    | JNum(n: int)
    | JStr(s: string)
    | JArr(items: seq<Json>)
    | JObj(fields: map<string, Json>)

  /** Parsing (json.loads, Response.json; None where they raise ValueError)
      and serialisation (json.dumps), both left uninterpreted. */
  datatype Codec = Codec(parse: string -> Option<Json>, dumps: Json -> string)

  /** The one law the model assumes of the codec: serialising a value and
      parsing the text back gives the value. */
  ghost predicate Lawful(c: Codec) {
    forall v :: c.parse(c.dumps(v)) == Some(v)
  }

  /** Python's subscript value[key] on a value that json.loads returned. */
  function Get(j: Json, key: string): (r: Result<Json, Error>)
    ensures r.Ok? <==> j.JObj? && key in j.fields
    ensures r.Ok? ==> r.value == j.fields[key]
    ensures r.Err? ==> r.error == (if j.JObj? then KeyError(key) else TypeError)
  {
    match j
    case JObj(m) => if key in m then Ok(m[key]) else Err(KeyError(key))
    case _ => Err(TypeError)
  }
}
