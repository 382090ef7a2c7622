/** JSON values and the JSON library the server calls.

    The library's parser and serialiser are not part of this model: they are
    carried as function values, so every property proved here holds for any
    parser and any serialiser. */
module Json {
  import opened Options

  /** An abstract stand-in for the value a JSON parser produces. The parser is not
      modelled, so nothing here fixes how numbers or repeated keys are represented. */
  datatype Json =
    | Null
    | Bool(b: bool)
    | Number(literal: string)
    | Str(s: string)
    | Array(items: seq<Json>)
    | Object(members: seq<(string, Json)>)

  /** The two library entry points the server uses:
      `loads` answers None where `json.loads` raises `JSONDecodeError`, and
      `dumps` is `json.dumps(_, indent=2)`. A Python list of parsed values is
      serialised as the JSON array holding them. */
  datatype JsonLib = JsonLib(loads: string -> Option<Json>, dumps: Json -> string)
}
