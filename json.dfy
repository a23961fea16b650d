/** The JSON values that `json.loads` produces and `json.dump` writes. */
module JsonValues {

  /** A decoded JSON document. Numbers are kept as integers; an object is the
      dictionary Python builds from it, so a repeated key keeps one value. */
  datatype Json =
    | JNull
    | JBool(b: bool)
    | JNumber(n: int)
    | JString(s: string)
    | JArray(items: seq<Json>)
    | JObject(members: map<string, Json>)
}
