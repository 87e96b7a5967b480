/** Parsed JSON values, as `json.load` returns them. JSON `null` is Python's `None`. */
module Json {

  datatype JsonValue =
    | JNull
    | JBool(b: bool)
    | JInt(i: int)
    /** A JSON number with a fraction or exponent; its exact decimal value. */
    | JFloat(f: real)
    | JString(s: string)
    | JArray(items: seq<JsonValue>)
    | JObject(fields: map<string, JsonValue>)
}
