/** The values a JSON decoder such as Python's `json.loads` can produce. */
module Json {
  import opened Wrappers

  /** A decoded JSON document. Numbers keep their source text, so that
      nothing here depends on floating point. */
  datatype JsonValue =
    | JNull
    | JBool(b: bool)
    | JNumber(literal: string)
    | JString(s: string)
    | JArray(items: seq<JsonValue>)
    | JObject(members: seq<(string, JsonValue)>)

  /** A decoder: the text it accepts and the value it yields, or `None`
      where the decoder raises. */
  type Decoder = string -> Option<JsonValue>
}
