/** Decoded JSON values, as `json.loads` produces them and `json.dumps` consumes them.
    The text encoding itself is not modelled: frames are exchanged as values. */
module JsonValues {

  /** A JSON value as Python decodes it. A number decodes to an integer or to a
      float; floats are modelled as reals. */
  datatype Json =
    | JNull
    | JBool(b: bool)
    | JInt(i: int)
    | JFloat(x: real)
    | JString(s: string)
    | JArray(items: seq<Json>)
    | JObject(members: map<string, Json>)

  /** What `json.loads` gives back for one inbound text frame: either it raises
      (the text is not JSON) or it yields a value of any shape. */
  datatype Inbound = Undecodable | Decoded(value: Json)
}
