/** JSON values as exchanged with the upstream services: the body of an
    outgoing request and the objects decoded from a response. An object
    keeps its members in order, as a Python `dict` does; the objects built
    or decoded here never repeat a member name. */
module Json {

  datatype Json =
    | JNull
    | JBool(b: bool)
    | JInt(i: int)
    | JString(s: string)
    | JArray(items: seq<Json>)
    | JObject(fields: seq<(string, Json)>)
}
