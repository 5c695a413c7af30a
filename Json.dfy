/** The structured value a catalog file is parsed into. Numbers are integers only. */
module Json {

  datatype JSON =
    | JNull
    | JBool(b: bool)
    | JInt(i: int)
    | JString(str: string)
    | JArray(items: seq<JSON>)
    | JObject(obj: map<string, JSON>)
}
