/** The part of org.json the actor snapshots use: a flat record of integer and string fields. */
module Json {

  datatype JsonValue = JInt(n: int) | JStr(s: string)

  type JsonObject = map<string, JsonValue>

  /** The JSONException cases a getter can raise. */
  datatype JsonError = MissingKey(key: string) | WrongType(key: string)

  datatype Result<T> = Ok(value: T) | Err(error: JsonError)

  /** JSONObject.getInt: the integer under `key`, or an error when it is absent or not an integer. */
  function GetInt(o: JsonObject, key: string): (r: Result<int>)
    ensures r.Ok? <==> key in o && o[key].JInt?
    ensures r.Ok? ==> o[key] == JInt(r.value)
    ensures key !in o ==> r == Err(MissingKey(key))
  {
    if key !in o then Err(MissingKey(key))
    else match o[key]
      case JInt(n) => Ok(n)
      case JStr(_) => Err(WrongType(key))
  }

  /** JSONObject.getString: the string under `key`, or an error when it is absent or not a string. */
  function GetString(o: JsonObject, key: string): (r: Result<string>)
    ensures r.Ok? <==> key in o && o[key].JStr?
    ensures r.Ok? ==> o[key] == JStr(r.value)
    ensures key !in o ==> r == Err(MissingKey(key))
  {
    if key !in o then Err(MissingKey(key))
    else match o[key]
      case JStr(s) => Ok(s)
      case JInt(_) => Err(WrongType(key))
  }
}
