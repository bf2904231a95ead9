/** JSON values as serde_json holds them. */
module Json {

  /** `serde_json::Value`. Numbers are modelled as `real`, so serde_json's distinction
      between integer and float numbers is lost; no stated property depends on it. */
  datatype Value =
    | Null
    | Bool(b: bool)
    | Number(n: real)
    | String(s: string)
    | Array(items: seq<Value>)
    | Object(members: map<string, Value>)
}
