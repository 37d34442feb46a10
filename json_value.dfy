/**
 * A parsed JSON value, shared by the backup file of the front end and the
 * settings store of the Rust host. Numbers are reals; an object maps its
 * keys to their values.
 */
module JsonValue {
  datatype Json =
    | JNull
    | JBool(b: bool)
    | JNum(n: real)
    | JStr(s: string)
    | JArr(items: seq<Json>)
    | JObj(fields: map<string, Json>)
}
