/**
 * The slice of QJsonValue / QJsonObject / QJsonArray the bot relies on: a JSON
 * value, member lookup that yields Undefined for a missing key, and the
 * lenient conversions (`toString`, `toBool`, `toObject`, `toArray`) that fall
 * back to an empty or false value when the JSON value has another type.
 */
module Json {

  datatype Json =
    | Undefined
    | Null
    | Bool(b: bool)
    | Number(n: int)
    | String(s: string)
    | Array(items: seq<Json>)
    | Object(fields: map<string, Json>)

  /** QJsonObject::value(key): the member, or Undefined when the key is absent. */
  function Value(fields: map<string, Json>, key: string): Json
  {
    if key in fields then fields[key] else Undefined
  }

  /** QJsonValue::toString(): the text of a string value, otherwise empty. */
  function AsString(j: Json): string
  {
    if j.String? then j.s else []
  }

  /** QJsonValue::toBool(): the flag of a boolean value, otherwise false. */
  function AsBool(j: Json): bool
  {
    j.Bool? && j.b
  }

  /** QJsonValue::toObject(): the members of an object value, otherwise none. */
  function AsObject(j: Json): map<string, Json>
  {
    if j.Object? then j.fields else map[]
  }

  /** QJsonValue::toArray() and QJsonDocument::array(): the items of an array value, otherwise none. */
  function AsArray(j: Json): seq<Json>
  {
    if j.Array? then j.items else []
  }

  /** A JSON array of strings. */
  function Strings(names: seq<string>): (r: Json)
    ensures r.Array? && |r.items| == |names|
    ensures forall i :: 0 <= i < |names| ==> r.items[i] == String(names[i])
  {
    Array(seq(|names|, i requires 0 <= i < |names| => String(names[i])))
  }

  /** Reading a written string array with toString gives back the names. */
  lemma StringsRoundTrip(names: seq<string>)
    ensures |AsArray(Strings(names))| == |names|
    ensures forall i :: 0 <= i < |names| ==> AsString(AsArray(Strings(names))[i]) == names[i]
  {
  }
}
