/** The generic document `parse_spec` receives: what `json.loads` or
    `yaml.safe_load` produce, restricted to the value kinds the validator tells
    apart. An object is a map from string keys to values, as a Python `dict`
    decoded from JSON is. */
module Json {

  datatype J =
    | JNull
    | JBool(b: bool)
    | JNum(n: real)
    | JStr(s: string)
    | JArr(items: seq<J>)
    | JObj(fields: map<string, J>)

  /** Python's `d.get(name, default)`: the value under `name` when the key is
      present (an explicit `null` included), `default` otherwise. */
  function GetOr(fields: map<string, J>, name: string, default: J): (v: J)
    ensures name in fields ==> v == fields[name]
    ensures name !in fields ==> v == default
  {
    if name in fields then fields[name] else default
  }
}
