/** The values of src/chromium/values.hh as plain trees: what a `Value` object and
    everything it owns denote.  Binary values are not part of this model.
  */
module ValueTree {
  datatype Value =
    | Null
    | Boolean(b: bool)
    | Integer(i: int)
    | Double(r: real)
    | String(s: string)
    | List(items: seq<Value>)
    | Dictionary(entries: map<string, Value>)
}
