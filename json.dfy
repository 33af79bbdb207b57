/** The schema-less records that the store keeps: JSON objects. */
module Json {

  /** A JSON value. Numbers are modelled as integers. */
  datatype Value =
    | Null
    | Bool(b: bool)
    | Num(n: int)
    | Str(s: string)
    | Arr(items: seq<Value>)
    | Obj(fields: map<string, Value>)

  /** A record is one JSON object: a mapping from keys to values. */
  type Record = map<string, Value>
}
