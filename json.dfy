/** The shape of `serde_json::Value` that the annotator produces and compares.
    Key order of `serde_json::Map` is not modelled: values are compared as
    maps, as the crate's own tests compare `Value`s. */
module Json {

  datatype Value =
    | Obj(fields: map<string, Value>)
    | Arr(items: seq<Value>)
    | Str(text: string)
    | Number(digits: string)
    | Bool(b: bool)
    | Null
}
