/** Plain document values: what YAML and JSON mappings, sequences and scalars hold. */
module Values {

  datatype Value =
    | Null
    | Bool(flag: bool)
    | Int(number: int)
    | Float(measure: real)
    | Str(text: string)
    | Obj(fields: map<string, Value>)
    | Arr(items: seq<Value>)
  {
    predicate Container() {
      Obj? || Arr?
    }
  }
}
