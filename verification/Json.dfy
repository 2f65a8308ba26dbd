/** The values an `unknown` parameter can hold, as far as the parsers look at them. */
module Json {
  /** `Finite` is any number but NaN and the infinities. */
  datatype Value =
    | Undefined
    | Null
    | Bool(b: bool)
    | Finite(n: real)
    | NonFinite
    | Str(s: string)
    | Arr(items: seq<Value>)
    | Obj(fields: map<string, Value>)

  function Get(fields: map<string, Value>, name: string): Value {
    if name in fields then fields[name] else Undefined
  }
}
