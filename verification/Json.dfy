/** Decoded JSON values: what encoding/json leaves in an interface{}. */
module Json {

  datatype Option<+T> = None | Some(value: T)

  datatype Value =
    | Null
    | Bool(b: bool)
    | Num(n: real)
    | Str(s: string)
    | Arr(items: seq<Value>)
    | Obj(fields: Object)

  type Object = map<string, Value>

  /** cfg[key].(map[string]interface{}), when it is one. */
  function NodeAt(cfg: Object, key: string): Option<Object> {
    if key in cfg && cfg[key].Obj? then Some(cfg[key].fields) else None
  }

  /** cfg[key].(string), or "". */
  function StringAt(cfg: Object, key: string): string {
    if key in cfg && cfg[key].Str? then cfg[key].s else ""
  }

  /** cfg[key].(bool), or false. */
  predicate TrueAt(cfg: Object, key: string) {
    key in cfg && cfg[key].Bool? && cfg[key].b
  }

  /** The text of an extra_config column: absent, blank, the literal null, an object, or text that
      does not decode into an object. */
  datatype ConfigText =
    | Absent
    | Blank(text: string)
    | NullLiteral
    | Object(cfg: Object)
    | Malformed(text: string)

  /** What json.Unmarshal leaves in a map: nil and empty read alike. */
  function Decoded(text: ConfigText): Object {
    if text.Object? then text.cfg else map[]
  }
}
