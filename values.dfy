/** JavaScript data as the renderer sees it: the values a data object can hold, JavaScript
    truthiness, and the host operations the renderer hands values to but does not define. */
module JsValues {
  import opened Options

  /** A JavaScript value. Numbers are modelled by integers. */
  datatype Value =
    | Undefined
    | Null
    | Bool(b: bool)
    | Number(n: int)
    | Str(s: string)
    | Array(items: seq<Value>)
    | Object(fields: map<string, Value>)

  /** A data context: the own properties of a plain data object. */
  type Scope = map<string, Value>

  /** JavaScript truthiness: undefined, null, false, 0 and "" are falsy; everything else,
      including every array and every object, is truthy. */
  predicate Truthy(v: Value) {
    match v
    case Undefined => false
    case Null => false
    case Bool(b) => b
    case Number(n) => n != 0
    case Str(s) => s != ""
    case Array(_) => true
    case Object(_) => true
  }

  /** What the renderer takes from the JavaScript host without defining it:
      - property: `v[key]` for a value that is not a plain data object (a string's length,
        an array's index or length, a method of a number, ...);
      - stringify: `JSON.stringify(v)`;
      - toText: the text a node holds after `node.textContent = v`;
      - run: calling `new Function(body)()`, with None when building or calling it throws. */
  datatype Host = Host(
    property: (Value, string) -> Value,
    stringify: Value -> string,
    toText: Value -> string,
    run: string -> Option<Value>)

  /** `acc[key]`: an own property of a data object, undefined when it has none; any other
      value asks the host. */
  function Get(acc: Value, key: string, host: Host): (r: Value)
    ensures acc.Object? && key !in acc.fields ==> r == Undefined
    ensures acc.Object? && key in acc.fields ==> r == acc.fields[key]
  {
    match acc
    case Object(fields) => if key in fields then fields[key] else Undefined
    case _ => host.property(acc, key)
  }
}
