/** JSON values, as Python's dictionaries, lists and scalars hold them, and the places in them. */
module Json {
  import opened Options

  datatype Value =
    | Null
    | Bool(b: bool)
    | Num(n: int)
    | Str(s: string)
    | Arr(items: seq<Value>)
    | Obj(fields: map<string, Value>)

  /** One step into a value: to what an object holds under a key, or to a place of an array. */
  datatype Into = Key(k: string) | Place(i: nat)

  /** What stands at the end of a path, if anything does. */
  function At(v: Value, path: seq<Into>): Option<Value>
    decreases |path|
  {
    if path == [] then Some(v)
    else
      match path[0]
      case Key(k) => if v.Obj? && k in v.fields then At(v.fields[k], path[1..]) else None
      case Place(i) => if v.Arr? && i < |v.items| then At(v.items[i], path[1..]) else None
  }
}
