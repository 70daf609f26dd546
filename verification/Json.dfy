/** JSON values, and the value found at a path. */
module Json {
  import opened Primitives

  datatype Json =
    | Null
    | Bool(b: bool)
    | Number(text: string)
    | Str(s: string)
    | Arr(items: seq<Json>)
    | Obj(fields: map<string, Json>)

  datatype Key = Field(name: string) | Index(i: nat)

  function Child(v: Json, k: Key): Option<Json> {
    match (v, k)
    case (Obj(fields), Field(name)) => if name in fields then Some(fields[name]) else None
    case (Arr(items), Index(i)) => if i < |items| then Some(items[i]) else None
    case _ => None
  }

  function At(v: Json, path: seq<Key>): Option<Json> {
    if path == [] then Some(v)
    else
      match Child(v, path[0])
      case None => None
      case Some(c) => At(c, path[1..])
  }
}
