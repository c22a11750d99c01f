/** JSON documents as the schema normalizer and the CLI client see them.
    A mapping is unordered here: no result below depends on key order. */
module JsonValues {

  datatype Json =
    | Null
    | Bool(b: bool)
    | Num(n: real)
    | Str(s: string)
    | Arr(items: seq<Json>)
    | Obj(fields: map<string, Json>)

  /** No `null` anywhere inside the document. */
  predicate NullFree(v: Json) {
    match v
    case Null => false
    case Arr(items) => forall i | 0 <= i < |items| :: NullFree(items[i])
    case Obj(fields) => forall k | k in fields :: NullFree(fields[k])
    case _ => true
  }
}
