/** The JSON values exchanged with the record store, and the few object
    operations the managers apply to them. */
module Json {
  import opened Wrappers

  datatype Json =
    | Null
    | Bool(b: bool)
    | Num(n: real)
    | Str(s: string)
    | Arr(items: seq<Json>)
    | Obj(fields: map<string, Json>)

  /** The own fields of a JSON object. */
  type Record = map<string, Json>

  /** `v.f`: defined only when `v` is an object holding `f`; None stands
      for `undefined`. */
  function Get(v: Json, f: string): (r: Option<Json>)
    ensures r.Some? <==> v.Obj? && f in v.fields
  {
    if v.Obj? && f in v.fields then Some(v.fields[f]) else None
  }

  /** JavaScript truthiness of a value that may be `undefined`. */
  predicate Truthy(v: Option<Json>) {
    match v
    case None => false
    case Some(Null) => false
    case Some(Bool(b)) => b
    case Some(Num(n)) => n != 0.0
    case Some(Str(s)) => s != ""
    case Some(_) => true
  }

  /** The fields `{...v}` copies out of `v`. */
  function OwnFields(v: Json): Record {
    if v.Obj? then v.fields else map[]
  }

  /** `{...base, ...over}`: every field of either, `over` winning on a clash. */
  function Spread(base: Record, over: Record): (r: Record)
    ensures r.Keys == base.Keys + over.Keys
    ensures forall k :: k in over ==> r[k] == over[k]
    ensures forall k :: k in base && k !in over ==> r[k] == base[k]
  {
    base + over
  }
}
