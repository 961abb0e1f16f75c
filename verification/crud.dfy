/** The lookup-then-write pattern both record managers follow against the
    REST mock: load a collection, save (create, or update-or-create on
    edit) and delete. Each network step is represented by the reply it
    received, so every handler becomes a decision function from replies to
    the requests it issues and the outcome the user sees. */
module Crud {
  import opened Wrappers
  import opened Json
  import opened Dedup

  /** The part of the fetch helper's normalised reply that the managers
      read: `{ success, status, data }`. */
  datatype Reply = Reply(success: bool, status: int, data: Json)

  /** `Array.isArray(data) ? data : []`. */
  function ListOf(data: Json): (items: seq<Json>)
    ensures data.Arr? ==> items == data.items
    ensures !data.Arr? ==> items == []
  {
    if data.Arr? then data.items else []
  }

  /** `x.id`, the key records are de-duplicated and addressed by. */
  function IdOf(v: Json): Option<Json> {
    Get(v, "id")
  }

  /** The collection a manager shows after a refresh: `None` when the
      refresh failed, in which case the manager shows an empty list and an
      error notice. Reading `id` of a `null` element throws inside the
      refresh, which lands on that same failure path. */
  function LoadUnique(reply: Reply): (r: Option<seq<Json>>)
    ensures r.Some? <==> reply.success && Null !in ListOf(reply.data)
    ensures r.Some? ==> IsDedupOf(r.value, ListOf(reply.data), IdOf)
  {
    var list := ListOf(reply.data);
    if !reply.success || Null in list then None
    else Some(DedupByKey(list, IdOf))
  }

  /** A request the managers send to the store. A target of `None` is the
      URL built from an `undefined` id. */
  datatype Request =
    | Put(target: Option<Json>, body: Record)
    | Post(body: Record)
    | Delete(target: Option<Json>)

  datatype Stage = LookupStage | WriteStage

  /** What the user sees: `Invalid` (the form shows field errors and nothing
      is sent), `Failed` (an error notice naming the failing step's status),
      `Crashed` (a client-side exception, also shown as an error notice) or
      `Succeeded` (the list is reloaded and a success notice is shown). */
  datatype Outcome = Invalid | Failed(stage: Stage, status: int) | Crashed | Succeeded

  /** The id looked up first (if any), the write sent (if any), the outcome. */
  datatype Effects = Effects(lookup: Option<Json>, write: Option<Request>, outcome: Outcome)

  /** `{ ...found[0], ...payload, id: found[0].id }` as it is serialised:
      a field set to `undefined` is dropped by `JSON.stringify`. */
  function UpdateBody(found0: Json, payload: Record): (body: Record)
    ensures IdOf(found0).Some? ==> "id" in body && body["id"] == IdOf(found0).value
    ensures IdOf(found0).None? ==> "id" !in body
    ensures forall k :: k in payload && k != "id" ==> k in body && body[k] == payload[k]
    ensures forall k :: k in OwnFields(found0) && k !in payload && k != "id" ==>
              k in body && body[k] == OwnFields(found0)[k]
    ensures forall k :: k in body ==> k in payload || k in OwnFields(found0)
  {
    var merged := Spread(OwnFields(found0), payload);
    match IdOf(found0)
    case Some(id) => merged["id" := id]
    case None => merged - {"id"}
  }

  /** The outcome of a write whose reply is `w`. */
  function WriteOutcome(w: Reply): (o: Outcome)
    ensures o == Succeeded <==> w.success
    ensures !w.success ==> o == Failed(WriteStage, w.status)
  {
    if w.success then Succeeded else Failed(WriteStage, w.status)
  }

  /** `handleSave`: nothing is sent unless the form is `valid`; a new record
      is POSTed; an edited record is first looked up by `editing`'s id and
      then PUT over the first match, or POSTed when there is none. */
  function Save(valid: bool, editing: Option<Json>, payload: Record, createBody: Record,
                lookup: Reply, write: Reply): (e: Effects)
    ensures !valid ==> e == Effects(None, None, Invalid)
    ensures e.write.Some? ==> valid
    ensures valid && editing.None? ==> e.lookup.None? && e.write == Some(Post(createBody))
    ensures valid && editing.Some? ==> e.lookup == editing
    ensures valid && editing.Some? && !lookup.success ==>
              e.write.None? && e.outcome == Failed(LookupStage, lookup.status)
    ensures valid && editing.Some? && lookup.success && ListOf(lookup.data) == [] ==>
              e.write == Some(Post(createBody))
    ensures valid && editing.Some? && lookup.success && |ListOf(lookup.data)| > 0 ==>
              var found0 := ListOf(lookup.data)[0];
              if found0 == Null then e.write.None? && e.outcome == Crashed
              else e.write == Some(Put(IdOf(found0), UpdateBody(found0, payload)))
    ensures e.write.Some? ==> e.outcome == WriteOutcome(write)
    ensures e.outcome == Succeeded ==> e.write.Some? && write.success
  {
    if !valid then Effects(None, None, Invalid)
    else match editing
      case None => Effects(None, Some(Post(createBody)), WriteOutcome(write))
      case Some(_) =>
        if !lookup.success then Effects(editing, None, Failed(LookupStage, lookup.status))
        else
          var found := ListOf(lookup.data);
          if |found| == 0 then Effects(editing, Some(Post(createBody)), WriteOutcome(write))
          else if found[0] == Null then Effects(editing, None, Crashed)
          else
            var req := Put(IdOf(found[0]), UpdateBody(found[0], payload));
            Effects(editing, Some(req), WriteOutcome(write))
  }

  /** `handleDelete(id)`: look `id` up, DELETE the first match, and count a
      404 on the DELETE as success; when nothing matches, no DELETE is sent
      and the handler still succeeds. */
  function Remove(id: Json, lookup: Reply, del: Reply): (e: Effects)
    ensures e.lookup == Some(id)
    ensures !lookup.success ==> e.write.None? && e.outcome == Failed(LookupStage, lookup.status)
    ensures lookup.success && ListOf(lookup.data) == [] ==> e.write.None? && e.outcome == Succeeded
    ensures lookup.success && |ListOf(lookup.data)| > 0 && ListOf(lookup.data)[0] != Null ==>
              e.write == Some(Delete(IdOf(ListOf(lookup.data)[0])))
    ensures lookup.success && |ListOf(lookup.data)| > 0 && ListOf(lookup.data)[0] == Null ==>
              e.write.None? && e.outcome == Crashed
    ensures e.write.Some? ==> (e.outcome == Succeeded <==> del.success || del.status == 404)
    ensures e.write.Some? && e.outcome != Succeeded ==> e.outcome == Failed(WriteStage, del.status)
    ensures e.outcome == Succeeded ==> lookup.success
  {
    if !lookup.success then Effects(Some(id), None, Failed(LookupStage, lookup.status))
    else
      var found := ListOf(lookup.data);
      if |found| == 0 then Effects(Some(id), None, Succeeded)
      else if found[0] == Null then Effects(Some(id), None, Crashed)
      else
        var outcome := if del.success || del.status == 404 then Succeeded else Failed(WriteStage, del.status);
        Effects(Some(id), Some(Delete(IdOf(found[0]))), outcome)
  }
}
