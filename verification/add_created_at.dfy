/** The `createdAt` backfill script: every user and product record gets a
    `createdAt`, keeping a valid one (normalised to ISO form) and otherwise
    spreading the records a minute apart from a fixed base time. */
module AddCreatedAt {
  import opened Wrappers
  import opened Json

  // ----------------------------------------------------------------------
  // The base times

  /** Leap days in the years 1 to `y` of the proleptic Gregorian calendar. */
  function LeapDays(y: int): int {
    y / 4 - y / 100 + y / 400
  }

  predicate IsLeapYear(y: int) {
    y % 4 == 0 && (y % 100 != 0 || y % 400 == 0)
  }

  /** Days in the months before `month` (1 to 12) of year `y`. */
  function DaysBeforeMonth(y: int, month: int): (d: nat)
    requires 1 <= month <= 12
    ensures d <= 335
  {
    var common := [0, 31, 59, 90, 120, 151, 181, 212, 243, 273, 304, 334][month - 1];
    if month > 2 && IsLeapYear(y) then common + 1 else common
  }

  /** Milliseconds since 1970-01-01T00:00Z of a whole hour of a UTC date,
      as `new Date('YYYY-MM-DDTHH:00:00.000Z').getTime()` computes it. */
  function EpochMillis(y: int, month: int, day: int, hour: int): int
    requires y >= 1970 && 1 <= month <= 12 && 1 <= day <= 31 && 0 <= hour < 24
  {
    var days := 365 * (y - 1970) + LeapDays(y - 1) - LeapDays(1969) + DaysBeforeMonth(y, month) + day - 1;
    (days * 24 + hour) * 3_600_000
  }

  /** `baseUsers`: 2025-08-01T12:00:00.000Z. */
  const UsersBase: int := 1_754_049_600_000

  /** `baseProducts`: 2025-08-02T12:00:00.000Z. */
  const ProductsBase: int := 1_754_136_000_000

  /** One minute, the spacing of the backfilled times. */
  const Spacing: int := 60_000

  /** The two constants are the dates the script names, one day apart. */
  lemma BaseTimesAreTheNamedDates()
    ensures UsersBase == EpochMillis(2025, 8, 1, 12)
    ensures ProductsBase == EpochMillis(2025, 8, 2, 12)
    ensures ProductsBase - UsersBase == 24 * 60 * Spacing
  {
  }

  // ----------------------------------------------------------------------
  // The mapping

  /** The date handling the script takes from the JavaScript host:
      `toIso(s)`, `None` when `new Date(s)` is invalid, and the ISO text of
      a millisecond time. */
  datatype Clock = Clock(toIso: string -> Option<string>, iso: int -> string)

  /** `u && typeof u.createdAt === 'string' && toIso(u.createdAt)`, when it
      is truthy: the normalised `createdAt` a record keeps. */
  function KeptCreatedAt(u: Json, clock: Clock): (r: Option<string>)
    ensures r.Some? ==> r.value != "" && Get(u, "createdAt").Some? && Get(u, "createdAt").value.Str?
                        && clock.toIso(Get(u, "createdAt").value.s) == r
    ensures r.None? && Get(u, "createdAt").Some? && Get(u, "createdAt").value.Str? ==>
              clock.toIso(Get(u, "createdAt").value.s) in {None, Some("")}
  {
    match Get(u, "createdAt")
    case Some(Str(c)) =>
      (match clock.toIso(c)
       case Some(t) => if t != "" then Some(t) else None
       case None => None)
    case _ => None
  }

  /** The `createdAt` of the record at `index`. */
  function CreatedAtFor(u: Json, index: nat, base: int, clock: Clock): string {
    KeptCreatedAt(u, clock).GetOr(clock.iso(base + index * Spacing))
  }

  /** `{ ...u, createdAt }`. */
  function BackfillRecord(u: Json, index: nat, base: int, clock: Clock): (v: Json)
    ensures v.Obj? && "createdAt" in v.fields
    ensures v.fields["createdAt"] == Str(CreatedAtFor(u, index, base, clock))
    ensures forall k :: k != "createdAt" ==>
              (k in v.fields <==> k in OwnFields(u)) && (k in OwnFields(u) ==> v.fields[k] == OwnFields(u)[k])
  {
    Obj(OwnFields(u)["createdAt" := Str(CreatedAtFor(u, index, base, clock))])
  }

  /** `list.map((u, idx) => ...)`: same length, same order, every record
      given a `createdAt` and otherwise unchanged. */
  function Backfill(list: seq<Json>, base: int, clock: Clock): (r: seq<Json>)
    ensures |r| == |list|
    ensures forall i :: 0 <= i < |r| ==> r[i].Obj? && "createdAt" in r[i].fields
    ensures forall i :: 0 <= i < |r| && KeptCreatedAt(list[i], clock).Some? ==>
              r[i].fields["createdAt"] == Str(KeptCreatedAt(list[i], clock).value)
    ensures forall i :: 0 <= i < |r| && KeptCreatedAt(list[i], clock).None? ==>
              r[i].fields["createdAt"] == Str(clock.iso(base + i * Spacing))
    ensures forall i, k :: 0 <= i < |r| && k != "createdAt" ==>
              (k in r[i].fields <==> k in OwnFields(list[i]))
              && (k in OwnFields(list[i]) ==> r[i].fields[k] == OwnFields(list[i])[k])
  {
    seq(|list|, i requires 0 <= i < |list| => BackfillRecord(list[i], i, base, clock))
  }

  /** `db.users` and `db.products` are backfilled when they are arrays;
      every other key, and a collection that is not an array, is left as
      it was. */
  function BackfillDb(db: Record, clock: Clock): (r: Record)
    ensures r.Keys == db.Keys
    ensures forall k :: k in db && k != "users" && k != "products" ==> r[k] == db[k]
    ensures "users" in db && db["users"].Arr? ==>
              r["users"] == Arr(Backfill(db["users"].items, UsersBase, clock))
    ensures "users" in db && !db["users"].Arr? ==> r["users"] == db["users"]
    ensures "products" in db && db["products"].Arr? ==>
              r["products"] == Arr(Backfill(db["products"].items, ProductsBase, clock))
    ensures "products" in db && !db["products"].Arr? ==> r["products"] == db["products"]
  {
    var withUsers :=
      if "users" in db && db["users"].Arr? then db["users" := Arr(Backfill(db["users"].items, UsersBase, clock))]
      else db;
    if "products" in withUsers && withUsers["products"].Arr? then
      withUsers["products" := Arr(Backfill(withUsers["products"].items, ProductsBase, clock))]
    else withUsers
  }

  /** A clock whose ISO texts are valid and already normalised. */
  ghost predicate Coherent(clock: Clock) {
    && (forall t :: clock.iso(t) != "" && clock.toIso(clock.iso(t)) == Some(clock.iso(t)))
    && (forall c :: clock.toIso(c).Some? && clock.toIso(c).value != "" ==>
          clock.toIso(clock.toIso(c).value) == clock.toIso(c))
  }

  /** Every backfilled record keeps its `createdAt` on a second run. */
  lemma {:induction false} BackfillRecordIdempotent(u: Json, index: nat, base: int, clock: Clock)
    requires Coherent(clock)
    ensures BackfillRecord(BackfillRecord(u, index, base, clock), index, base, clock)
            == BackfillRecord(u, index, base, clock)
  {
    var v := BackfillRecord(u, index, base, clock);
    var x := CreatedAtFor(u, index, base, clock);
    assert KeptCreatedAt(v, clock) == Some(x) by {
      if KeptCreatedAt(u, clock).Some? {
        var c := Get(u, "createdAt").value.s;
        assert clock.toIso(c).Some? && clock.toIso(c).value != "";
      } else {
        assert x == clock.iso(base + index * Spacing);
      }
    }
    assert OwnFields(v)["createdAt" := Str(x)] == OwnFields(v);
  }

  /** Running the script twice gives what running it once gives. */
  lemma BackfillIdempotent(list: seq<Json>, base: int, clock: Clock)
    requires Coherent(clock)
    ensures Backfill(Backfill(list, base, clock), base, clock) == Backfill(list, base, clock)
  {
    var once := Backfill(list, base, clock);
    forall i | 0 <= i < |list|
      ensures Backfill(once, base, clock)[i] == once[i]
    {
      BackfillRecordIdempotent(list[i], i, base, clock);
    }
  }
}
