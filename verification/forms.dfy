/** The per-field error map the two manager forms fill on submit: at most
    one message per field, and the form is valid exactly when the map is
    empty (`Object.keys(newErrors).length === 0`). */
module Forms {
  import opened Wrappers

  datatype Field = Name | Email | Gender | Price | Description | Category | Quantity

  /** The kinds of message the forms show; the wording is not modelled. */
  datatype Message =
    | Required
    | TooShort
    | TooLong
    | BadCharacters
    | NotPositive
    | TooLarge
    | Negative
    | NotInteger
    | BadEmail
    | EmailTaken

  type Errors = map<Field, Message>

  /** The error map of a form whose field `fld` (one of `fields`) fails
      its check with message `check(fld)`. */
  function Collect(fields: set<Field>, check: Field -> Option<Message>): (errs: Errors)
    ensures forall fld :: fld in errs <==> fld in fields && check(fld).Some?
    ensures forall fld :: fld in errs ==> errs[fld] == check(fld).value
  {
    map fld | fld in fields && check(fld).Some? :: check(fld).value
  }

  /** When every field passes its check, the map is empty. */
  lemma CollectNone(fields: set<Field>, check: Field -> Option<Message>)
    requires forall fld :: fld in fields ==> check(fld).None?
    ensures Collect(fields, check) == map[]
  {
    assert Collect(fields, check).Keys == {};
  }

  /** When only `only` fails its check, the map holds that one message. */
  lemma CollectOne(fields: set<Field>, check: Field -> Option<Message>, only: Field)
    requires only in fields && check(only).Some?
    requires forall fld :: fld in fields && fld != only ==> check(fld).None?
    ensures Collect(fields, check) == map[only := check(only).value]
  {
    assert Collect(fields, check).Keys == {only};
  }
}
