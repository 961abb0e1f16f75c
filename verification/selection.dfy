/** The tri-state row selection shared by the dashboard tables: a set of
    selected row ids, a header checkbox that is checked when every row is
    selected and indeterminate when only some are, a header toggle and a
    per-row toggle. */
module Selection {
  import opened Seqs

  /** `total > 0 && selectedCount === total`. */
  predicate AllSelected(total: nat, count: nat) {
    total > 0 && count == total
  }

  /** `selectedCount > 0 && selectedCount < total`. */
  predicate Indeterminate(total: nat, count: nat) {
    count > 0 && count < total
  }

  /** The header checkbox is never both checked and indeterminate. */
  lemma NeverBothChecked(total: nat, count: nat)
    ensures !(AllSelected(total, count) && Indeterminate(total, count))
    ensures count == 0 ==> !AllSelected(total, count) && !Indeterminate(total, count)
  {
  }

  /** The header toggle over rows with ids `ids`: clear the selection when
      the box is checked or indeterminate, otherwise select every row. */
  function ToggleAll<Id(==,!new)>(sel: set<Id>, ids: seq<Id>): (r: set<Id>)
    ensures AllSelected(|ids|, |sel|) || Indeterminate(|ids|, |sel|) ==> r == {}
    ensures !(AllSelected(|ids|, |sel|) || Indeterminate(|ids|, |sel|)) ==>
              forall x :: x in r <==> x in ids
  {
    if AllSelected(|ids|, |sel|) || Indeterminate(|ids|, |sel|) then {} else Elements(ids)
  }

  /** The row toggle: `id` changes membership, no other id does. */
  function ToggleRow<Id(==,!new)>(sel: set<Id>, id: Id): (r: set<Id>)
    ensures id in r <==> id !in sel
    ensures forall x :: x != id ==> (x in r <==> x in sel)
  {
    if id in sel then sel - {id} else sel + {id}
  }

  /** Toggling the same row twice restores the selection. */
  lemma ToggleRowInvolution<Id(!new)>(sel: set<Id>, id: Id)
    ensures ToggleRow(ToggleRow(sel, id), id) == sel
  {
  }

  /** The selection only ever holds ids of the rows on display: both
      toggles keep that true, the row toggle when it is used on a row that
      is shown. */
  lemma TogglesStayWithinRows<Id(!new)>(sel: set<Id>, ids: seq<Id>, id: Id)
    requires sel <= Elements(ids)
    ensures ToggleAll(sel, ids) <= Elements(ids)
    ensures id in ids ==> ToggleRow(sel, id) <= Elements(ids)
  {
  }

  /** While the selection holds only shown ids, the header toggle clears a
      non-empty selection and selects every row from an empty one. */
  lemma {:induction false} ToggleAllClearsAnySelection<Id(!new)>(sel: set<Id>, ids: seq<Id>)
    requires sel <= Elements(ids)
    ensures sel != {} ==> ToggleAll(sel, ids) == {}
    ensures sel == {} ==> ToggleAll(sel, ids) == Elements(ids)
  {
    ElementsCardinality(ids);
    if sel != {} {
      assert |sel| <= |Elements(ids)| by {
        SubsetCardinality(sel, Elements(ids));
      }
    }
  }

  lemma {:induction false} SubsetCardinality<Id>(a: set<Id>, b: set<Id>)
    requires a <= b
    ensures |a| <= |b|
  {
    assert b == a + (b - a);
  }

  /** With distinct ids, the header toggle from an empty selection checks
      the header box, and a second toggle empties the selection again. */
  lemma {:induction false} ToggleAllTwice<Id(!new)>(ids: seq<Id>)
    requires Distinct(ids) && |ids| > 0
    ensures AllSelected(|ids|, |ToggleAll({}, ids)|)
    ensures ToggleAll(ToggleAll({}, ids), ids) == {}
  {
    DistinctCardinality(ids);
    assert ToggleAll({}, ids) == Elements(ids);
  }

  /** With a repeated id, selecting every row leaves the header box
      indeterminate rather than checked: there are fewer ids than rows. */
  lemma {:induction false} RepeatedIdsLeaveHeaderIndeterminate<Id(!new)>(ids: seq<Id>)
    requires |ids| > 1 && ids[0] == ids[1]
    ensures Indeterminate(|ids|, |ToggleAll({}, ids)|)
  {
    var t := ids[1..];
    ElementsCardinality(t);
    assert Elements(ids) == Elements(t) by {
      assert ids == [ids[0]] + t;
    }
  }
}
