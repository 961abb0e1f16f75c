/** The pages table's selection: every page is shown (no filter, no
    pagination), the header and row toggles of the shared tri-state
    selection, and a reset whenever a new `pages` list arrives. */
module PagesTable {
  import opened Seqs
  import opened Dedup
  import opened Selection

  /** A page row; only its id matters to the selection. */
  datatype Page = Page(id: string, title: string)

  function PageIds(pages: seq<Page>): seq<string> {
    Keys(pages, (p: Page) => p.id)
  }

  /** `handleToggleAll`. */
  function HandleToggleAll(sel: set<string>, pages: seq<Page>): (r: set<string>)
    ensures sel <= Elements(PageIds(pages)) ==>
              (sel != {} ==> r == {}) && (sel == {} ==> r == Elements(PageIds(pages)))
    ensures r <= Elements(PageIds(pages))
  {
    var ids := PageIds(pages);
    var r := ToggleAll(sel, ids);
    assert sel <= Elements(ids) ==> (sel != {} ==> r == {}) && (sel == {} ==> r == Elements(ids)) by {
      if sel <= Elements(ids) {
        ToggleAllClearsAnySelection(sel, ids);
      }
    }
    r
  }

  /** `handleToggleRow(id)`. */
  function HandleToggleRow(sel: set<string>, id: string): (r: set<string>)
    ensures id in r <==> id !in sel
    ensures forall x :: x != id ==> (x in r <==> x in sel)
  {
    ToggleRow(sel, id)
  }

  /** What can happen to the table: a toggle, or a new `pages` list, which
      resets the selection. */
  datatype Event = HeaderToggled | RowToggled(id: string) | PagesReplaced(pages: seq<Page>)

  /** One event applied to the selection over `pages`; returns the new
      selection and the pages shown afterwards. */
  function Step(sel: set<string>, pages: seq<Page>, ev: Event): (r: (set<string>, seq<Page>))
    ensures ev.PagesReplaced? ==> r == ({}, ev.pages)
    ensures ev.HeaderToggled? ==> r.1 == pages && r.0 <= Elements(PageIds(pages))
    ensures ev.RowToggled? ==> r.1 == pages && r.0 == ToggleRow(sel, ev.id)
  {
    match ev
    case HeaderToggled => (HandleToggleAll(sel, pages), pages)
    case RowToggled(id) => (HandleToggleRow(sel, id), pages)
    case PagesReplaced(after) => ({}, after)
  }

  /** The pages on display after the events `evs`: the last list that
      arrived, or `pages` when none did. */
  function Shown(pages: seq<Page>, evs: seq<Event>): seq<Page>
    decreases |evs|
  {
    if |evs| == 0 then pages
    else if evs[|evs| - 1].PagesReplaced? then evs[|evs| - 1].pages
    else Shown(pages, evs[..|evs| - 1])
  }

  /** The selection after the events `evs`, in order. */
  function Run(sel: set<string>, pages: seq<Page>, evs: seq<Event>): set<string>
    decreases |evs|
  {
    if |evs| == 0 then sel
    else
      var n := |evs| - 1;
      Step(Run(sel, pages, evs[..n]), Shown(pages, evs[..n]), evs[n]).0
  }

  /** Any run of events in which rows are toggled only for pages on
      display keeps the selection within the pages on display. */
  lemma {:induction false} RunKeepsSelectionShown(sel: set<string>, pages: seq<Page>, evs: seq<Event>)
    requires sel <= Elements(PageIds(pages))
    requires forall i :: 0 <= i < |evs| && evs[i].RowToggled? ==> evs[i].id in PageIds(Shown(pages, evs[..i]))
    ensures Run(sel, pages, evs) <= Elements(PageIds(Shown(pages, evs)))
    decreases |evs|
  {
    if |evs| > 0 {
      var n := |evs| - 1;
      var prefix := evs[..n];
      assert forall i :: 0 <= i < n ==> prefix[i] == evs[i] && prefix[..i] == evs[..i];
      RunKeepsSelectionShown(sel, pages, prefix);
      var s0 := Run(sel, pages, prefix);
      var p0 := Shown(pages, prefix);
      match evs[n]
      case HeaderToggled =>
      case RowToggled(id) =>
        assert evs[..n] == prefix;
        TogglesStayWithinRows(s0, PageIds(p0), id);
      case PagesReplaced(_) =>
    }
  }
}
