/** The sales ledger table: the date filter and its choices, the
    date-descending order, pagination, and the tri-state row selection,
    with every handler a transition of the table's state record. */
module SalesTable {
  import opened Wrappers
  import opened Text
  import opened Seqs
  import opened Dedup
  import opened Sorting
  import opened Selection

  /** One ledger row; the money columns are display-only. */
  datatype SaleRow = SaleRow(
    id: string,
    date: string,
    productName: string,
    userName: string,
    quantity: real,
    price: real,
    revenue: real)

  /** `b.localeCompare(a)` on dates is a descending sort by the date text. */
  function DateRank(d: string): Rank {
    Rank(0, d)
  }

  function RowRank(r: SaleRow): Rank {
    DateRank(r.date)
  }

  /** `rows.map((r) => r.date)`. */
  function Dates(rows: seq<SaleRow>): seq<string> {
    Keys(rows, (r: SaleRow) => r.date)
  }

  /** The keys of a de-duplication by the identity are the elements. */
  lemma IdentityKeys(xs: seq<string>)
    ensures Keys(xs, (d: string) => d) == xs
  {
  }

  /** `uniqueDates`: the distinct dates of the rows, newest first. */
  function UniqueDates(rows: seq<SaleRow>): (ds: seq<string>)
    ensures Distinct(ds)
    ensures forall i :: 0 <= i < |rows| ==> rows[i].date in ds
    ensures forall i :: 0 <= i < |ds| ==> ds[i] in Dates(rows)
    ensures forall i, j :: 0 <= i < j < |ds| ==> LexLe(ds[j], ds[i]) && ds[i] != ds[j]
  {
    var all := Dates(rows);
    var unique := DedupByKey(all, (d: string) => d);
    IdentityKeys(all);
    IdentityKeys(unique);
    var ds := SortDesc(unique, DateRank);
    DistinctPermutation(unique, ds);
    forall i | 0 <= i < |rows| ensures rows[i].date in ds {
      assert all[i] == rows[i].date;
      assert rows[i].date in multiset(unique);
    }
    forall i | 0 <= i < |ds| ensures ds[i] in all {
      assert ds[i] in multiset(unique);
    }
    ds
  }

  /** `rows.slice().sort(...)`: the same rows, newest date first. */
  function SortedAllRows(rows: seq<SaleRow>): (r: seq<SaleRow>)
    ensures multiset(r) == multiset(rows)
    ensures forall i, j :: 0 <= i < j < |r| ==> LexLe(r[j].date, r[i].date)
  {
    var r := SortDesc(rows, RowRank);
    assert forall i, j :: 0 <= i < j < |r| ==> RankGe(RowRank(r[i]), RowRank(r[j]));
    r
  }

  /** The filter value that shows every date. */
  const AllDates := "all"

  /** `visibleRows`: every row newest first, or just the rows of the chosen
      date in their original order. */
  function VisibleRows(rows: seq<SaleRow>, filter: string): (v: seq<SaleRow>)
    ensures filter == AllDates ==> v == SortedAllRows(rows)
    ensures filter == AllDates ==>
              multiset(v) == multiset(rows) && forall i, j :: 0 <= i < j < |v| ==> LexLe(v[j].date, v[i].date)
    ensures filter != AllDates ==>
              && SubseqOf(v, rows)
              && (forall i :: 0 <= i < |v| ==> v[i].date == filter)
              && (forall i :: 0 <= i < |rows| && rows[i].date == filter ==> rows[i] in v)
              && (forall r :: multiset(v)[r] == if r.date == filter then multiset(rows)[r] else 0)
  {
    if filter == AllDates then SortedAllRows(rows)
    else
      FilterMultiset(rows, (r: SaleRow) => r.date == filter);
      Filter(rows, (r: SaleRow) => r.date == filter)
  }

  /** Every row on display under a date filter carries one of the offered
      dates; a date that no row carries shows nothing. */
  lemma FilterShowsOfferedDates(rows: seq<SaleRow>, filter: string)
    requires filter != AllDates
    ensures |VisibleRows(rows, filter)| > 0 ==> filter in UniqueDates(rows)
    ensures filter !in UniqueDates(rows) ==> VisibleRows(rows, filter) == []
  {
    var v := VisibleRows(rows, filter);
    if |v| > 0 {
      assert v[0] in rows;
    }
  }

  /** `Array.prototype.slice` index normalisation: a negative index counts
      from the end; both ends are clamped to the list. */
  function SliceIndex(i: int, len: nat): (k: nat)
    ensures k <= len
    ensures 0 <= i <= len ==> k == i
    ensures i > len ==> k == len
  {
    if i < 0 then (if len + i < 0 then 0 else len + i) else if i > len then len else i
  }

  /** `v.slice(start, end)`. */
  function Slice<T>(v: seq<T>, start: int, end: int): (r: seq<T>)
    ensures |r| <= |v|
    ensures var lo := SliceIndex(start, |v|);
            lo + |r| <= |v| && forall k :: 0 <= k < |r| ==> r[k] == v[lo + k]
    ensures var lo, hi := SliceIndex(start, |v|), SliceIndex(end, |v|);
            |r| == if hi <= lo then 0 else hi - lo
  {
    var lo := SliceIndex(start, |v|);
    var hi := SliceIndex(end, |v|);
    if hi <= lo then [] else v[lo..hi]
  }

  /** The page size meaning "all rows". */
  const AllRows := -1

  /** `paginatedRows`. */
  function Paginate<T>(v: seq<T>, page: nat, rowsPerPage: int): (r: seq<T>)
    ensures rowsPerPage == AllRows ==> r == v
    ensures rowsPerPage > 0 ==>
              && |r| <= rowsPerPage
              && (page * rowsPerPage >= |v| ==> r == [])
              && (forall k :: 0 <= k < |r| ==> page * rowsPerPage + k < |v| && r[k] == v[page * rowsPerPage + k])
              && (page * rowsPerPage + rowsPerPage <= |v| ==> |r| == rowsPerPage)
              && (page * rowsPerPage < |v| ==> |r| > 0)
              && (page * rowsPerPage < |v| < page * rowsPerPage + rowsPerPage ==> |r| == |v| - page * rowsPerPage)
    ensures forall k :: 0 <= k < |r| ==> r[k] in v
  {
    if rowsPerPage == AllRows then v
    else
      var start := page * rowsPerPage;
      Slice(v, start, start + rowsPerPage)
  }

  /** Row `i` is shown on page `i / n` at position `i % n`. */
  lemma PageOfRow<T>(v: seq<T>, n: int, i: int)
    requires n > 0 && 0 <= i < |v|
    ensures var p := Paginate(v, i / n, n);
            i % n < |p| && p[i % n] == v[i]
  {
    assert (i / n) * n + i % n == i;
  }

  /** ... and on no other page or position. */
  lemma {:induction false} RowOnOnePage<T>(v: seq<T>, n: int, page: nat, k: int, i: int)
    requires n > 0 && 0 <= k < |Paginate(v, page, n)|
    requires page * n + k == i
    ensures page == i / n && k == i % n
  {
    DivisionUnique(i, n, page, k);
  }

  /** Euclidean division has one quotient and remainder. */
  lemma {:induction false} DivisionUnique(i: int, n: int, q: int, k: int)
    requires n > 0 && 0 <= k < n && q * n + k == i
    ensures q == i / n && k == i % n
  {
    var q0, k0 := i / n, i % n;
    assert q0 * n + k0 == i;
    var d := q - q0;
    assert d * n == k0 - k by {
      assert q * n == q0 * n + d * n;
    }
  }

  // ----------------------------------------------------------------------
  // The table state and its transitions

  /** The table's own state: the selected row ids, the date filter, the
      page and the page size. */
  datatype TableState = TableState(selected: set<string>, filter: string, page: nat, rowsPerPage: int)

  const Initial := TableState({}, AllDates, 0, 20)

  /** The ids of the rows on display, in display order. */
  function VisibleIds(rows: seq<SaleRow>, filter: string): seq<string> {
    Keys(VisibleRows(rows, filter), (r: SaleRow) => r.id)
  }

  /** The rows of the current page. */
  function PageRows(st: TableState, rows: seq<SaleRow>): seq<SaleRow> {
    Paginate(VisibleRows(rows, st.filter), st.page, st.rowsPerPage)
  }

  /** The header checkbox: checked, indeterminate, or neither. */
  datatype Header = Header(checked: bool, indeterminate: bool)

  function HeaderOf(st: TableState, rows: seq<SaleRow>): (h: Header)
    ensures !(h.checked && h.indeterminate)
    ensures h.checked <==> |VisibleRows(rows, st.filter)| > 0 && |st.selected| == |VisibleRows(rows, st.filter)|
    ensures h.indeterminate <==> 0 < |st.selected| < |VisibleRows(rows, st.filter)|
  {
    var total := |VisibleRows(rows, st.filter)|;
    NeverBothChecked(total, |st.selected|);
    Header(AllSelected(total, |st.selected|), Indeterminate(total, |st.selected|))
  }

  /** The date filter's `onChange`: the selection is cleared, the filter
      set, and the page goes back to 0 when the filter value changed. */
  function ChangeFilter(st: TableState, value: string): (st': TableState)
    ensures st'.selected == {} && st'.filter == value && st'.rowsPerPage == st.rowsPerPage
    ensures value != st.filter ==> st'.page == 0
    ensures value == st.filter ==> st'.page == st.page
  {
    TableState({}, value, if value != st.filter then 0 else st.page, st.rowsPerPage)
  }

  /** The page buttons. */
  function ChangePage(st: TableState, page: nat): (st': TableState)
    ensures st' == st.(page := page)
  {
    st.(page := page)
  }

  /** `onRowsPerPageChange`: `parsed` is `parseInt(value, 10)`, `None` for
      NaN, which falls back to 10; the page goes back to 0. */
  function ChangeRowsPerPage(st: TableState, parsed: Option<int>): (st': TableState)
    ensures st'.page == 0 && st'.selected == st.selected && st'.filter == st.filter
    ensures parsed.None? ==> st'.rowsPerPage == 10
    ensures parsed.Some? ==> st'.rowsPerPage == parsed.value
  {
    st.(rowsPerPage := parsed.GetOr(10), page := 0)
  }

  /** A new `rows` list arrives: the selection is cleared, and the page
      goes back to 0 when the number of rows changed. */
  function ReceiveRows(st: TableState, before: seq<SaleRow>, after: seq<SaleRow>): (st': TableState)
    ensures st'.selected == {} && st'.filter == st.filter && st'.rowsPerPage == st.rowsPerPage
    ensures |after| != |before| ==> st'.page == 0
    ensures |after| == |before| ==> st'.page == st.page
  {
    TableState({}, st.filter, if |after| != |before| then 0 else st.page, st.rowsPerPage)
  }

  /** `toggleAll`. */
  function ToggleAllRows(st: TableState, rows: seq<SaleRow>): (st': TableState)
    ensures st' == st.(selected := st'.selected)
    ensures st.selected <= Elements(VisibleIds(rows, st.filter)) ==>
              (st.selected != {} ==> st'.selected == {}) &&
              (st.selected == {} ==> st'.selected == Elements(VisibleIds(rows, st.filter)))
  {
    var ids := VisibleIds(rows, st.filter);
    var st' := st.(selected := ToggleAll(st.selected, ids));
    assert st.selected <= Elements(ids) ==>
             (st.selected != {} ==> st'.selected == {}) && (st.selected == {} ==> st'.selected == Elements(ids)) by {
      if st.selected <= Elements(ids) {
        ToggleAllClearsAnySelection(st.selected, ids);
      }
    }
    st'
  }

  /** `toggleRow(id)`. */
  function ToggleOneRow(st: TableState, id: string): (st': TableState)
    ensures st' == st.(selected := st'.selected)
    ensures id in st'.selected <==> id !in st.selected
    ensures forall x :: x != id ==> (x in st'.selected <==> x in st.selected)
  {
    st.(selected := ToggleRow(st.selected, id))
  }

  /** The user's actions on the table, and a new `rows` list. */
  datatype Event =
    | FilterChanged(value: string)
    | PageChanged(page: nat)
    | RowsPerPageChanged(parsed: Option<int>)
    | RowsReplaced(rows: seq<SaleRow>)
    | HeaderToggled
    | RowToggled(id: string)

  /** One event applied to the table showing `rows`; returns the new state
      and the rows shown afterwards. */
  function Step(st: TableState, rows: seq<SaleRow>, ev: Event): (r: (TableState, seq<SaleRow>))
    ensures ev.RowsReplaced? ==> r.1 == ev.rows
    ensures !ev.RowsReplaced? ==> r.1 == rows
  {
    match ev
    case FilterChanged(value) => (ChangeFilter(st, value), rows)
    case PageChanged(page) => (ChangePage(st, page), rows)
    case RowsPerPageChanged(parsed) => (ChangeRowsPerPage(st, parsed), rows)
    case RowsReplaced(after) => (ReceiveRows(st, rows, after), after)
    case HeaderToggled => (ToggleAllRows(st, rows), rows)
    case RowToggled(id) => (ToggleOneRow(st, id), rows)
  }

  /** The selection holds only ids of rows on display. */
  ghost predicate SelectionShown(st: TableState, rows: seq<SaleRow>) {
    st.selected <= Elements(VisibleIds(rows, st.filter))
  }

  /** A row toggle comes from a row of the current page. */
  predicate EventFromPage(st: TableState, rows: seq<SaleRow>, ev: Event) {
    ev.RowToggled? ==> exists k :: 0 <= k < |PageRows(st, rows)| && PageRows(st, rows)[k].id == ev.id
  }

  /** A row of the current page is one of the rows on display. */
  lemma PageRowIsShown(st: TableState, rows: seq<SaleRow>, k: int)
    requires 0 <= k < |PageRows(st, rows)|
    ensures PageRows(st, rows)[k].id in Elements(VisibleIds(rows, st.filter))
  {
    var v := VisibleRows(rows, st.filter);
    var row := PageRows(st, rows)[k];
    assert row in v;
    var j :| 0 <= j < |v| && v[j] == row;
    assert VisibleIds(rows, st.filter)[j] == row.id;
  }

  /** Toggling a row on display keeps the selection on display. */
  lemma RowToggleKeepsSelectionShown(st: TableState, rows: seq<SaleRow>, id: string)
    requires SelectionShown(st, rows)
    requires id in VisibleIds(rows, st.filter)
    ensures SelectionShown(Step(st, rows, RowToggled(id)).0, Step(st, rows, RowToggled(id)).1)
  {
    var ids := VisibleIds(rows, st.filter);
    var st' := Step(st, rows, RowToggled(id)).0;
    assert st'.selected == ToggleRow(st.selected, id) && st'.filter == st.filter;
    TogglesStayWithinRows(st.selected, ids, id);
  }

  /** The header toggle keeps the selection on display. */
  lemma HeaderToggleKeepsSelectionShown(st: TableState, rows: seq<SaleRow>)
    requires SelectionShown(st, rows)
    ensures SelectionShown(Step(st, rows, HeaderToggled).0, Step(st, rows, HeaderToggled).1)
  {
    TogglesStayWithinRows(st.selected, VisibleIds(rows, st.filter), "");
  }

  /** A state with the same selection and filter shows the same selection. */
  lemma SameSelectionShown(st: TableState, st': TableState, rows: seq<SaleRow>)
    requires SelectionShown(st, rows)
    requires st'.selected == st.selected && st'.filter == st.filter
    ensures SelectionShown(st', rows)
  {
  }

  /** Every event keeps the selection within the rows on display, so the
      header toggle always clears a non-empty selection. */
  lemma StepKeepsSelectionShown(st: TableState, rows: seq<SaleRow>, ev: Event)
    requires SelectionShown(st, rows)
    requires EventFromPage(st, rows, ev)
    ensures SelectionShown(Step(st, rows, ev).0, Step(st, rows, ev).1)
  {
    match ev
    case FilterChanged(_) =>
      assert Step(st, rows, ev).0.selected == {};
    case RowsReplaced(_) =>
      assert Step(st, rows, ev).0.selected == {};
    case PageChanged(_) =>
      SameSelectionShown(st, Step(st, rows, ev).0, rows);
    case RowsPerPageChanged(_) =>
      SameSelectionShown(st, Step(st, rows, ev).0, rows);
    case HeaderToggled =>
      HeaderToggleKeepsSelectionShown(st, rows);
    case RowToggled(id) =>
      var k :| 0 <= k < |PageRows(st, rows)| && PageRows(st, rows)[k].id == id;
      PageRowIsShown(st, rows, k);
      RowToggleKeepsSelectionShown(st, rows, id);
  }

  /** The table starts with nothing selected, all dates, the first page and
      twenty rows per page. */
  lemma InitialSelectionShown(rows: seq<SaleRow>)
    ensures SelectionShown(Initial, rows)
    ensures VisibleRows(rows, Initial.filter) == SortedAllRows(rows)
    ensures |PageRows(Initial, rows)| == if |rows| < 20 then |rows| else 20
  {
    var v := VisibleRows(rows, Initial.filter);
    assert |v| == |multiset(v)| == |multiset(rows)| == |rows|;
  }
}
