/**
 The data-view engine of `Datatable.prototype`: the table state and the
 commands that change it (initialisation, `addData`, `removeAllData`,
 `updateColumns`, the search, header-click, page-select and page-size
 handlers) with the DOM work removed. Every command is a pure transition
 from one state to the next.
 */
module Datatable {
  import opened Records
  import Search
  import Ordering
  import Paging
  import Decimal

  datatype Option<T> = None | Some(value: T)

  /** The switches of the options object. */
  datatype Features = Features(sortable: bool, searchable: bool, pagination: bool)

  /** The page fields: the current page, the page size, the page count, the
      window `[startFeature, endFeature)` of the working set the current page
      shows, and the results label. */
  datatype Pager = Pager(
    currentPage: int,
    currentPageSize: nat,
    totalPages: nat,
    startFeature: int,
    endFeature: int,
    resultsLabel: string)

  /** The fields of a table instance that the engine reads and writes. */
  datatype Table = Table(
    features: Features,
    columns: seq<string>,
    masterData: seq<Entry>,
    data: seq<Entry>,
    recordIdCounter: nat,
    sortBy: Option<string>,
    reverse: bool,
    searchBy: string,
    pager: Pager)

  /** The page fields agree with a working set of `len` entries, as
      `updateResultsCount` leaves them. */
  predicate Windowed(p: Pager, len: nat) {
    var size := p.currentPageSize;
    && size >= 1
    && p.totalPages == Paging.TotalPages(len, size)
    && 1 <= p.currentPage <= p.totalPages
    && p.startFeature == (p.currentPage - 1) * size
    && p.endFeature == (if p.currentPage == p.totalPages then len else p.startFeature + size)
    && 0 <= p.startFeature <= p.endFeature <= len
    && p.resultsLabel == Paging.ResultsLabel(len, p.startFeature, p.endFeature)
  }

  /** Ids are unique and below the counter, and the working set is drawn
      from the master set. */
  predicate Sound(t: Table) {
    && UniqueIds(t.masterData)
    && IdsBelow(t.masterData, t.recordIdCounter)
    && multiset(t.data) <= multiset(t.masterData)
  }

  /** What holds between commands. */
  predicate Valid(t: Table) {
    && Sound(t)
    && (t.features.pagination ==> Windowed(t.pager, |t.data|))
    && (!t.features.pagination ==> t.pager.currentPage == 1 && t.pager.totalPages == 1)
  }

  /** `if(this.sortBy)`: a sort column is set and is not the empty string. */
  predicate SortActive(t: Table) {
    t.sortBy.Some? && t.sortBy.value != ""
  }

  /** The page arithmetic of `updateResultsCount` for a working set of `len`
      entries. */
  function Recount(p: Pager, len: nat): (r: Pager)
    requires p.currentPageSize >= 1
    ensures r.currentPageSize == p.currentPageSize
    ensures p.currentPage >= 1 ==> Windowed(r, len)
    ensures r.totalPages == Paging.TotalPages(len, p.currentPageSize)
    ensures len == 0 ==> r.currentPage == 1
    ensures len > 0 ==> r.currentPage == if p.currentPage > r.totalPages then r.totalPages else p.currentPage
  {
    var w := Paging.ComputeWindow(len, p.currentPageSize, p.currentPage);
    Pager(w.page, p.currentPageSize, w.totalPages, w.start, w.end, Paging.ResultsLabel(len, w.start, w.end))
  }

  /** `updateResultsCount`: with pagination on, recomputes the page fields;
      otherwise does nothing. */
  function UpdateResultsCount(t: Table): (r: Table)
    requires t.features.pagination ==> t.pager.currentPageSize >= 1
    ensures r == t.(pager := r.pager)
    ensures !t.features.pagination ==> r == t
    ensures t.features.pagination && t.pager.currentPage >= 1 ==> Windowed(r.pager, |t.data|)
    ensures t.features.pagination ==> r.pager.currentPageSize == t.pager.currentPageSize
    ensures t.features.pagination && |t.data| == 0 ==> r.pager.currentPage == 1
    ensures t.features.pagination && |t.data| > 0 ==>
              r.pager.currentPage == if t.pager.currentPage > r.pager.totalPages then r.pager.totalPages else t.pager.currentPage
  {
    if !t.features.pagination then t
    else t.(pager := Recount(t.pager, |t.data|))
  }

  /** Recounting a sound table whose current page is at least 1 makes it valid. */
  lemma RecountValid(t: Table)
    requires Sound(t) && t.pager.currentPage >= 1
    requires t.features.pagination ==> t.pager.currentPageSize >= 1
    requires !t.features.pagination ==> t.pager.currentPage == 1 && t.pager.totalPages == 1
    ensures Valid(UpdateResultsCount(t))
  {
  }

  /** The rows are ordered by `field` in the chosen direction whenever the
      values of that column are all of one kind. */
  predicate OrderedBy(rows: seq<Entry>, field: string, reverse: bool) {
    forall k :: Ordering.OfKind(Ordering.SortComparator(field, reverse), rows, k) ==>
      Ordering.Sorted(Ordering.SortComparator(field, reverse), rows)
  }

  /** A permutation has the same kinds of key as the original. */
  lemma OfKindPermutation(c: Ordering.Comparator, a: seq<Entry>, b: seq<Entry>, k: Ordering.Kind)
    requires multiset(a) == multiset(b) && Ordering.OfKind(c, a, k)
    ensures Ordering.OfKind(c, b, k)
  {
    forall e | e in b
      ensures Ordering.KindOf(Ordering.Key(c, e)) == k
    {
      assert e in multiset(a);
    }
  }

  /** `sort(field, reverse)`: reorders the working set by the column, a no-op
      when sorting is disabled. Uses the comparator `sort` is meant to build
      (see Ordering.SortComparator). */
  function SortData(sortable: bool, data: seq<Entry>, field: string, reverse: bool): (r: seq<Entry>)
    ensures multiset(r) == multiset(data)
    ensures !sortable ==> r == data
    ensures sortable ==> forall k :: Ordering.OfKind(Ordering.SortComparator(field, reverse), data, k) ==>
                                     Ordering.Sorted(Ordering.SortComparator(field, reverse), r)
    ensures sortable ==> OrderedBy(r, field, reverse)
  {
    if !sortable then data
    else
      var c := Ordering.SortComparator(field, reverse);
      var sorted := Ordering.InsertionSort(c, data);
      if data != [] && Ordering.OfKind(c, data, Ordering.KindOf(Get(data[0].record, field))) then
        Ordering.InsertionSortSorted(c, data, Ordering.KindOf(Get(data[0].record, field)));
        assert forall k :: Ordering.OfKind(c, data, k) ==> k == Ordering.KindOf(Get(data[0].record, field)) by {
          assert data[0] in data;
        }
        forall k | Ordering.OfKind(c, sorted, k)
          ensures Ordering.Sorted(c, sorted)
        {
          OfKindPermutation(c, sorted, data, k);
        }
        sorted
      else
        assert forall k :: Ordering.OfKind(c, data, k) ==> data == [] by {
          if data != [] { assert data[0] in data; }
        }
        forall k | Ordering.OfKind(c, sorted, k)
          ensures Ordering.Sorted(c, sorted)
        {
          OfKindPermutation(c, sorted, data, k);
        }
        sorted
  }

  /** `filter(query)`: rebuilds the working set from the master set when
      searching is enabled, leaves it alone otherwise. */
  function FilterData(t: Table, query: string): (r: seq<Entry>)
    ensures t.features.searchable ==> Search.IsSubsequence(r, t.masterData)
    ensures t.features.searchable ==> forall e :: e in r <==> e in t.masterData && Search.Keeps(query, e)
    ensures !t.features.searchable ==> r == t.data
  {
    if t.features.searchable then Search.Filter(t.masterData, query) else t.data
  }

  // ---------------------------------------------------------------------------
  // Commands
  // ---------------------------------------------------------------------------

  /** The table with its current page set to `page`. */
  function AtPage(t: Table, page: int): Table {
    t.(pager := t.pager.(currentPage := page))
  }

  /** `init`: normalises the initial records with ids from 1, copies them to
      the master set, picks the page size, and computes the first window
      (with pagination) or makes the one page hold everything (without). */
  function Init(features: Features, columns: seq<string>, raws: seq<Record>, pageSizes: seq<nat>, pageSize: nat): (t: Table)
    requires features.pagination ==> pageSize >= 1 || (|pageSizes| >= 1 && pageSizes[0] >= 1)
    ensures Valid(t)
    ensures t.masterData == t.data && |t.data| == |raws|
    ensures forall i :: 0 <= i < |raws| ==> t.data[i].id == i + 1 && t.data[i].record == ScrubRecord(raws[i], columns)
    ensures t.recordIdCounter == |raws| + 1
    ensures t.pager.currentPage == 1 && t.sortBy == None && t.searchBy == "" && t.columns == columns
    ensures features.pagination ==> t.pager.currentPageSize == (if pageSize >= 1 then pageSize else pageSizes[0])
    ensures !features.pagination ==> t.pager.currentPageSize == |raws|
  {
    var s := ScrubData(1, columns, raws);
    AppendScrubbedFresh([], 1, columns, raws);
    assert [] + s.entries == s.entries;
    var size := if pageSize >= 1 then pageSize else if |pageSizes| > 0 then pageSizes[0] else 0;
    var t0 := Table(features, columns, s.entries, s.entries, s.next, None, false, "", Pager(1, size, 1, 0, 0, ""));
    RecountValid(t0);
    if features.pagination then UpdateResultsCount(t0) else t0.(pager := t0.pager.(currentPageSize := |s.entries|))
  }

  /** The first half of `addData`: normalise the new records with the
      running counter and append them to the working and master sets. */
  function AppendRecords(t: Table, raws: seq<Record>): (r: Table)
    requires Sound(t)
    ensures Sound(r)
    ensures r == t.(masterData := r.masterData, data := r.data, recordIdCounter := r.recordIdCounter)
    ensures r.recordIdCounter == t.recordIdCounter + |raws|
    ensures r.masterData == t.masterData + ScrubData(t.recordIdCounter, t.columns, raws).entries
    ensures r.data == t.data + ScrubData(t.recordIdCounter, t.columns, raws).entries
    ensures multiset(r.data) == multiset(t.data) + multiset(r.masterData[|t.masterData|..])
  {
    var s := ScrubData(t.recordIdCounter, t.columns, raws);
    AppendScrubbedFresh(t.masterData, t.recordIdCounter, t.columns, raws);
    var r := t.(masterData := t.masterData + s.entries, data := t.data + s.entries, recordIdCounter := s.next);
    assert r.masterData[|t.masterData|..] == s.entries;
    r
  }

  /** The second half of `addData`: re-filter by the current query, re-sort
      when a sort column is set, recount the pages. */
  function Refresh(t: Table): (r: Table)
    requires Sound(t)
    requires t.features.pagination ==> t.pager.currentPageSize >= 1 && t.pager.currentPage >= 1
    requires !t.features.pagination ==> t.pager.currentPage == 1 && t.pager.totalPages == 1
    ensures Valid(r)
    ensures r == t.(data := r.data, pager := r.pager)
    ensures r.data == RefreshRows(t) && r.pager.currentPageSize == t.pager.currentPageSize
    ensures t.features.searchable ==> forall e :: e in r.data <==> e in t.masterData && Search.Keeps(t.searchBy, e)
    ensures !t.features.searchable ==> multiset(r.data) == multiset(t.data)
    ensures t.features.pagination && |r.data| > 0 ==>
              r.pager.currentPage == if t.pager.currentPage > r.pager.totalPages then r.pager.totalPages else t.pager.currentPage
  {
    var t1 := t.(data := RefreshRows(t));
    RecountValid(t1);
    UpdateResultsCount(t1)
  }

  /** The working set `addData` leaves: filtered again, sorted again when a
      sort column is set. */
  function RefreshRows(t: Table): (rows: seq<Entry>)
    requires Sound(t)
    ensures multiset(rows) <= multiset(t.masterData)
    ensures t.features.searchable ==> forall e :: e in rows <==> e in t.masterData && Search.Keeps(t.searchBy, e)
    ensures !t.features.searchable ==> multiset(rows) == multiset(t.data)
    ensures SortActive(t) && t.features.sortable ==> OrderedBy(rows, t.sortBy.value, t.reverse)
    ensures !SortActive(t) && t.features.searchable ==> Search.IsSubsequence(rows, t.masterData)
    ensures !SortActive(t) && !t.features.searchable ==> rows == t.data
  {
    var filtered := FilterData(t, t.searchBy);
    assert multiset(filtered) <= multiset(t.masterData) by {
      if t.features.searchable { Search.SubsequenceMultiset(filtered, t.masterData); }
    }
    if SortActive(t) then
      var sorted := SortData(t.features.sortable, filtered, t.sortBy.value, t.reverse);
      assert forall e :: e in sorted <==> e in filtered by {
        forall e ensures e in sorted <==> e in filtered {
          assert e in sorted <==> e in multiset(sorted);
          assert e in filtered <==> e in multiset(filtered);
        }
      }
      sorted
    else filtered
  }

  /** `addData`: normalises and appends new records to both sets, then
      re-filters by the current query and re-sorts whenever a sort column
      is set. The current page is kept, clamped to the new page count. */
  function AddData(t: Table, raws: seq<Record>): (r: Table)
    requires Valid(t)
    ensures Valid(r)
    ensures r.recordIdCounter == t.recordIdCounter + |raws|
    ensures r.masterData == t.masterData + ScrubData(t.recordIdCounter, t.columns, raws).entries
    ensures t.features.searchable ==> forall e :: e in r.data <==> e in r.masterData && Search.Keeps(t.searchBy, e)
    ensures !t.features.searchable ==> multiset(r.data) == multiset(t.data) + multiset(r.masterData[|t.masterData|..])
    ensures r == t.(masterData := r.masterData, data := r.data, recordIdCounter := r.recordIdCounter, pager := r.pager)
    ensures r.pager.currentPageSize == t.pager.currentPageSize
    ensures SortActive(t) && t.features.sortable ==> OrderedBy(r.data, t.sortBy.value, t.reverse)
    ensures !SortActive(t) && t.features.searchable ==> Search.IsSubsequence(r.data, r.masterData)
    ensures !SortActive(t) && !t.features.searchable ==> r.data == t.data + ScrubData(t.recordIdCounter, t.columns, raws).entries
    ensures t.features.pagination && |r.data| > 0 ==>
              r.pager.currentPage == if t.pager.currentPage > r.pager.totalPages then r.pager.totalPages else t.pager.currentPage
  {
    Refresh(AppendRecords(t, raws))
  }

  /** `removeAllData`: empties both sets and returns to page 1. The id counter
      is not reset. */
  function RemoveAllData(t: Table): (r: Table)
    requires Valid(t)
    ensures Valid(r)
    ensures r == t.(data := [], masterData := [], pager := r.pager)
    ensures r.recordIdCounter == t.recordIdCounter && r.searchBy == t.searchBy && r.sortBy == t.sortBy
    ensures r.pager.currentPageSize == t.pager.currentPageSize
    ensures r.pager.currentPage == 1
    ensures t.features.pagination ==> r.pager.totalPages == 1 && r.pager.resultsLabel == "No items"
  {
    var t1 := AtPage(t.(data := [], masterData := []), 1);
    RecountValid(t1);
    UpdateResultsCount(t1)
  }

  /** `updateColumns`: replaces the columns without normalising the stored
      records again, and returns to page 1. */
  function UpdateColumns(t: Table, newColumns: seq<string>): (r: Table)
    requires Valid(t)
    ensures Valid(r)
    ensures r == t.(columns := newColumns, pager := r.pager)
    ensures r.pager.currentPageSize == t.pager.currentPageSize
    ensures r.data == t.data && r.masterData == t.masterData && r.recordIdCounter == t.recordIdCounter
    ensures r.pager.currentPage == 1
  {
    var t1 := AtPage(t.(columns := newColumns), 1);
    RecountValid(t1);
    UpdateResultsCount(t1)
  }

  /** The page-size selector: takes the new size and keeps the current page,
      clamped to the new page count. */
  function ChangePageSize(t: Table, size: nat): (r: Table)
    requires Valid(t) && t.features.pagination && size >= 1
    ensures Valid(r)
    ensures r == t.(pager := r.pager)
    ensures r.pager.currentPageSize == size
    ensures r.pager.totalPages == Paging.TotalPages(|t.data|, size)
    ensures r.pager.currentPage == if t.pager.currentPage > r.pager.totalPages then r.pager.totalPages else t.pager.currentPage
  {
    var t1 := t.(pager := t.pager.(currentPageSize := size));
    RecountValid(t1);
    UpdateResultsCount(t1)
  }

  /** The page selector and the paginator: go to the chosen page, clamped to
      the last page. */
  function GoToPage(t: Table, page: int): (r: Table)
    requires Valid(t) && t.features.pagination && page >= 1
    ensures Valid(r)
    ensures r == t.(pager := r.pager)
    ensures r.pager.totalPages == t.pager.totalPages
    ensures r.pager.currentPageSize == t.pager.currentPageSize
    ensures r.pager.currentPage == if page > t.pager.totalPages then t.pager.totalPages else page
  {
    var t1 := AtPage(t, page);
    RecountValid(t1);
    UpdateResultsCount(t1)
  }

  /** The search handlers (Enter key or button): filter by the query, record
      it, re-sort only for a descending sort, return to page 1. */
  function SearchFor(t: Table, query: string): (r: Table)
    requires Valid(t) && t.features.searchable
    ensures Valid(r)
    ensures r == t.(data := r.data, searchBy := query, pager := r.pager)
    ensures r.pager.currentPage == 1 && r.pager.currentPageSize == t.pager.currentPageSize
    ensures SortActive(t) && t.reverse && t.features.sortable ==> OrderedBy(r.data, t.sortBy.value, true)
    ensures forall e :: e in r.data <==> e in t.masterData && Search.Keeps(query, e)
    ensures !(SortActive(t) && t.reverse) ==> Search.IsSubsequence(r.data, t.masterData)
    ensures query == "" && !(SortActive(t) && t.reverse) ==> r.data == t.masterData
  {
    var rows := SearchRows(t, query);
    var t1 := AtPage(t.(data := rows, searchBy := query), 1);
    RecountValid(t1);
    UpdateResultsCount(t1)
  }

  /** The working set the search handlers leave: the matches in master
      order, sorted again only for a descending sort. */
  function SearchRows(t: Table, query: string): (rows: seq<Entry>)
    requires t.features.searchable
    ensures multiset(rows) <= multiset(t.masterData)
    ensures forall e :: e in rows <==> e in t.masterData && Search.Keeps(query, e)
    ensures !(SortActive(t) && t.reverse) ==> Search.IsSubsequence(rows, t.masterData)
    ensures query == "" && !(SortActive(t) && t.reverse) ==> rows == t.masterData
    ensures SortActive(t) && t.reverse && t.features.sortable ==> OrderedBy(rows, t.sortBy.value, true)
  {
    var filtered := Search.Filter(t.masterData, query);
    if SortActive(t) && t.reverse then
      var sorted := SortData(t.features.sortable, filtered, t.sortBy.value, t.reverse);
      assert forall e :: e in sorted <==> e in filtered by {
        forall e ensures e in sorted <==> e in filtered {
          assert e in sorted <==> e in multiset(sorted);
          assert e in filtered <==> e in multiset(filtered);
        }
      }
      sorted
    else filtered
  }

  /** The header click on column `col`: the current ascending column turns
      descending; any other click sorts that column ascending. Returns to
      page 1. */
  function SortClick(t: Table, col: nat): (r: Table)
    requires Valid(t) && t.features.sortable && col < |t.columns|
    ensures Valid(r)
    ensures r.sortBy == Some(t.columns[col])
    ensures r.reverse <==> t.sortBy == Some(t.columns[col]) && !t.reverse
    ensures r == t.(data := r.data, sortBy := r.sortBy, reverse := r.reverse, pager := r.pager)
    ensures multiset(r.data) == multiset(t.data)
    ensures r.pager.currentPage == 1 && r.pager.currentPageSize == t.pager.currentPageSize
  {
    var name := t.columns[col];
    var t1 := if t.sortBy == Some(name) && !t.reverse then t.(reverse := true)
              else t.(sortBy := Some(name), reverse := false);
    var sorted := SortData(t.features.sortable, t.data, name, t1.reverse);
    var t2 := AtPage(t1.(data := sorted), 1);
    RecountValid(t2);
    UpdateResultsCount(t2)
  }

  /** After a header click on a column whose values are all of one kind, the
      working set is ordered by that column in the direction the toggle chose. */
  lemma SortClickOrders(t: Table, col: nat, k: Ordering.Kind)
    requires Valid(t) && t.features.sortable && col < |t.columns|
    requires Ordering.OfKind(Ordering.Comparator(t.columns[col], false), t.data, k)
    ensures var r := SortClick(t, col);
            Ordering.Sorted(Ordering.Comparator(t.columns[col], r.reverse), r.data)
  {
    var r := SortClick(t, col);
    var c := Ordering.Comparator(t.columns[col], r.reverse);
    assert Ordering.OfKind(c, t.data, k);
    Ordering.InsertionSortSorted(c, t.data, k);
  }

  /** `getRecordById`: the record of the master entry whose id reads as `id`,
      the last such one since the loop does not stop at a match, or the empty
      object when there is none. */
  function GetRecordById(master: seq<Entry>, id: string): (r: Record)
    ensures (forall e :: e in master ==> Decimal.NatToString(e.id) != id) ==> r == map[]
    ensures forall i :: 0 <= i < |master| && Decimal.NatToString(master[i].id) == id
              && (forall j :: i < j < |master| ==> Decimal.NatToString(master[j].id) != id)
              ==> r == master[i].record
    decreases |master|
  {
    if master == [] then map[]
    else
      var last := master[|master| - 1];
      if Decimal.NatToString(last.id) == id then last.record
      else
        var front := master[..|master| - 1];
        assert forall e :: e in front ==> e in master;
        GetRecordById(front, id)
  }

  /** The entries currently shown (`data.slice(startFeature, endFeature)`):
      the window of the working set with pagination, all of it without. */
  function CurrentRows(t: Table): (rows: seq<Entry>)
    requires Valid(t)
    ensures t.features.pagination ==> |rows| <= t.pager.currentPageSize
    ensures t.features.pagination ==> rows == Paging.PageSlice(t.data, t.pager.currentPageSize, t.pager.currentPage)
    ensures !t.features.pagination ==> rows == t.data
    ensures multiset(rows) <= multiset(t.masterData)
  {
    if t.features.pagination then
      var p := t.pager;
      var rows := t.data[p.startFeature..p.endFeature];
      SliceMultiset(t.data, p.startFeature, p.endFeature);
      assert rows == Paging.PageSlice(t.data, p.currentPageSize, p.currentPage);
      rows
    else
      t.data
  }

  /** A window of a sequence holds no more copies of anything than the sequence. */
  lemma SliceMultiset(data: seq<Entry>, a: nat, b: nat)
    requires a <= b <= |data|
    ensures multiset(data[a..b]) <= multiset(data)
  {
    assert data == data[..a] + data[a..b] + data[b..];
  }

  // ---------------------------------------------------------------------------
  // Properties across commands
  // ---------------------------------------------------------------------------

  /** Ids are unique, so `getRecordById` with the decimal form of an id finds
      exactly that entry's record. */
  lemma GetRecordByIdFinds(t: Table, i: nat)
    requires Valid(t) && i < |t.masterData|
    ensures GetRecordById(t.masterData, Decimal.NatToString(t.masterData[i].id)) == t.masterData[i].record
  {
    var m := t.masterData;
    forall j | i < j < |m|
      ensures Decimal.NatToString(m[j].id) != Decimal.NatToString(m[i].id)
    {
      Decimal.NatToStringInjective(m[j].id, m[i].id);
    }
  }

  /** An id the table has never issued finds nothing. */
  lemma GetRecordByIdMisses(t: Table, n: nat)
    requires Valid(t) && n >= t.recordIdCounter
    ensures GetRecordById(t.masterData, Decimal.NatToString(n)) == map[]
  {
    forall e | e in t.masterData
      ensures Decimal.NatToString(e.id) != Decimal.NatToString(n)
    {
      Decimal.NatToStringInjective(e.id, n);
    }
  }

  /** Ids are never reused: records added after `removeAllData` get ids no
      record held before it had. */
  lemma IdsNeverReused(t: Table, raws: seq<Record>)
    requires Valid(t)
    ensures var r := AddData(RemoveAllData(t), raws);
            forall e, f :: e in t.masterData && f in r.masterData ==> e.id < t.recordIdCounter <= f.id
  {
    var cleared := RemoveAllData(t);
    var r := AddData(cleared, raws);
    assert r.masterData == ScrubData(t.recordIdCounter, t.columns, raws).entries;
    ScrubbedIdsAtLeast(t.recordIdCounter, t.columns, raws);
  }

  /** The header toggle cycles: clicking a column that is not the current
      ascending sort column three times gives ascending, descending, ascending. */
  lemma SortToggleCycles(t: Table, col: nat)
    requires Valid(t) && t.features.sortable && col < |t.columns|
    requires t.sortBy != Some(t.columns[col]) || t.reverse
    ensures var t1 := SortClick(t, col);
            var t2 := SortClick(t1, col);
            var t3 := SortClick(t2, col);
            && !t1.reverse && t2.reverse && !t3.reverse
            && t1.sortBy == t2.sortBy == t3.sortBy == Some(t.columns[col])
  {
    var t1 := SortClick(t, col);
    var t2 := SortClick(t1, col);
  }

  /** The search quirk: after an ascending sort, searching drops the order
      and shows the matches in master order, whereas adding data re-sorts. */
  lemma SearchForgetsAscendingSort(t: Table, query: string)
    requires Valid(t) && t.features.searchable && SortActive(t) && !t.reverse
    ensures Search.IsSubsequence(SearchFor(t, query).data, t.masterData)
    ensures query == "" ==> SearchFor(t, query).data == t.masterData
  {
  }
}
