/**
 A concrete scenario of the engine on a small table.
 */
module Scenarios {
  import opened Records
  import opened Datatable
  import Decimal
  import Ordering
  import Paging

  function Bob(): Record { map["name" := Str("Bob"), "age" := Num(30)] }
  function Al(): Record { map["name" := Str("Al"), "age" := Num(25)] }

  /** Neither record has a blank column, so normalising leaves both alone. */
  lemma NothingToScrub()
    ensures ScrubRecord(Bob(), ["name", "age"]) == Bob()
    ensures ScrubRecord(Al(), ["name", "age"]) == Al()
  {
    var b := ScrubRecord(Bob(), ["name", "age"]);
    assert forall k :: Get(b, k) == Get(Bob(), k);
    assert b.Keys == Bob().Keys;
    var a := ScrubRecord(Al(), ["name", "age"]);
    assert forall k :: Get(a, k) == Get(Al(), k);
    assert a.Keys == Al().Keys;
  }

  /** Loading Bob then Al gives them ids 1 and 2, in that order. */
  lemma LoadTwo(t: Table)
    requires t == Init(Features(true, true, true), ["name", "age"], [Bob(), Al()], [5, 10, 20], 1)
    ensures t.data == [Entry(1, Bob()), Entry(2, Al())]
    ensures t.pager.currentPageSize == 1 && t.sortBy == None
  {
    NothingToScrub();
  }

  /** "Al" sorts before "Bob". */
  lemma AlBeforeBob()
    ensures Ordering.InsertionSort(Ordering.Comparator("name", false), [Entry(1, Bob()), Entry(2, Al())])
         == [Entry(2, Al()), Entry(1, Bob())]
  {
    var c := Ordering.Comparator("name", false);
    assert Ordering.StrLess("Al", "Bob");
    assert Ordering.Compare(c, Entry(1, Bob()), Entry(2, Al())) == 1;
    assert Ordering.InsertionSort(c, [Entry(2, Al())]) == [Entry(2, Al())];
  }

  /** Two entries, one per page, on page 1. */
  lemma FirstOfTwoPages()
    ensures Paging.ComputeWindow(2, 1, 1) == Paging.Window(1, 2, 0, 1)
    ensures Paging.ResultsLabel(2, 0, 1) == "1 - 1 of 2 items"
  {
    assert Paging.TotalPages(2, 1) == 2;
    assert Decimal.IntToString(1) == "1";
    assert Decimal.NatToString(2) == "2";
  }

  /** The header click on "name" sorts the loaded table ascending. */
  lemma ClickNameSorts(t: Table)
    requires t == Init(Features(true, true, true), ["name", "age"], [Bob(), Al()], [5, 10, 20], 1)
    ensures SortClick(t, 0).data == [Entry(2, Al()), Entry(1, Bob())]
    ensures SortClick(t, 0).pager.currentPage == 1 && SortClick(t, 0).pager.currentPageSize == 1
  {
    LoadTwo(t);
    AlBeforeBob();
  }

  /** Two people, one per page, sorted by name: page 1 shows Al, there are
      two pages, and the label reads "1 - 1 of 2 items". */
  lemma SortByNameOnePerPage(t: Table)
    requires t == Init(Features(true, true, true), ["name", "age"], [Bob(), Al()], [5, 10, 20], 1)
    ensures var sorted := SortClick(t, 0);
            && CurrentRows(sorted) == [Entry(2, Al())]
            && sorted.pager.totalPages == 2
            && sorted.pager.resultsLabel == "1 - 1 of 2 items"
  {
    ClickNameSorts(t);
    FirstOfTwoPages();
  }
}
