# Dynamic Bootstrap Table — the data-view engine in Dafny

This project models the data-view engine of the jQuery plugin
`Datatable` (`dist/dynamic-bootstrap-table.js`, version 0.1.4). The DOM
and jQuery calls are removed. What is left is a sequential state machine
over in-memory sequences:

- the master set `masterData` and the working set `data`;
- the column list, the id counter `recordIdCounter`, the sort column
  `sortBy` with its direction `reverse`, and the query `searchBy`;
- the page fields `currentPage`, `currentPageSize` and `totalPages`, the
  window `[startFeature, endFeature)` of the working set that the current
  page shows, and the results label.

The state is the immutable `Datatable.Table` value. Each command is a pure
function from one state to the next:

- initialisation (`Init`);
- `addData`, `removeAllData` and `updateColumns`;
- the state-changing halves of the event handlers: page size, page select
  and paginator, search, and header click.

Modules:

| module | file | what it models |
|---|---|---|
| `Decimal` | decimal.dfy | `toString` of integers (record ids, numeric fields) |
| `Records` | records.dfy | field values, records, `{id, record}` entries, the normaliser `scrubData` |
| `Search` | search.dfy | `filter`: the record predicate and the order-preserving grep |
| `Ordering` | ordering.dfy | JavaScript `<` on field values, `dynamicSort`, the stable sort |
| `Paging` | paging.dfy | the page arithmetic and the label of `updateResultsCount` |
| `Datatable` | datatable.dfy | the table state, its invariant and every command |
| `Scenarios` | scenarios.dfy | a concrete scenario: two records, one per page, sorted by name |

The state invariant `Datatable.Valid` holds after every command. It says:

- ids in the master set are unique and below the counter;
- the working set is drawn from the master set (multiset inclusion);
- with pagination on, `1 <= currentPage <= totalPages`, `totalPages` is the
  ceiling of `|data| / currentPageSize` (1 for an empty set), the window
  lies inside the working set, and the label matches the window.

Behaviour of the source that the model keeps on purpose:

- After a search, the sort is applied again only when `sortBy && reverse`
  (lines 98 and 111). An ascending sort is therefore lost: the matches come
  back in master order (`Datatable.SearchForgetsAscendingSort`). `addData`
  sorts again whenever `sortBy` is set (line 139).
- `filter` tests every key of the record, not only the configured columns
  (line 485). A numeric field matches when its decimal form equals the query.
- The window, the clamp and the label are recomputed only when pagination is
  on (line 359). Without pagination the whole working set is shown.
- `removeAllData` does not reset `recordIdCounter`, so ids are never reused
  (`Datatable.IdsNeverReused`).
- `getRecordById` uses `$.each` with `return;`, which does not stop the loop.
  The last matching entry therefore wins. Because ids are unique, that is
  the only matching entry (`Datatable.GetRecordByIdFinds`). A miss returns
  the empty object, as in the source.
- A search only happens when searching is enabled, a header click only when
  sorting is enabled, and page-size or page changes only when pagination is
  on. The source binds those handlers only in those cases (lines 64, 93 and
  296), so each command requires its flag.

## Model

| member | source | states |
|---|---|---|
| Decimal.NatToString | dist/dynamic-bootstrap-table.js:175 | the decimal form of an id is non-empty and all digits, with at least two digits from 10 up |
| Decimal.IntToString | dist/dynamic-bootstrap-table.js:493 | the decimal form of a number is non-empty and starts with a digit exactly when the number is not negative |
| Decimal.ParseNatToString | dist/dynamic-bootstrap-table.js:175 | the decimal form of a natural number parses back to it, so `toString` of ids loses nothing |
| Decimal.NatToStringInjective | dist/dynamic-bootstrap-table.js:506 | two ids have the same decimal form exactly when they are equal, so the string comparison in `getRecordById` is comparison of ids |
| Decimal.IntToStringInjective | dist/dynamic-bootstrap-table.js:493 | the decimal form of an integer field determines the integer |
| Records.ScrubRecord | dist/dynamic-bootstrap-table.js:168-173 | a configured column that is null or undefined becomes `''`; every other key keeps its value; the keys become the old keys plus the columns |
| Records.ScrubData | dist/dynamic-bootstrap-table.js:164-182 | the output has one entry per input record; entry i has id `counter+i` and the scrubbed record i; the counter advances by the input length |
| Records.AppendScrubbedFresh | dist/dynamic-bootstrap-table.js:174-179 | appending newly normalised entries to a set whose ids are unique and below the counter keeps ids unique and below the new counter |
| Records.ScrubbedIdsAtLeast | dist/dynamic-bootstrap-table.js:175-179 | every id one normalisation issues is at least the counter it started from |
| Search.Lower | dist/dynamic-bootstrap-table.js:487 | case folding for the `i` flag keeps the length and folds each character |
| Search.KeepMatching | dist/dynamic-bootstrap-table.js:481-499 | the grep keeps an order-preserving subsequence; an entry is kept exactly when it is in the input and some field of its record matches; a kept entry keeps all its copies and a dropped one keeps none |
| Search.Filter | dist/dynamic-bootstrap-table.js:477-502 | the filter restarts from the master set; the empty query returns all of it; otherwise the result is the subsequence of matching entries, each with as many copies as in the master set |
| Ordering.StrLessTransitive | dist/dynamic-bootstrap-table.js:522 | string `<` is transitive |
| Ordering.StrLessTotal | dist/dynamic-bootstrap-table.js:522 | of two different strings, one is `<` the other |
| Ordering.StrLessAsymmetric | dist/dynamic-bootstrap-table.js:522 | `a < b` and `b < a` never both hold for strings |
| Ordering.LessTotal | dist/dynamic-bootstrap-table.js:522 | two different strings, or two different numbers, are ordered one way or the other |
| Ordering.NotLessTransitive | dist/dynamic-bootstrap-table.js:522 | "not greater" is transitive among values of one kind |
| Ordering.DynamicSort | dist/dynamic-bootstrap-table.js:515-520 | the order is descending exactly when the property starts with '-', and the property is the field name with that '-' in front when descending |
| Ordering.SourceComparator | dist/dynamic-bootstrap-table.js:470-473 | as written, `sort` builds a descending comparator on `field` when `reverse`; otherwise the comparator is descending exactly when the column name starts with '-', and reads the name without that '-' |
| Ordering.SourceComparatorAgrees | dist/dynamic-bootstrap-table.js:468-476 | the comparator the source builds equals the intended one (field `field`, descending exactly when `reverse`) for every descending sort and for every column not starting with '-' |
| Ordering.Compare | dist/dynamic-bootstrap-table.js:521-524 | the comparator returns -1, 0 or 1; it is 0 exactly when neither key is less; it is negative exactly when the first key comes first in the chosen direction |
| Ordering.CompareAntisymmetric | dist/dynamic-bootstrap-table.js:522-523 | swapping the operands negates the comparison |
| Ordering.CompareMirror | dist/dynamic-bootstrap-table.js:516-523 | the descending comparator equals the ascending one with the operands swapped |
| Ordering.CompareTransitive | dist/dynamic-bootstrap-table.js:522-523 | for keys of one kind, "not after" is transitive |
| Ordering.CompareEqualTransitive | dist/dynamic-bootstrap-table.js:522-523 | for keys of one kind, comparing equal is transitive |
| Ordering.Insert | dist/dynamic-bootstrap-table.js:471-473 | one insertion step adds exactly the inserted entry to the multiset |
| Ordering.InsertionSort | dist/dynamic-bootstrap-table.js:471-473 | the sort returns a permutation of its input |
| Ordering.InsertionSortSorted | dist/dynamic-bootstrap-table.js:468-476 | when every key has one kind, the output is ordered: no entry compares after a later one |
| Ordering.InsertionSortStable | dist/dynamic-bootstrap-table.js:471-473 | when every key of the input and the key compared against have one kind, the sort is stable: the entries that tie with that key keep their relative order |
| Ordering.SortedUnique | dist/dynamic-bootstrap-table.js:471-473 | under a comparator that is strict on the entries, only one ordered arrangement of them exists |
| Ordering.DescendingMirrorsAscending | dist/dynamic-bootstrap-table.js:470-474 | for distinct string or number keys, the descending sort is the ascending sort reversed |
| Ordering.SourceComparatorMisreadsDashColumn | dist/dynamic-bootstrap-table.js:473 | an ascending sort on column "-x" builds a comparator on field "x", descending |
| Ordering.SourceSortMisordersDashColumn | dist/dynamic-bootstrap-table.js:470-474 | with the source's comparator, sorting two rows ascending by "-x" yields an order that is not ascending by "-x" |
| Paging.TotalPages | dist/dynamic-bootstrap-table.js:360-367 | the page count is at least 1, is 1 for an empty set, and is the ceiling of length over page size: `(t-1)*size < len <= t*size` |
| Paging.ComputeWindow | dist/dynamic-bootstrap-table.js:360-378 | the page is clamped to the page count, and reset to 1 for an empty set; `start = (page-1)*size`; `end` is the length on the last page and `start+size` otherwise; from a page of at least 1, `1 <= page <= totalPages` and `0 <= start <= end <= len` |
| Paging.WindowBounds | dist/dynamic-bootstrap-table.js:373-378 | the window of any page from 1 to the last lies inside the data |
| Paging.ResultsLabel | dist/dynamic-bootstrap-table.js:380-393 | the label is "No items" exactly when the working set is empty |
| Paging.PageSlice | dist/dynamic-bootstrap-table.js:214 | a page shows at most `size` entries |
| Paging.ConsecutivePages | dist/dynamic-bootstrap-table.js:373-377 | each page starts where the previous one ends |
| Paging.PagesUpToPrefix | dist/dynamic-bootstrap-table.js:373-378 | pages 1..k shown in order are exactly the prefix that ends at page k's end |
| Paging.PagesTile | dist/dynamic-bootstrap-table.js:373-378 | pages 1..totalPages shown in order reproduce the working set, with no gap and no overlap |
| Datatable.Recount | dist/dynamic-bootstrap-table.js:359-393 | recounting keeps the page size, sets the page count, resets the page to 1 for an empty set and otherwise clamps it, and leaves the page fields consistent with the working set |
| Datatable.UpdateResultsCount | dist/dynamic-bootstrap-table.js:356-395 | only the page fields change; without pagination nothing changes; with it, from a page of at least 1, the page count, the clamped page, the window and the label agree with the working set, and the page size is kept |
| Datatable.RecountValid | dist/dynamic-bootstrap-table.js:359-378 | recounting a table whose ids and sets are sound, from a page of at least 1, establishes the invariant |
| Datatable.SortData | dist/dynamic-bootstrap-table.js:468-476 | `sort` permutes the working set; it is a no-op when sorting is disabled; otherwise, when the column's values have one kind, the result is ordered by the column in the requested direction |
| Datatable.FilterData | dist/dynamic-bootstrap-table.js:477-502 | with searching enabled the result is the order-preserving subsequence of matching master entries; with searching disabled the working set is left alone |
| Datatable.Init | dist/dynamic-bootstrap-table.js:53-91 | after initialisation the invariant holds; entry i has id i+1 and the scrubbed record i; master and working sets are equal; the page is 1 with no sort and no query; the page size is the given one, else the first of `pageSizes`, or the data length without pagination |
| Datatable.AppendRecords | dist/dynamic-bootstrap-table.js:134-137 | the normalised records are appended at the end of both sets and the counter advances by their number; nothing else changes; ids stay unique and below the counter |
| Datatable.RefreshRows | dist/dynamic-bootstrap-table.js:138-141 | with searching enabled the working set is exactly the master entries that match the query; with a sort column set it is ordered by that column in the current direction (for one-kind columns); without one it is in master order after a search, and the unchanged working set otherwise |
| Datatable.Refresh | dist/dynamic-bootstrap-table.js:138-142 | after re-filtering, re-sorting and recounting the invariant holds, only the working set and page fields change, and the page is kept, clamped to the new page count |
| Datatable.AddData | dist/dynamic-bootstrap-table.js:134-146 | the invariant is kept; the master set gains the normalised records at its end and the counter advances by their number; with searching enabled the working set is exactly the matching master entries, so a new record that does not match stays hidden; with a sort column set the working set is ordered by it (for one-kind columns); without one it is in master order, or the old working set followed by the new entries when searching is off; columns, sort, query and page size are unchanged and the page is kept, clamped |
| Datatable.RemoveAllData | dist/dynamic-bootstrap-table.js:147-155 | both sets become empty, the page is 1 of 1 with the label "No items"; the id counter, the query, the sort column and every other field except the page fields are unchanged |
| Datatable.UpdateColumns | dist/dynamic-bootstrap-table.js:156-163 | the columns are replaced and only the page fields otherwise change: records, counter and page size are untouched; the page is 1 |
| Datatable.ChangePageSize | dist/dynamic-bootstrap-table.js:71-76 | only the page fields change; the page size is the new one, the page count is recomputed for it, and the current page is kept unless it now exceeds the page count, in which case it becomes the last page |
| Datatable.GoToPage | dist/dynamic-bootstrap-table.js:79-83 | the page select (and, identically, the paginator at lines 328-333) moves to the chosen page, clamped to the last; only the page fields change, and the page count and size stay |
| Datatable.SearchRows | dist/dynamic-bootstrap-table.js:96-100 | the rows after a search are exactly the matching master entries; under a descending sort they are ordered by the sort column descending (for one-kind columns); otherwise they come in master order |
| Datatable.SearchFor | dist/dynamic-bootstrap-table.js:94-119 | the search records the query, returns to page 1, keeps the invariant, and leaves exactly the matching master entries, ordered by the sort column under a descending sort and in master order otherwise; the empty query restores the master set unless a descending sort is active; nothing but the working set, the query and the page fields changes |
| Datatable.SortClick | dist/dynamic-bootstrap-table.js:296-315 | the clicked column becomes the sort column; the order is descending exactly when that column was already sorted ascending; the working set is permuted; the page is 1; nothing but the working set, the sort fields and the page fields changes |
| Datatable.SortClickOrders | dist/dynamic-bootstrap-table.js:302-309 | after a header click on a column whose values have one kind, the working set is ordered by that column in the direction the toggle chose |
| Datatable.SortToggleCycles | dist/dynamic-bootstrap-table.js:302-310 | three clicks on a column that is not the current ascending sort give ascending, then descending, then ascending |
| Datatable.SearchForgetsAscendingSort | dist/dynamic-bootstrap-table.js:98-100 | with an ascending sort active, a search leaves the matches in master order, and the empty query returns the master set unsorted |
| Datatable.GetRecordById | dist/dynamic-bootstrap-table.js:503-512 | with no id matching, the result is the empty object; otherwise it is the record of the last entry whose id's decimal form equals the argument |
| Datatable.GetRecordByIdFinds | dist/dynamic-bootstrap-table.js:503-512 | in a valid table, looking up the decimal form of an entry's id returns that entry's record |
| Datatable.GetRecordByIdMisses | dist/dynamic-bootstrap-table.js:503-512 | an id the counter has not yet issued finds the empty object |
| Datatable.IdsNeverReused | dist/dynamic-bootstrap-table.js:147-155 | records added after `removeAllData` get ids at or above the counter, and every id held before was below it |
| Datatable.CurrentRows | dist/dynamic-bootstrap-table.js:214 | the rows shown are the current page's slice with pagination (at most a page), the whole working set without, and always drawn from the master set |
| Scenarios.SortByNameOnePerPage | dist/dynamic-bootstrap-table.js:302-393 | loading Bob (30) and Al (25) with one row per page and clicking "name" shows Al on page 1 of 2, labelled "1 - 1 of 2 items" |

## Findings

| source | as written | input that shows it | evidently intended | confidence | as-written member | corrected member |
|---|---|---|---|---|---|---|
| dist/dynamic-bootstrap-table.js:473 | `sort(field, false)` calls `dynamicSort(field)`, and `dynamicSort` reads a leading '-' of its argument as "descending" and strips it | a header click that sorts the column named "-x" ascending: the comparator reads field "x" and sorts it descending | an ascending sort on a column sorts by that column, ascending, whatever its name | medium; not executed | Ordering.SourceSortMisordersDashColumn | Datatable.SortData |

The engine uses the corrected comparator `Ordering.SortComparator`. The
two comparators agree for every descending sort and for every column whose
name does not start with '-' (`Ordering.SourceComparatorAgrees`).

## Left out

- Template generation, row HTML, header arrows, odd/even row classes and `addRowClasses` (lines 59-70, 183-243, 396-467): DOM string building.
- Column-width measurement and container sizing (lines 244-294): they depend on rendered geometry.
- The paginator widget and the page-select rendering (`updatePaginator`, `updatePageSelect`, `updatePageSizeSelect`, lines 318-355): a wrapper over an external widget. Only the state change of the paginator's page click is modelled, as `Datatable.GoToPage`.
- The jQuery plugin entry point, `$.extend` option merging, `openTable`, and the close and row-click callbacks (lines 22-36, 122-127, 131-133, 229-242): I/O and callback plumbing. `Init` starts from the prototype defaults (page 1, no sort, empty query, counter 1). Options that overwrite those internal fields are not modelled.
- `bindTemplate` (lines 527-533): unused, and it relies on regex replacement.
- The `console.warn` call at line 492: logging only.
- `scrubData` mutates the caller's objects (line 171) and stores them in the entries by reference. The model returns new values. Aliasing is therefore not modelled: in the source, re-adding an object that is already in the table blanks its null or undefined columns in the existing entry too.
- Records.Value: numbers are unbounded integers, while JavaScript numbers are IEEE doubles. From 10^21 up, `toString` uses exponent form (`"1e+21"`), so `Search.FieldMatches` differs from line 493 for such values. Integers above 2^53 are not all representable.
- Datatable.IdsNeverReused: ids are unbounded naturals. In the source, `recordIdCounter++` (line 179) stops changing at 2^53, so ids would repeat after that many records. The model does not represent that limit.
- Field values other than strings, integers, `null` and `undefined` (booleans, objects, non-integral numbers): JavaScript's number formatting is floating-point behaviour.
- Search.Filter: a string field matches when the query occurs in it ignoring ASCII case. This is what `new RegExp(query, "gi")` does for queries without regex metacharacters. Metacharacters, invalid patterns (which throw at line 487) and non-ASCII case folding are not modelled.
- Ordering.Compare: JavaScript's `<` is modelled for two strings and for two numbers. A pair of different kinds, or a pair involving `null` or `undefined`, counts as unordered (comparator 0). JavaScript would first convert such a value to a number: for example `'' < 5` holds, while any comparison with a non-numeric string or `undefined` is false.
- Ordering.InsertionSortStable: stability is proved only when all keys of the sorted column, and the key compared against, have one kind. With mixed kinds the comparator's ties are not transitive, and the order of ties is then not preserved: `[Str "b", Str "a", Num 1]` sorts to `[a, b, 1]`. All three entries tie with `Num 1`, because mixed kinds are unordered, yet `a` and `b` change places.
- Ordering.InsertionSortSorted: the ordering is proved only when all keys of the sorted column have one kind. With mixed kinds the comparator is not a consistent order, and JavaScript leaves the resulting order to the implementation.
- Datatable.SortClickOrders: same restriction to columns whose values have one kind.
- Ordering.StrLessTotal: characters are compared as Unicode code points. JavaScript compares UTF-16 code units, and the two orders differ only above U+FFFF.
- Datatable.GoToPage: requires a page of at least 1, which both the page select and the paginator always supply. The source does not clamp pages below 1.
- Datatable.ChangePageSize: requires a size of at least 1, since the options come from `pageSizes`. A `NaN` from `parseInt` is not modelled.
- Array sort: `Array.prototype.sort` is modelled as a stable insertion sort. ECMAScript 2019 and later require the sort to be stable.
