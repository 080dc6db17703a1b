# Table page view state, in Dafny

This project models the view-state controller of a single-page table viewer of
regulated-entity records (the `TablePage` component). The component holds four
groups of state:

- the loaded records (`data.data_items`);
- four filter strings: `releaseFilter`, `productFilter`, `featureTypeFilter` and `featureWildcard`;
- the sort state: the label `order` and the column `orderBy`;
- the pagination state: `page` and `rowsPerPage`.

On every render it derives the rows on screen. It first filters the records
(`filteredData`) and then slices one page out of them (`paginatedData`). Its
event handlers change the page, the page size, the sort and the filters.

The model is split into five modules, one per concern:

- `DataType` (`data_type.dfy`): the record, reduced to the five fields the logic
  reads. The other twenty text fields are kept as an opaque `otherFields`.
  It also holds the three sortable columns.
- `Text` (`text.dfy`): the string built-ins the page calls.
  - `toLowerCase`, over ASCII letters.
  - `includes`.
  - `localeCompare`, modelled as lexicographic order of code points (Unicode scalar values) (`Compare`), with
    proofs that it is antisymmetric and transitive.
- `TableView` (`table_view.dfy`): the pure derivations, as functions with lemmas.
  - The `filter` predicate (`Keeps`, `FilterItems`).
  - The `slice` (`Paginate`).
- `Sorting` (`sorting.dfy`): the comparator given to `Array.prototype.sort` and an
  in-place insertion sort on an `array`. The sort is proved to return a
  permutation, sorted by that comparator.
- `TablePage` (`table_page.dfy`): the class `TablePageState`.
  - Its fields are the component's state.
  - Its methods are the handlers, each with a `modifies` frame naming only the
    fields it sets.
  - `FilteredData()` and `PaginatedData()` are functions of the current state.

Two behaviours of the code are reproduced as written:

- The filter names do not match the fields they test:
  - `releaseFilter` tests `entity_type`;
  - `productFilter` tests `legal_name` (exact match);
  - `featureTypeFilter` tests `dba_name`;
  - `featureWildcard` tests `legal_name` (case-insensitive substring).
- The sort label is the opposite of the sort applied. A click sorts ascending
  exactly when the column was already active with the label "asc", and in that
  case it sets the label to "desc". Otherwise it sorts descending and sets the
  label to "asc". `HandleSort` states both facts: the new state is
  `NextSortState` of the old one, and the records end up sorted ascending
  exactly when the new label is `Desc`.

Sorting is not a step in deriving the visible rows. The code sorts the stored
array in place when a header is clicked, and later filtering sees the re-ordered
records. The model does the same (`HandleSort` modifies `items`). It proves that
re-sorting keeps the same records, so the filtered row count does not change.

The wildcard is a case-insensitive substring test, so "ace" does not match
"ACME": "ace" is not a substring of "acme".

Filter setters do not reset `page`, so after a filter narrows the rows the page
may lie past the last page. `Paginate` then returns no rows, and no error is
raised. `FilterWalkthrough` shows a page past the end being empty.

`SortWalkthrough` takes two records created a year apart. Two clicks on the
creation-time header first sort the rows ascending and then reverse them.

## Model

| member | source | states |
|---|---|---|
| `Text.ToLower` | src/pages/TablePage/TablePage.tsx:95 | the result has the input's length, lower-cases each ASCII letter in place, changes no other character, and contains no upper-case ASCII letter |
| `Text.SameUpToCaseIffLowerEqual` | src/pages/TablePage/TablePage.tsx:94-95 | two strings lower-case to the same string exactly when they differ only in the case of ASCII letters |
| `Text.ToUpperSameUpToCase` | src/pages/TablePage/TablePage.tsx:94-95 | upper-casing a string changes only its letter case |
| `Text.ToLowerIdempotent` | src/pages/TablePage/TablePage.tsx:95 | lower-casing twice gives the same result as lower-casing once |
| `Text.IncludesIffOccurs` | src/pages/TablePage/TablePage.tsx:95 | `includes` holds exactly when the needle occurs at some position of the haystack |
| `Text.Includes` | src/pages/TablePage/TablePage.tsx:95 | `includes`: every string includes the empty string, and a needle longer than the haystack is never included |
| `Text.IncludesEmpty` | src/pages/TablePage/TablePage.tsx:94-95 | every string includes the empty string, so an empty wildcard would keep every record even without its guard |
| `Text.Compare` | src/pages/TablePage/TablePage.tsx:82-83 | the comparison is -1, 0 or 1, and it is 0 exactly when the strings are equal |
| `Text.CompareAntisymmetric` | src/pages/TablePage/TablePage.tsx:81-83 | swapping the operands negates the comparison, so `b.localeCompare(a)` is the reverse order of `a.localeCompare(b)` |
| `Text.CompareTransitive` | src/pages/TablePage/TablePage.tsx:81-83 | if `a` sorts no later than `b` and `b` no later than `c`, then `a` sorts no later than `c` |
| `Text.CompareCommonPrefix` | src/pages/TablePage/TablePage.tsx:82-83 | a shared prefix does not change the comparison (timestamps are ordered by their first differing character) |
| `TableView.FilterItems` | src/pages/TablePage/TablePage.tsx:89-97 | the filtered data is no longer than the data, holds only records of the data, and every record in it passes every non-empty filter |
| `TableView.Keeps` | src/pages/TablePage/TablePage.tsx:90-96 | the callback handed to `filter`: with no filter set it keeps every record, and a record whose legal name is shorter than a non-empty wildcard is dropped |
| `TableView.FilterMembership` | src/pages/TablePage/TablePage.tsx:89-96 | a record is in the filtered data exactly when it is in the data and: `entity_type` equals a non-empty `releaseFilter`, `legal_name` equals a non-empty `productFilter`, `dba_name` equals a non-empty `featureTypeFilter`, and the lower-cased `legal_name` includes a non-empty lower-cased `featureWildcard` |
| `TableView.FilterCount` | src/pages/TablePage/TablePage.tsx:89-97 | each record appears in the filtered data as often as in the data when the filters keep it, and never otherwise |
| `TableView.FilterSelectsKept` | src/pages/TablePage/TablePage.tsx:89-97 | the filtered data is an order-preserving subsequence of the data, made of exactly the positions whose record passes the filters |
| `TableView.FilterConcat` | src/pages/TablePage/TablePage.tsx:89-97 | filtering a concatenation gives the concatenation of the filtered parts |
| `TableView.FilterAllEmpty` | src/pages/TablePage/TablePage.tsx:89-97 | when all four filter strings are empty, the filtered data is the data itself |
| `TableView.FilterPermutation` | src/pages/TablePage/TablePage.tsx:89-97 | filtering two orderings of the same records keeps the same records, so `filteredData.length` is the same |
| `TableView.WildcardIgnoresCase` | src/pages/TablePage/TablePage.tsx:94-95 | changing the ASCII letter case of the wildcard or of the legal name does not change whether the wildcard matches |
| `TableView.FilterIgnoresWildcardCase` | src/pages/TablePage/TablePage.tsx:94-95 | changing the letter case of the wildcard does not change the filtered data |
| `TablePage.TablePageState.FilteredData` | src/pages/TablePage/TablePage.tsx:89-97 | `filteredData` of the current state: no more rows than records, only records of the page, each passing the current filters |
| `TableView.Paginate` | src/pages/TablePage/TablePage.tsx:99-102 | a page has at most `rowsPerPage` rows; it is empty when `page * rowsPerPage` is past the end, without error; otherwise it has `min(rowsPerPage, n - page * rowsPerPage)` rows, and row `k` is filtered row `page * rowsPerPage + k` |
| `TablePage.TablePageState.PaginatedData` | src/pages/TablePage/TablePage.tsx:99-102 | `paginatedData` of the current state: at most `rowsPerPage` rows, row `k` being filtered row `page * rowsPerPage + k` |
| `TableView.PagesUpToIsPrefix` | src/pages/TablePage/TablePage.tsx:99-102 | pages `0 .. count - 1`, joined in order, are the first `count * rowsPerPage` filtered rows (fewer at the end) |
| `TableView.PageCount` | src/pages/TablePage/TablePage.tsx:198-203 | the number of pages the pagination control derives from `count` and `rowsPerPage` is 0 exactly when there are no rows (its bounds are `PageCountBounds`) |
| `TableView.PageCountBounds` | src/pages/TablePage/TablePage.tsx:198-203 | the page count, the ceiling of `filteredData.length / rowsPerPage`, is the least number of pages that holds every row |
| `TableView.PagesReassemble` | src/pages/TablePage/TablePage.tsx:99-102 | with `rowsPerPage > 0`, joining pages `0 .. ceil(n / rowsPerPage) - 1` gives back the filtered data exactly |
| `TableView.PagesBeforeCountNonEmpty` | src/pages/TablePage/TablePage.tsx:99-102 | a page is non-empty exactly when its index is below the page count |
| `TableView.RowOnItsPage` | src/pages/TablePage/TablePage.tsx:99-102 | filtered row `i` is shown on page `i / rowsPerPage`, at position `i % rowsPerPage` |
| `TablePage.TablePageState.PagesCoverFilteredData` | src/pages/TablePage/TablePage.tsx:99-102 | in every reachable state (page size 5, 10 or 15): the pages `0 .. PageCount - 1` of the filtered data give it back exactly, and the current page shows rows exactly when it is below the page count |
| `Sorting.ComparatorTotal` | src/pages/TablePage/TablePage.tsx:80-84 | for either direction, the comparator puts any two records in one order or the other |
| `Sorting.ComparatorTransitive` | src/pages/TablePage/TablePage.tsx:80-84 | for either direction, the comparator's order is transitive |
| `Sorting.ComparatorReflexive` | src/pages/TablePage/TablePage.tsx:80-84 | every record compares equal to itself |
| `Sorting.SortComparator` | src/pages/TablePage/TablePage.tsx:80-84 | the comparator passed to `sort` returns -1, 0 or 1, and 0 exactly when the two records agree on the column |
| `Sorting.SortInPlace` | src/pages/TablePage/TablePage.tsx:79-84 | after `data_items.sort(...)`, the array holds the same records (same multiset), and each record sorts no later than every record after it: ascending by the column when `isAsc`, descending otherwise |
| `Sorting.ReversePermutation` | src/pages/TablePage/TablePage.tsx:80-84 | reversing the records keeps the same records |
| `Sorting.SortedReverse` | src/pages/TablePage/TablePage.tsx:80-84 | a sequence is sorted ascending by a column exactly when its reverse is sorted descending by it |
| `Sorting.SortedPermutationUnique` | src/pages/TablePage/TablePage.tsx:79-84 | when no two records share a value in the column, there is only one sorted order of them |
| `Sorting.OppositeSortsReverse` | src/pages/TablePage/TablePage.tsx:75-85 | when no two records share a value in the column, sorting them one way and then the other reverses them |
| `TablePage.NextSortState` | src/pages/TablePage/TablePage.tsx:75-78 | after a click on `p`, `orderBy` is `p`, and `order` is "desc" exactly when the old state had `orderBy == p` and `order == "asc"` |
| `TablePage.RepeatedSortAlternates` | src/pages/TablePage/TablePage.tsx:75-78 | two clicks in a row on the same header sort in opposite directions, and the label cycles asc, desc, asc |
| `TablePage.TablePageState.constructor` | src/pages/TablePage/TablePage.tsx:40-49 | once the whole dataset is loaded: no filter, page 0, 10 rows per page, label "asc" on `created_dt`, and the filtered data is the loaded data |
| `TablePage.TablePageState.HandleChangePage` | src/pages/TablePage/TablePage.tsx:60-62 | only `page` changes; a page past the last one shows no rows |
| `TablePage.TablePageState.HandleChangeRowsPerPage` | src/pages/TablePage/TablePage.tsx:68-73 | `rowsPerPage` becomes the chosen size (one of 5, 10, 15) and `page` becomes 0; filters, sort and data are unchanged; the first `size` filtered rows are shown |
| `TablePage.TablePageState.HandleSort` | src/pages/TablePage/TablePage.tsx:75-86 | the sort state becomes `NextSortState`; the records are a permutation of the old ones, sorted ascending when the click was "asc on the same column" and descending otherwise, i.e. opposite to the new label; the filtered records and their count are unchanged; filters and pagination are untouched |
| `TablePage.TablePageState.SetReleaseFilter` | src/pages/TablePage/TablePage.tsx:219 | only `releaseFilter` changes, and `page` is kept |
| `TablePage.TablePageState.SetProductFilter` | src/pages/TablePage/TablePage.tsx:230 | only `productFilter` changes, and `page` is kept |
| `TablePage.TablePageState.SetFeatureTypeFilter` | src/pages/TablePage/TablePage.tsx:241 | only `featureTypeFilter` changes, and `page` is kept |
| `TablePage.TablePageState.SetFeatureWildcard` | src/pages/TablePage/TablePage.tsx:252 | only `featureWildcard` changes, and `page` is kept |
| `TablePage.CarrierFilterKeepsAcme` | src/pages/TablePage/TablePage.tsx:89-97 | of the carrier "Acme Trucking" and the broker "Best Freight", the entity-type filter "Carrier" keeps only the carrier |
| `TablePage.AcmeCreatedFirst` | src/pages/TablePage/TablePage.tsx:82-83 | the creation time "2022-01-01T00:00:00Z" sorts before "2023-01-01T00:00:00Z" |
| `TablePage.PairSortedByCreation` | src/pages/TablePage/TablePage.tsx:80-84 | two records listed in strict creation order are sorted ascending by creation time and have distinct creation times |

## Left out

- Rendering is not modelled: the JSX, the MUI components, `makeStyles` styling and
  the option lists of the Select boxes (src/pages/TablePage/TablePage.tsx:24-35,
  104-257). They are presentation only.
- `formatDateTime` is not modelled (src/pages/TablePage/TablePage.tsx:64-66). It is
  a display-only call into `date-fns` and `Date`, and its output depends on the
  time zone.
- The asynchronous load is not modelled: the `useEffect` (lines 51-58) and
  `fetchData` in src/service/fetchData.ts.
  - The constructor takes the loaded records. `fetchData(0, Number.MAX_SAFE_INTEGER)`
    returns the whole dataset.
  - The empty state the page shows before the load finishes is the constructor
    applied to `[]`.
  - The rejection path of `fetchData` is out of scope: nothing catches it.
- React's state updates are modelled as immediate field assignments. Batching and
  re-rendering are not modelled. The handlers run one at a time, and each reads the
  state left by the previous one.
- TablePage.TablePageState.HandleChangeRowsPerPage: takes the page size as a number
  instead of parsing the event string with `parseInt`. It requires one of the sizes
  the pagination control offers (5, 10, 15), the only values that control can send.
- The page index passed to `handleChangePage` is taken as a natural number.
- `handleSort` accepts any `keyof IDataItem`, but the page only calls it with the
  three sortable columns. The model's `SortKey` has exactly those three.
- Text.Compare: does not model the locale rules of `localeCompare`. It is
  lexicographic order of code points, a total order with the properties the sort
  needs.
- Strings are sequences of Unicode scalar values, not of UTF-16 code units. For
  characters outside the Basic Multilingual Plane, `length`, the positions
  `includes` looks at and the order `localeCompare` falls back to differ from
  JavaScript's: one such character is one element here and two code units there.
- Text.ToLower: lower-cases only ASCII letters, not the full Unicode case mapping
  of `toLowerCase`.
- Sorting.SortInPlace: does not promise stability. `Array.prototype.sort` keeps
  records with equal keys in their original order; the model proves only that the
  result is a sorted permutation. `Sorting.OppositeSortsReverse` requires distinct
  keys because of the source's behaviour, not only because of this gap. Even the
  stable sort keeps records with equal keys in their previous relative order on the
  second click, so it does not reverse them either.
- Aliasing is only partly modelled. `setData` wraps the same array in a new object,
  and the model keeps that single array (`items`). The wrapper object itself is not
  modelled.
