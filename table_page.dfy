/** The state of the table page component and its event handlers
    (src/pages/TablePage/TablePage.tsx). */
module TablePage {
  import opened DataType
  import opened TableView
  import opened Sorting

  /** The direction label the page stores in `order`. */
  datatype Order = Asc | Desc

  /** The sort state: the stored `order` label and the column `orderBy`. */
  datatype SortState = SortState(order: Order, orderBy: SortKey)

  /** The page sizes the pagination control offers. */
  const RowsPerPageOptions: seq<nat> := [5, 10, 15]

  /** A click on the header of `property` sorts ascending exactly when that column
      is already active with the label "asc". */
  predicate SortsAscending(st: SortState, property: SortKey)
  {
    st.orderBy == property && st.order == Asc
  }

  /** The sort state after a click on the header of `property`: that column becomes
      active, and the label becomes "desc" exactly when the click sorts ascending
      (so the label names the opposite of the order just applied). */
  function NextSortState(st: SortState, property: SortKey): (r: SortState)
    ensures r.orderBy == property
    ensures r.order == Desc <==> SortsAscending(st, property)
  {
    SortState(if SortsAscending(st, property) then Desc else Asc, property)
  }

  /** Two clicks in a row on the same header sort in opposite directions, and the
      label alternates: asc, desc, asc, ... */
  lemma RepeatedSortAlternates(st: SortState, property: SortKey)
    ensures SortsAscending(NextSortState(st, property), property) == !SortsAscending(st, property)
    ensures NextSortState(NextSortState(st, property), property).order != NextSortState(st, property).order
    ensures NextSortState(NextSortState(NextSortState(st, property), property), property) == NextSortState(st, property)
  {
  }

  /** The view state of the table page. */
  class TablePageState {
    var items: array<Item>
    var releaseFilter: string
    var productFilter: string
    var featureTypeFilter: string
    var featureWildcard: string
    var page: nat
    var rowsPerPage: nat
    var order: Order
    var orderBy: SortKey

    /** The page size is always one the pagination control offers. */
    ghost predicate Valid()
      reads this
    {
      rowsPerPage in RowsPerPageOptions
    }

    function CurrentFilters(): Filters
      reads this
    {
      Filters(releaseFilter, productFilter, featureTypeFilter, featureWildcard)
    }

    function CurrentSort(): SortState
      reads this
    {
      SortState(order, orderBy)
    }

    /** `filteredData`, recomputed on every render: records of the page, each passing
        the current filters. */
    function FilteredData(): (r: seq<Item>)
      reads this, items
      ensures |r| <= items.Length
      ensures forall x :: x in r ==> x in items[..]
      ensures forall k :: 0 <= k < |r| ==> Keeps(CurrentFilters(), r[k])
    {
      FilterItems(items[..], CurrentFilters())
    }

    /** `paginatedData`, the rows on screen: at most `rowsPerPage` consecutive filtered
        rows, starting at row `page * rowsPerPage`. */
    function PaginatedData(): (r: seq<Item>)
      reads this, items
      ensures |r| <= rowsPerPage
      ensures forall k :: 0 <= k < |r| ==>
        PageStart(page, rowsPerPage) + k < |FilteredData()| && r[k] == FilteredData()[PageStart(page, rowsPerPage) + k]
    {
      Paginate(FilteredData(), page, rowsPerPage)
    }

    /** The pages the pagination control offers for the current filtered data,
        `0 .. PageCount - 1`, each hold at least one row and together give back
        every filtered row once, in order; the current page shows rows exactly when
        it is one of them. */
    lemma PagesCoverFilteredData()
      requires Valid()
      ensures PagesUpTo(FilteredData(), rowsPerPage, PageCount(|FilteredData()|, rowsPerPage)) == FilteredData()
      ensures PaginatedData() != [] <==> page < PageCount(|FilteredData()|, rowsPerPage)
    {
      assert rowsPerPage > 0 by { assert rowsPerPage in RowsPerPageOptions; }
      PagesReassemble(FilteredData(), rowsPerPage);
      PagesBeforeCountNonEmpty(FilteredData(), rowsPerPage, page);
    }

    /** The page once `fetchData(0, Number.MAX_SAFE_INTEGER)` has delivered the whole
        dataset: no filter, first page of ten rows, sorted by creation time with the
        label "asc" (nothing has been sorted yet). */
    constructor (loaded: seq<Item>)
      ensures Valid() && fresh(items)
      ensures items[..] == loaded
      ensures CurrentFilters() == NoFilters
      ensures page == 0 && rowsPerPage == 10
      ensures CurrentSort() == SortState(Asc, CreatedDt)
      ensures FilteredData() == loaded
    {
      items := new Item[|loaded|](i requires 0 <= i < |loaded| => loaded[i]);
      releaseFilter, productFilter, featureTypeFilter, featureWildcard := "", "", "", "";
      page, rowsPerPage := 0, 10;
      order, orderBy := Asc, CreatedDt;
      new;
      assert items[..] == loaded;
      FilterAllEmpty(loaded);
    }

    /** `handleChangePage`: moves to `newPage` and changes nothing else. There is no
        upper bound: a page past the last one shows no rows. */
    method HandleChangePage(newPage: nat)
      requires Valid()
      modifies this`page
      ensures Valid()
      ensures page == newPage
      ensures FilteredData() == old(FilteredData())
      ensures PageStart(newPage, rowsPerPage) >= |FilteredData()| ==> PaginatedData() == []
    {
      page := newPage;
    }

    /** `handleChangeRowsPerPage`: takes the chosen page size and goes back to the first page. */
    method HandleChangeRowsPerPage(size: nat)
      requires Valid()
      requires size in RowsPerPageOptions
      modifies this`rowsPerPage, this`page
      ensures Valid()
      ensures rowsPerPage == size && page == 0
      ensures FilteredData() == old(FilteredData())
      ensures PaginatedData() == FilteredData()[..Min(size, |FilteredData()|)]
    {
      rowsPerPage := size;
      page := 0;
    }

    /** `handleSort`: toggles the sort state and sorts the stored records in place,
        ascending by `property` when the click sorts ascending and descending
        otherwise. The same records stay, so the filtered row count stays. */
    method HandleSort(property: SortKey)
      requires Valid()
      modifies this`order, this`orderBy, items
      ensures Valid()
      ensures CurrentSort() == NextSortState(old(CurrentSort()), property)
      ensures multiset(items[..]) == multiset(old(items[..]))
      ensures SortedBy(items[..], property, SortsAscending(old(CurrentSort()), property))
      ensures SortedBy(items[..], property, CurrentSort().order == Desc)
      ensures multiset(FilteredData()) == multiset(old(FilteredData()))
      ensures |FilteredData()| == |old(FilteredData())|
    {
      var ascending := orderBy == property && order == Asc;
      order := if ascending then Desc else Asc;
      orderBy := property;
      SortInPlace(items, property, ascending);
      FilterPermutation(items[..], old(items[..]), CurrentFilters());
    }

    /** The release select: sets the filter on the entity type. The page index is kept. */
    method SetReleaseFilter(value: string)
      requires Valid()
      modifies this`releaseFilter
      ensures Valid()
      ensures CurrentFilters() == old(CurrentFilters()).(release := value)
      ensures page == old(page)
    {
      releaseFilter := value;
    }

    /** The product select: sets the exact filter on the legal name. The page index is kept. */
    method SetProductFilter(value: string)
      requires Valid()
      modifies this`productFilter
      ensures Valid()
      ensures CurrentFilters() == old(CurrentFilters()).(product := value)
      ensures page == old(page)
    {
      productFilter := value;
    }

    /** The feature-type select: sets the filter on the DBA name. The page index is kept. */
    method SetFeatureTypeFilter(value: string)
      requires Valid()
      modifies this`featureTypeFilter
      ensures Valid()
      ensures CurrentFilters() == old(CurrentFilters()).(featureType := value)
      ensures page == old(page)
    {
      featureTypeFilter := value;
    }

    /** The wildcard text box: sets the substring filter on the legal name. The page index is kept. */
    method SetFeatureWildcard(value: string)
      requires Valid()
      modifies this`featureWildcard
      ensures Valid()
      ensures CurrentFilters() == old(CurrentFilters()).(wildcard := value)
      ensures page == old(page)
    {
      featureWildcard := value;
    }
  }
  /** Two records, one carrier and one broker, created a year apart. */
  function Acme(): Item
  {
    Item("2022-01-01T00:00:00Z", "2022-01-01T00:00:00Z", "Carrier", "Acme Trucking", "", [])
  }

  function Best(): Item
  {
    Item("2023-01-01T00:00:00Z", "2023-01-01T00:00:00Z", "Broker", "Best Freight", "", [])
  }

  /** The entity-type filter "Carrier" keeps the carrier and drops the broker. */
  lemma CarrierFilterKeepsAcme()
    ensures FilterItems([Acme(), Best()], NoFilters.(release := "Carrier")) == [Acme()]
  {
    assert [Acme(), Best()][..1] == [Acme()];
  }

  /** The carrier's creation time sorts before the broker's. */
  lemma AcmeCreatedFirst()
    ensures Text.Compare(Acme().createdDt, Best().createdDt) < 0
  {
    var a, b := Acme().createdDt, Best().createdDt;
    assert a == "202" + a[3..] && b == "202" + b[3..];
    Text.CompareCommonPrefix("202", a[3..], b[3..]);
  }

  /** Two records whose creation times differ, listed in creation order, are sorted
      ascending by creation time and have distinct creation times. */
  lemma PairSortedByCreation(x: Item, y: Item)
    requires Text.Compare(x.createdDt, y.createdDt) < 0
    ensures SortedBy([x, y], CreatedDt, true)
    ensures DistinctKeys([x, y], CreatedDt)
  {
    var s := [x, y];
    forall i, j | 0 <= i < j < |s|
      ensures InOrder(s[i], s[j], CreatedDt, true) && KeyOf(s[i], CreatedDt) != KeyOf(s[j], CreatedDt)
    {
      assert i == 0 && j == 1;
    }
  }

  /** A client of the page state: the entity-type filter keeps only the records of
      that type, clearing it brings every record back, and a page past the end is
      empty. `Acme` and `Best` meet the requirement (`CarrierFilterKeepsAcme`). */
  method FilterWalkthrough(p: TablePageState, carrier: Item, broker: Item)
    requires p.Valid() && p.CurrentFilters() == NoFilters
    requires p.items[..] == [carrier, broker]
    requires carrier.entityType == "Carrier" && broker.entityType != "Carrier"
    modifies p
  {
    p.SetReleaseFilter("Carrier");
    assert p.FilteredData() == [carrier] by {
      var f := NoFilters.(release := "Carrier");
      assert p.CurrentFilters() == f;
      assert [carrier, broker][..1] == [carrier] && [carrier][..0] == [];
      assert Keeps(f, carrier) && !Keeps(f, broker);
      assert FilterItems([carrier], f) == [carrier];
    }
    p.SetReleaseFilter("");
    assert p.FilteredData() == [carrier, broker] by {
      FilterAllEmpty([carrier, broker]);
    }
    p.HandleChangeRowsPerPage(5);
    p.HandleChangePage(1);
    assert p.PaginatedData() == [];
  }

  /** A client of the page state: from the initial sort state, two clicks on the
      creation-time header sort ascending, then descending, which reverses the rows.
      `Acme` and `Best` meet the requirement (`AcmeCreatedFirst`). */
  method SortWalkthrough(p: TablePageState, older: Item, newer: Item)
    requires p.Valid() && p.CurrentSort() == SortState(Asc, CreatedDt)
    requires p.items[..] == [newer, older]
    requires Text.Compare(older.createdDt, newer.createdDt) < 0
    modifies p, p.items
  {
    PairSortedByCreation(older, newer);
    p.HandleSort(CreatedDt);
    ghost var first := p.items[..];
    assert first == [older, newer] by {
      SortedPermutationUnique([older, newer], first, CreatedDt, true);
    }
    p.HandleSort(CreatedDt);
    ghost var second := p.items[..];
    assert second == [newer, older] by {
      OppositeSortsReverse([older, newer], second, CreatedDt, true);
      assert Reverse([older, newer]) == [newer, older];
    }
  }
}
