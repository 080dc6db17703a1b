/** The two values the table page derives on every render: `filteredData`, the
    records every non-empty filter accepts, and `paginatedData`, one page of them. */
module TableView {
  import opened DataType
  import opened Text

  /** The four filter strings. The names are the page's own and do not say which
      field each tests: `release` tests the entity type, `product` the legal name
      (exactly), `featureType` the DBA name, `wildcard` the legal name (as a
      case-insensitive substring). The empty string switches a filter off. */
  datatype Filters = Filters(release: string, product: string, featureType: string, wildcard: string)

  /** The filter state the page starts in. */
  const NoFilters: Filters := Filters("", "", "", "")

  /** The wildcard test: the lower-cased legal name includes the lower-cased wildcard. */
  predicate WildcardMatches(wildcard: string, legalName: string)
  {
    Includes(ToLower(legalName), ToLower(wildcard))
  }

  /** The callback handed to `filter`. With no filter set it keeps every record, and a
      wildcard longer than the legal name never matches. */
  function Keeps(f: Filters, item: Item): (r: bool)
    ensures f == NoFilters ==> r
    ensures r && f.wildcard != "" ==> |f.wildcard| <= |item.legalName|
  {
    && (f.release == "" || item.entityType == f.release)
    && (f.product == "" || item.legalName == f.product)
    && (f.featureType == "" || item.dbaName == f.featureType)
    && (f.wildcard == "" || WildcardMatches(f.wildcard, item.legalName))
  }

  /** `data_items.filter(...)`: visits the records front to back and appends the kept ones. */
  function FilterItems(s: seq<Item>, f: Filters): (r: seq<Item>)
    ensures |r| <= |s|
    ensures forall k :: 0 <= k < |r| ==> Keeps(f, r[k])
    ensures forall x :: x in r ==> x in s
  {
    if s == [] then []
    else FilterItems(s[..|s| - 1], f) + (if Keeps(f, s[|s| - 1]) then [s[|s| - 1]] else [])
  }

  /** Filtering a concatenation filters each part. */
  lemma {:induction false} FilterConcat(a: seq<Item>, b: seq<Item>, f: Filters)
    ensures FilterItems(a + b, f) == FilterItems(a, f) + FilterItems(b, f)
    decreases |b|
  {
    if b == [] {
      assert a + b == a;
    } else {
      var b' := b[..|b| - 1];
      assert (a + b)[..|a + b| - 1] == a + b';
      FilterConcat(a, b', f);
    }
  }

  /** A record is in the filtered data exactly when it is in the data and every
      non-empty filter matches the field it tests. */
  lemma {:induction false} FilterMembership(s: seq<Item>, f: Filters, x: Item)
    ensures x in FilterItems(s, f) <==>
      && x in s
      && (f.release != "" ==> x.entityType == f.release)
      && (f.product != "" ==> x.legalName == f.product)
      && (f.featureType != "" ==> x.dbaName == f.featureType)
      && (f.wildcard != "" ==> Includes(ToLower(x.legalName), ToLower(f.wildcard)))
    decreases |s|
  {
    if s != [] {
      var p := s[..|s| - 1];
      FilterMembership(p, f, x);
      assert s == p + [s[|s| - 1]];
    }
  }

  /** Each record occurs in the filtered data as often as in the data when the
      filters keep it, and not at all otherwise. */
  lemma {:induction false} FilterCount(s: seq<Item>, f: Filters, x: Item)
    ensures multiset(FilterItems(s, f))[x] == if Keeps(f, x) then multiset(s)[x] else 0
    decreases |s|
  {
    if s != [] {
      var p := s[..|s| - 1];
      FilterCount(p, f, x);
      assert s == p + [s[|s| - 1]];
    }
  }

  /** Reordering the data reorders the filtered data and nothing more: the same
      records are kept, so the row count shown by the pagination is unchanged. */
  lemma FilterPermutation(s: seq<Item>, t: seq<Item>, f: Filters)
    requires multiset(s) == multiset(t)
    ensures multiset(FilterItems(s, f)) == multiset(FilterItems(t, f))
    ensures |FilterItems(s, f)| == |FilterItems(t, f)|
  {
    forall x ensures multiset(FilterItems(s, f))[x] == multiset(FilterItems(t, f))[x] {
      FilterCount(s, f, x);
      FilterCount(t, f, x);
    }
    assert multiset(FilterItems(s, f)) == multiset(FilterItems(t, f));
    assert |multiset(FilterItems(s, f))| == |FilterItems(s, f)|;
    assert |multiset(FilterItems(t, f))| == |FilterItems(t, f)|;
  }

  /** With every filter string empty, the filtered data is the data itself. */
  lemma {:induction false} FilterAllEmpty(s: seq<Item>)
    ensures FilterItems(s, NoFilters) == s
    decreases |s|
  {
    if s != [] {
      FilterAllEmpty(s[..|s| - 1]);
      assert s == s[..|s| - 1] + [s[|s| - 1]];
    }
  }

  /** `idx` lists, in strictly increasing order, positions of `s` whose records
      spell out `r`. */
  ghost predicate PicksPositions(r: seq<Item>, s: seq<Item>, idx: seq<int>)
  {
    && |idx| == |r|
    && (forall k :: 0 <= k < |idx| ==> 0 <= idx[k] < |s| && r[k] == s[idx[k]])
    && (forall k, l :: 0 <= k < l < |idx| ==> idx[k] < idx[l])
  }

  /** `r` is the order-preserving selection of exactly the records of `s` that `f` keeps. */
  ghost predicate SelectsKept(r: seq<Item>, s: seq<Item>, f: Filters)
  {
    exists idx ::
      PicksPositions(r, s, idx) && forall i :: 0 <= i < |s| ==> (i in idx <==> Keeps(f, s[i]))
  }

  /** The positions of `s` that `f` keeps, in increasing order. */
  ghost function KeptPositions(s: seq<Item>, f: Filters): seq<int>
  {
    if s == [] then []
    else KeptPositions(s[..|s| - 1], f) + (if Keeps(f, s[|s| - 1]) then [|s| - 1] else [])
  }

  lemma {:induction false} KeptPositionsPicked(s: seq<Item>, f: Filters)
    ensures PicksPositions(FilterItems(s, f), s, KeptPositions(s, f))
    decreases |s|
  {
    if s != [] {
      var p, n := s[..|s| - 1], |s| - 1;
      KeptPositionsPicked(p, f);
      assert forall i :: 0 <= i < n ==> s[i] == p[i];
    }
  }

  lemma {:induction false} KeptPositionsExact(s: seq<Item>, f: Filters)
    ensures forall k :: 0 <= k < |KeptPositions(s, f)| ==> KeptPositions(s, f)[k] < |s|
    ensures forall i :: 0 <= i < |s| ==> (i in KeptPositions(s, f) <==> Keeps(f, s[i]))
    decreases |s|
  {
    if s != [] {
      var p, n := s[..|s| - 1], |s| - 1;
      KeptPositionsExact(p, f);
      assert forall i :: 0 <= i < n ==> s[i] == p[i];
    }
  }

  /** The filtered data is an order-preserving subsequence of the data, made of
      exactly the positions whose record the filters keep. */
  lemma FilterSelectsKept(s: seq<Item>, f: Filters)
    ensures SelectsKept(FilterItems(s, f), s, f)
  {
    KeptPositionsPicked(s, f);
    KeptPositionsExact(s, f);
    var idx := KeptPositions(s, f);
    assert PicksPositions(FilterItems(s, f), s, idx);
  }

  /** The wildcard is case-insensitive on both sides: changing the letter case of
      the wildcard or of the legal name does not change the verdict. */
  lemma WildcardIgnoresCase(w1: string, w2: string, name1: string, name2: string)
    requires SameUpToCase(w1, w2) && SameUpToCase(name1, name2)
    ensures WildcardMatches(w1, name1) == WildcardMatches(w2, name2)
  {
    SameUpToCaseIffLowerEqual(w1, w2);
    SameUpToCaseIffLowerEqual(name1, name2);
  }

  /** So the filtered data does not depend on the letter case of the wildcard. */
  lemma {:induction false} FilterIgnoresWildcardCase(s: seq<Item>, f: Filters, w: string)
    requires SameUpToCase(f.wildcard, w)
    ensures FilterItems(s, f) == FilterItems(s, f.(wildcard := w))
    decreases |s|
  {
    if s != [] {
      var x := s[|s| - 1];
      WildcardIgnoresCase(f.wildcard, w, x.legalName, x.legalName);
      FilterIgnoresWildcardCase(s[..|s| - 1], f, w);
    }
  }

  function Min(a: int, b: int): int { if a <= b then a else b }

  /** `page * rowsPerPage`, the index of the first row of a page. */
  function PageStart(page: nat, rowsPerPage: nat): nat
  {
    page * rowsPerPage
  }

  /** `filteredData.slice(page * rowsPerPage, page * rowsPerPage + rowsPerPage)`:
      `slice` clamps both bounds to the length, so a page past the end is empty. */
  function Paginate<T>(s: seq<T>, page: nat, rowsPerPage: nat): (r: seq<T>)
    ensures |r| <= rowsPerPage
    ensures PageStart(page, rowsPerPage) >= |s| ==> r == []
    ensures PageStart(page, rowsPerPage) < |s| ==> |r| == Min(rowsPerPage, |s| - PageStart(page, rowsPerPage))
    ensures forall k :: 0 <= k < |r| ==>
      PageStart(page, rowsPerPage) + k < |s| && r[k] == s[PageStart(page, rowsPerPage) + k]
  {
    var start := PageStart(page, rowsPerPage);
    s[Min(start, |s|)..Min(start + rowsPerPage, |s|)]
  }

  /** The number of pages of `n` rows: the ceiling of `n / rowsPerPage`. */
  function PageCount(n: nat, rowsPerPage: nat): (r: nat)
    requires rowsPerPage > 0
    ensures r == 0 <==> n == 0
  {
    (n + rowsPerPage - 1) / rowsPerPage
  }

  /** Pages `0 .. count - 1`, one after another. */
  function PagesUpTo<T>(s: seq<T>, rowsPerPage: nat, count: nat): seq<T>
  {
    if count == 0 then [] else PagesUpTo(s, rowsPerPage, count - 1) + Paginate(s, count - 1, rowsPerPage)
  }

  /** The first `count` pages spell out the first `count * rowsPerPage` rows. */
  lemma {:induction false} PagesUpToIsPrefix<T>(s: seq<T>, rowsPerPage: nat, count: nat)
    ensures PagesUpTo(s, rowsPerPage, count) == s[..Min(PageStart(count, rowsPerPage), |s|)]
  {
    if count > 0 {
      PagesUpToIsPrefix(s, rowsPerPage, count - 1);
      NextPageStart(count - 1, rowsPerPage);
      PrefixThenSlice(s, Min(PageStart(count - 1, rowsPerPage), |s|), Min(PageStart(count, rowsPerPage), |s|));
    }
  }

  /** Each page starts where the previous one ends. */
  lemma NextPageStart(page: nat, rowsPerPage: nat)
    ensures PageStart(page + 1, rowsPerPage) == PageStart(page, rowsPerPage) + rowsPerPage
  {
  }

  /** Later pages start no earlier. */
  lemma PageStartMonotonic(a: nat, b: nat, rowsPerPage: nat)
    requires a <= b
    ensures PageStart(a, rowsPerPage) <= PageStart(b, rowsPerPage)
  {
    assert b * rowsPerPage == a * rowsPerPage + (b - a) * rowsPerPage;
  }

  lemma PrefixThenSlice<T>(s: seq<T>, lo: int, hi: int)
    requires 0 <= lo <= hi <= |s|
    ensures s[..lo] + s[lo..hi] == s[..hi]
  {
  }

  /** `PageCount` is the least number of pages that hold every row. */
  lemma PageCountBounds(n: nat, rowsPerPage: nat)
    requires rowsPerPage > 0
    ensures n <= PageStart(PageCount(n, rowsPerPage), rowsPerPage)
    ensures PageCount(n, rowsPerPage) == 0 || PageStart(PageCount(n, rowsPerPage) - 1, rowsPerPage) < n
  {
    var q, m := PageCount(n, rowsPerPage), (n + rowsPerPage - 1) % rowsPerPage;
    assert q * rowsPerPage + m == n + rowsPerPage - 1;
    assert (q - 1) * rowsPerPage == q * rowsPerPage - rowsPerPage;
  }

  /** Pages `0 .. PageCount - 1` put together give back every row exactly once, in order. */
  lemma PagesReassemble<T>(s: seq<T>, rowsPerPage: nat)
    requires rowsPerPage > 0
    ensures PagesUpTo(s, rowsPerPage, PageCount(|s|, rowsPerPage)) == s
  {
    PageCountBounds(|s|, rowsPerPage);
    PagesUpToIsPrefix(s, rowsPerPage, PageCount(|s|, rowsPerPage));
  }

  /** Every page before `PageCount` holds at least one row; every page from it on is empty. */
  lemma PagesBeforeCountNonEmpty<T>(s: seq<T>, rowsPerPage: nat, page: nat)
    requires rowsPerPage > 0
    ensures Paginate(s, page, rowsPerPage) != [] <==> page < PageCount(|s|, rowsPerPage)
  {
    PageCountBounds(|s|, rowsPerPage);
    var c := PageCount(|s|, rowsPerPage);
    if page < c {
      PageStartMonotonic(page, c - 1, rowsPerPage);
    } else {
      PageStartMonotonic(c, page, rowsPerPage);
    }
  }

  /** Row `i` is shown on page `i / rowsPerPage`, at position `i % rowsPerPage`. */
  lemma RowOnItsPage<T>(s: seq<T>, rowsPerPage: nat, i: nat)
    requires rowsPerPage > 0 && i < |s|
    ensures i % rowsPerPage < |Paginate(s, i / rowsPerPage, rowsPerPage)|
    ensures Paginate(s, i / rowsPerPage, rowsPerPage)[i % rowsPerPage] == s[i]
  {
    assert PageStart(i / rowsPerPage, rowsPerPage) + i % rowsPerPage == i;
  }
}
