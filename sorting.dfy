/** The sort the table page's sort handler runs: `Array.prototype.sort` in place,
    with a comparator that orders one sortable column either way. */
module Sorting {
  import opened DataType
  import opened Text

  /** The comparator passed to `sort`: with `ascending`, `a[p].localeCompare(b[p])`,
      otherwise `b[p].localeCompare(a[p])`. */
  function SortComparator(x: Item, y: Item, key: SortKey, ascending: bool): (r: int)
    ensures -1 <= r <= 1
    ensures r == 0 <==> KeyOf(x, key) == KeyOf(y, key)
  {
    if ascending then Compare(KeyOf(x, key), KeyOf(y, key)) else Compare(KeyOf(y, key), KeyOf(x, key))
  }

  /** `x` may stay ahead of `y`: the comparator does not put `y` first. */
  predicate InOrder(x: Item, y: Item, key: SortKey, ascending: bool)
  {
    SortComparator(x, y, key, ascending) <= 0
  }

  /** Every record sorts no later than each record after it, as the comparator says. */
  ghost predicate SortedBy(s: seq<Item>, key: SortKey, ascending: bool)
  {
    forall i, j :: 0 <= i < j < |s| ==> InOrder(s[i], s[j], key, ascending)
  }

  /** No two records share a value in column `key`. */
  ghost predicate DistinctKeys(s: seq<Item>, key: SortKey)
  {
    forall i, j :: 0 <= i < j < |s| ==> KeyOf(s[i], key) != KeyOf(s[j], key)
  }

  /** The comparator orders any two records one way or the other. */
  lemma ComparatorTotal(x: Item, y: Item, key: SortKey, ascending: bool)
    ensures InOrder(x, y, key, ascending) || InOrder(y, x, key, ascending)
  {
    CompareAntisymmetric(KeyOf(x, key), KeyOf(y, key));
  }

  /** The comparator is transitive. */
  lemma ComparatorTransitive(x: Item, y: Item, z: Item, key: SortKey, ascending: bool)
    requires InOrder(x, y, key, ascending) && InOrder(y, z, key, ascending)
    ensures InOrder(x, z, key, ascending)
  {
    if ascending {
      CompareTransitive(KeyOf(x, key), KeyOf(y, key), KeyOf(z, key));
    } else {
      CompareTransitive(KeyOf(z, key), KeyOf(y, key), KeyOf(x, key));
    }
  }

  /** Every record compares equal to itself. */
  lemma ComparatorReflexive(x: Item, key: SortKey, ascending: bool)
    ensures InOrder(x, x, key, ascending)
  {
    assert Compare(KeyOf(x, key), KeyOf(x, key)) == 0;
  }

  /** Exchanges `a[j - 1]` and `a[j]`. */
  method SwapDown(a: array<Item>, j: int)
    requires 0 < j < a.Length
    modifies a
    ensures a[j - 1] == old(a[j]) && a[j] == old(a[j - 1])
    ensures forall m :: 0 <= m < a.Length && m != j - 1 && m != j ==> a[m] == old(a[m])
    ensures multiset(a[..]) == multiset(old(a[..]))
  {
    a[j - 1], a[j] := a[j], a[j - 1];
  }

  /** One step of insertion: with `a[..i]` in order, moves `a[i]` down past every
      record the comparator puts after it, leaving `a[..i + 1]` in order. */
  method Insert(a: array<Item>, i: int, key: SortKey, ascending: bool)
    requires 0 <= i < a.Length
    requires forall p, q :: 0 <= p < q < i ==> InOrder(a[p], a[q], key, ascending)
    modifies a
    ensures forall p, q :: 0 <= p < q <= i ==> InOrder(a[p], a[q], key, ascending)
    ensures forall m :: i < m < a.Length ==> a[m] == old(a[m])
    ensures multiset(a[..]) == multiset(old(a[..]))
  {
    var j := i;
    while j > 0 && !InOrder(a[j - 1], a[j], key, ascending)
      invariant 0 <= j <= i
      invariant forall p, q :: 0 <= p < q <= i && p != j && q != j ==> InOrder(a[p], a[q], key, ascending)
      invariant forall q :: j < q <= i ==> InOrder(a[j], a[q], key, ascending)
      invariant forall m :: i < m < a.Length ==> a[m] == old(a[m])
      invariant multiset(a[..]) == multiset(old(a[..]))
    {
      ComparatorTotal(a[j - 1], a[j], key, ascending);
      SwapDown(a, j);
      j := j - 1;
    }
    forall p | 0 <= p < j
      ensures InOrder(a[p], a[j], key, ascending)
    {
      if p < j - 1 {
        ComparatorTransitive(a[p], a[j - 1], a[j], key, ascending);
      }
    }
  }

  /** `a.sort(comparator)`: afterwards `a` holds the same records, in comparator order. */
  method SortInPlace(a: array<Item>, key: SortKey, ascending: bool)
    modifies a
    ensures SortedBy(a[..], key, ascending)
    ensures multiset(a[..]) == multiset(old(a[..]))
  {
    var i := 0;
    while i < a.Length
      invariant 0 <= i <= a.Length
      invariant forall p, q :: 0 <= p < q < i ==> InOrder(a[p], a[q], key, ascending)
      invariant multiset(a[..]) == multiset(old(a[..]))
    {
      Insert(a, i, key, ascending);
      i := i + 1;
    }
  }

  /** `s` back to front. */
  function Reverse(s: seq<Item>): (r: seq<Item>)
    ensures |r| == |s|
    ensures forall i :: 0 <= i < |s| ==> r[i] == s[|s| - 1 - i]
  {
    if s == [] then [] else Reverse(s[1..]) + [s[0]]
  }

  /** Reversing keeps every record. */
  lemma {:induction false} ReversePermutation(s: seq<Item>)
    ensures multiset(Reverse(s)) == multiset(s)
  {
    if s != [] {
      ReversePermutation(s[1..]);
      assert s == [s[0]] + s[1..];
    }
  }

  /** A sequence is sorted one way exactly when its reverse is sorted the other way. */
  lemma SortedReverse(s: seq<Item>, key: SortKey, ascending: bool)
    ensures SortedBy(s, key, ascending) <==> SortedBy(Reverse(s), key, !ascending)
  {
    if SortedBy(s, key, ascending) {
      ReverseOfSorted(s, key, ascending);
    }
    if SortedBy(Reverse(s), key, !ascending) {
      SortedFromReverse(s, key, ascending);
    }
  }

  lemma ReverseOfSorted(s: seq<Item>, key: SortKey, ascending: bool)
    requires SortedBy(s, key, ascending)
    ensures SortedBy(Reverse(s), key, !ascending)
  {
    var r, n := Reverse(s), |s|;
    forall i, j | 0 <= i < j < n ensures InOrder(r[i], r[j], key, !ascending) {
      assert InOrder(s[n - 1 - j], s[n - 1 - i], key, ascending);
    }
  }

  lemma SortedFromReverse(s: seq<Item>, key: SortKey, ascending: bool)
    requires SortedBy(Reverse(s), key, !ascending)
    ensures SortedBy(s, key, ascending)
  {
    var r, n := Reverse(s), |s|;
    forall i, j | 0 <= i < j < n ensures InOrder(s[i], s[j], key, ascending) {
      assert InOrder(r[n - 1 - j], r[n - 1 - i], key, !ascending);
    }
  }

  /** When no two records share a key, there is only one way to sort them. */
  lemma {:induction false} SortedPermutationUnique(s: seq<Item>, t: seq<Item>, key: SortKey, ascending: bool)
    requires multiset(s) == multiset(t)
    requires SortedBy(s, key, ascending) && SortedBy(t, key, ascending)
    requires DistinctKeys(s, key)
    ensures s == t
    decreases |s|
  {
    assert |s| == |multiset(s)| == |multiset(t)| == |t|;
    if s != [] {
      SortedHeadsEqual(s, t, key, ascending);
      assert multiset(s[1..]) == multiset(t[1..]) by {
        assert s == [s[0]] + s[1..] && t == [t[0]] + t[1..];
        assert multiset(s[1..]) == multiset(s) - multiset{s[0]};
        assert multiset(t[1..]) == multiset(t) - multiset{t[0]};
      }
      TailSorted(s, key, ascending);
      TailSorted(t, key, ascending);
      TailDistinct(s, key);
      SortedPermutationUnique(s[1..], t[1..], key, ascending);
      assert s == [s[0]] + s[1..] && t == [t[0]] + t[1..];
    }
  }

  /** Two sorted orderings of the same records with distinct keys start alike. */
  lemma SortedHeadsEqual(s: seq<Item>, t: seq<Item>, key: SortKey, ascending: bool)
    requires multiset(s) == multiset(t) && s != []
    requires SortedBy(s, key, ascending) && SortedBy(t, key, ascending)
    requires DistinctKeys(s, key)
    ensures t != [] && s[0] == t[0]
  {
    assert s[0] in multiset(t);
    assert t[0] in multiset(s);
    var m :| 0 <= m < |s| && s[m] == t[0];
    var n :| 0 <= n < |t| && t[n] == s[0];
    FirstIsLeast(s, m, key, ascending);
    FirstIsLeast(t, n, key, ascending);
    CompareAntisymmetric(KeyOf(s[0], key), KeyOf(t[0], key));
    assert m == 0;
  }

  /** Dropping the first record keeps the keys distinct. */
  lemma TailDistinct(s: seq<Item>, key: SortKey)
    requires DistinctKeys(s, key) && s != []
    ensures DistinctKeys(s[1..], key)
  {
    forall i, j | 0 <= i < j < |s| - 1 ensures KeyOf(s[1..][i], key) != KeyOf(s[1..][j], key) {
      assert s[1..][i] == s[i + 1] && s[1..][j] == s[j + 1];
    }
  }

  /** Dropping the first record of a sorted sequence leaves it sorted. */
  lemma TailSorted(s: seq<Item>, key: SortKey, ascending: bool)
    requires SortedBy(s, key, ascending) && s != []
    ensures SortedBy(s[1..], key, ascending)
  {
    forall i, j | 0 <= i < j < |s| - 1 ensures InOrder(s[1..][i], s[1..][j], key, ascending) {
      assert s[1..][i] == s[i + 1] && s[1..][j] == s[j + 1];
    }
  }

  /** The first record of a sorted sequence sorts no later than any of them. */
  lemma FirstIsLeast(s: seq<Item>, m: int, key: SortKey, ascending: bool)
    requires SortedBy(s, key, ascending) && 0 <= m < |s|
    ensures InOrder(s[0], s[m], key, ascending)
  {
    if m == 0 {
      ComparatorReflexive(s[0], key, ascending);
    }
  }

  /** Reversing keeps the keys distinct. */
  lemma ReverseDistinct(s: seq<Item>, key: SortKey)
    requires DistinctKeys(s, key)
    ensures DistinctKeys(Reverse(s), key)
  {
    var r, n := Reverse(s), |s|;
    forall i, j | 0 <= i < j < n ensures KeyOf(r[i], key) != KeyOf(r[j], key) {
      assert r[i] == s[n - 1 - i] && r[j] == s[n - 1 - j];
    }
  }

  /** Sorting the same records first one way and then the other reverses them,
      provided no two records share a key. */
  lemma OppositeSortsReverse(s: seq<Item>, t: seq<Item>, key: SortKey, ascending: bool)
    requires multiset(s) == multiset(t)
    requires SortedBy(s, key, ascending) && SortedBy(t, key, !ascending)
    requires DistinctKeys(s, key)
    ensures t == Reverse(s)
  {
    SortedReverse(s, key, ascending);
    ReversePermutation(s);
    ReverseDistinct(s, key);
    SortedPermutationUnique(Reverse(s), t, key, !ascending);
  }
}
