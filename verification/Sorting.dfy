/** The sorting routines of the standard library, known by their contracts only. */
module Sorting {

  ghost predicate IsOrder<T(!new)>(before: (T, T) -> bool) {
    && (forall x, y :: before(x, y) ==> !before(y, x))
    && (forall x, y, z :: !before(y, x) && !before(z, y) ==> !before(z, x))
  }

  ghost predicate Sorted<T>(s: seq<T>, before: (T, T) -> bool) {
    forall i, j | 0 <= i < j < |s| :: !before(s[j], s[i])
  }

  /** Stable sort. A sequence that is sorted already stays as it is. */
  method Sort<T(!new)>(s: seq<T>, before: (T, T) -> bool) returns (sorted: seq<T>)
    requires IsOrder(before)
    ensures Sorted(sorted, before)
    ensures multiset(sorted) == multiset(s)
    ensures Sorted(s, before) ==> sorted == s
  {
    sorted := [];
    for i := 0 to |s|
      invariant Sorted(sorted, before)
      invariant |sorted| == i
      invariant multiset(sorted) == multiset(s[..i])
      invariant Sorted(s, before) ==> sorted == s[..i]
    {
      var x, k := s[i], i;
      while k > 0 && before(x, sorted[k - 1])
        invariant k <= i
        invariant forall j | k <= j < i :: before(x, sorted[j])
        invariant Sorted(s, before) ==> k == i
      {
        k := k - 1;
      }
      InsertKeepsSorted(sorted, x, k, before);
      InsertKeepsElements(sorted, x, k);
      assert s[..i + 1] == s[..i] + [x];
      sorted := sorted[..k] + [x] + sorted[k..];
    }
    assert s[..|s|] == s;
  }

  lemma InsertKeepsElements<T>(s: seq<T>, x: T, k: nat)
    requires k <= |s|
    ensures multiset(s[..k] + [x] + s[k..]) == multiset(s + [x])
    ensures k == |s| ==> s[..k] + [x] + s[k..] == s + [x]
  {
    assert s == s[..k] + s[k..];
  }

  lemma InsertKeepsSorted<T(!new)>(s: seq<T>, x: T, k: nat, before: (T, T) -> bool)
    requires IsOrder(before) && Sorted(s, before)
    requires k <= |s|
    requires k > 0 ==> !before(x, s[k - 1])
    requires forall j | k <= j < |s| :: before(x, s[j])
    ensures Sorted(s[..k] + [x] + s[k..], before)
  {
    var t := s[..k] + [x] + s[k..];
    assert forall j | 0 <= j < k :: t[j] == s[j] && !before(x, s[j]);
    assert forall j | k < j < |t| :: t[j] == s[j - 1];
  }

  /** Sort that promises nothing about the order of equal elements. */
  method SortUnstable<T(!new)>(s: seq<T>, before: (T, T) -> bool) returns (sorted: seq<T>)
    requires IsOrder(before)
    ensures Sorted(sorted, before)
    ensures multiset(sorted) == multiset(s)
  {
    sorted := Sort(s, before);
  }

  /** Sorting moves elements around but keeps each of them. */
  lemma SameElements<T>(a: seq<T>, b: seq<T>)
    requires multiset(a) == multiset(b)
    ensures forall k | 0 <= k < |a| :: a[k] in b
  {
    forall k | 0 <= k < |a|
      ensures a[k] in b
    {
      assert multiset(b)[a[k]] == multiset(a)[a[k]] > 0;
    }
  }
}
