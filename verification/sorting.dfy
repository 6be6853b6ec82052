/** The in-place comparison sort that stands for Go's sort.Sort: it sees the
    collection only through a strict "less" relation and exchanges elements
    two at a time, so the result is a permutation of the input in which no
    element is less than the one before it. */
module Sorting {

  /** No element of s is less than its predecessor. */
  predicate NoInversion<T>(s: seq<T>, less: (T, T) -> bool)
  {
    forall k :: 0 < k < |s| ==> !less(s[k], s[k - 1])
  }

  /** less never holds in both directions. */
  ghost predicate Asymmetric<T(!new)>(less: (T, T) -> bool)
  {
    forall x, y :: less(x, y) ==> !less(y, x)
  }

  /** Insertion sort by adjacent exchanges. The only thing asked of less is
      that it is asymmetric, which every Less of the source is. */
  method SortBy<T(!new)>(a: array<T>, less: (T, T) -> bool)
    requires Asymmetric(less)
    modifies a
    ensures NoInversion(a[..], less)
    ensures multiset(a[..]) == old(multiset(a[..]))
  {
    var i := 0;
    while i < a.Length
      invariant 0 <= i <= a.Length
      invariant NoInversion(a[..i], less)
      invariant multiset(a[..]) == old(multiset(a[..]))
    {
      Insert(a, i, less);
      i := i + 1;
    }
    assert a[..] == a[..a.Length];
  }

  /** Moves a[i] down past every element of the sorted prefix a[..i] that it
      is less than. */
  method Insert<T(!new)>(a: array<T>, i: nat, less: (T, T) -> bool)
    requires Asymmetric(less)
    requires i < a.Length && NoInversion(a[..i], less)
    modifies a
    ensures NoInversion(a[..i + 1], less)
    ensures multiset(a[..]) == old(multiset(a[..]))
  {
    var j := i;
    while j > 0 && less(a[j], a[j - 1])
      invariant 0 <= j <= i
      invariant forall k :: 0 < k <= i && k != j ==> !less(a[k], a[k - 1])
      invariant 0 < j < i ==> !less(a[j + 1], a[j - 1])
      invariant multiset(a[..]) == old(multiset(a[..]))
    {
      Exchange(a, j, less);
      j := j - 1;
    }
  }

  /** Exchanges a[j - 1] and a[j]. */
  method Exchange<T(!new)>(a: array<T>, j: nat, less: (T, T) -> bool)
    requires Asymmetric(less)
    requires 0 < j < a.Length && less(a[j], a[j - 1])
    modifies a
    ensures a[..] == old(a[..])[j - 1 := old(a[j])][j := old(a[j - 1])]
    ensures !less(a[j], a[j - 1])
    ensures multiset(a[..]) == old(multiset(a[..]))
  {
    a[j - 1], a[j] := a[j], a[j - 1];
  }
}
