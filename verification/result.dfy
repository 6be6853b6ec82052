/** result.go: sequences paired with a value, sorted so that the greatest
    values come first. Values are float64 in the source and exact reals
    here. */
module Results {
  import Sorting

  /** Result: a sequence and the quantity assigned to it. */
  datatype Result = Result(sequence: seq<int>, val: real)

  /** Results.Len: the number of results. */
  function Len(r: array<Result>): int
    reads r
  {
    r.Length
  }

  /** Results.Swap: exchanges results i and j and nothing else. */
  method Swap(r: array<Result>, i: nat, j: nat)
    requires i < r.Length && j < r.Length
    modifies r
    ensures r[..] == old(r[..])[i := old(r[j])][j := old(r[i])]
  {
    r[i], r[j] := r[j], r[i];
  }

  /** The order of Results.Less on two results: the greater value first. */
  function Before(x: Result, y: Result): bool
  {
    x.val > y.val
  }

  /** Results.Less: result i comes before result j when its value is
      greater. */
  predicate Less(r: array<Result>, i: nat, j: nat)
    requires i < r.Length && j < r.Length
    reads r
  {
    Before(r[i], r[j])
  }

  /** Less is irreflexive, asymmetric and transitive: a strict order. */
  lemma LessIsStrictOrder(x: Result, y: Result, z: Result)
    ensures !Before(x, x)
    ensures Before(x, y) ==> !Before(y, x)
    ensures Before(x, y) && Before(y, z) ==> Before(x, z)
  {
  }

  /** No value is greater than the one before it. */
  ghost predicate Descending(r: seq<Result>)
  {
    forall k :: 0 < k < |r| ==> r[k - 1].val >= r[k].val
  }

  /** sort.Sort(results): the results, permuted, with the values in
      non-increasing order. */
  method SortDescending(r: array<Result>)
    modifies r
    ensures Descending(r[..])
    ensures multiset(r[..]) == old(multiset(r[..]))
  {
    Sorting.SortBy(r, Before);
  }

  /** In a descending list every value is at most the one at any earlier
      position; in particular the first value is the greatest. */
  lemma {:induction false} DescendingFromEarlier(r: seq<Result>, i: nat, j: nat)
    requires Descending(r) && i <= j < |r|
    ensures r[i].val >= r[j].val
    decreases j - i
  {
    if i < j {
      DescendingFromEarlier(r, i, j - 1);
    }
  }
}
