/** The counts Corpus.CoocVector collects: for every occurrence of a query,
    the symbol just before the occurrence's offset and the symbol just
    after that offset. The walk over the suffix array visits the
    occurrences in suffix order; the counts are defined here on the set of
    occurrences, and on any list of offsets, and shown to agree when the
    list has no repeats. */
module Contexts {
  import Sums
  import Coocs
  import opened SuffixArrays

  /** How many of the two neighbours of offset c in s are the symbol x: the
      one before c (when c > 0) and the one after c (when c < |s| - 1).
      The second is the symbol after the whole occurrence only when the
      query has length 1. */
  function Neighbours(s: seq<int>, c: int, x: int): (r: int)
    ensures 0 <= r <= 2
    ensures r == 0 <==> !(0 < c <= |s| && s[c - 1] == x) && !(0 <= c < |s| - 1 && s[c + 1] == x)
  {
    (if 0 < c <= |s| && s[c - 1] == x then 1 else 0) + (if 0 <= c < |s| - 1 && s[c + 1] == x then 1 else 0)
  }

  /** Neighbours as a function of the offset, for summing. */
  function NeighbourCounter(s: seq<int>, x: int): int -> int
  {
    c => Neighbours(s, c, x)
  }

  /** The weight CoocVector(q) gives to x: its neighbour count summed over
      the offsets at which q occurs. */
  ghost function ContextCount(s: seq<int>, q: seq<int>, x: int): int
  {
    Sums.SumInt(Occurrences(s, q), NeighbourCounter(s, x))
  }

  /** Neighbour counts of x summed along a list of offsets: the weight the
      walk of CoocVector has given x after visiting cs. Each offset adds at
      most two. */
  function ListCount(s: seq<int>, cs: seq<int>, x: int): (r: int)
    ensures 0 <= r <= 2 * |cs|
  {
    if cs == [] then 0 else ListCount(s, cs[..|cs| - 1], x) + Neighbours(s, cs[|cs| - 1], x)
  }

  /** dat holds, for every symbol with a positive count along cs, that
      count, and no other key. */
  ghost predicate CountsMatch(dat: map<int, real>, s: seq<int>, cs: seq<int>)
  {
    forall x :: (x in dat <==> ListCount(s, cs, x) > 0) && (x in dat ==> dat[x] == ListCount(s, cs, x) as real)
  }

  /** What the loop body of CoocVector does to the weights for the offset
      c: one Cooc.Inc for the symbol before c, one for the symbol after. */
  function VisitOffset(dat: map<int, real>, s: seq<int>, c: int): map<int, real>
    requires 0 <= c < |s|
  {
    var before := if c > 0 then dat[s[c - 1] := Coocs.Weight(dat, s[c - 1]) + 1.0] else dat;
    if c < |s| - 1 then before[s[c + 1] := Coocs.Weight(before, s[c + 1]) + 1.0] else before
  }

  /** Visiting one more offset keeps the weights equal to the counts along
      the offsets visited. */
  lemma VisitKeepsCounts(dat: map<int, real>, s: seq<int>, cs: seq<int>, c: int)
    requires CountsMatch(dat, s, cs) && 0 <= c < |s|
    ensures CountsMatch(VisitOffset(dat, s, c), s, cs + [c])
  {
    var cs' := cs + [c];
    assert cs'[..|cs'| - 1] == cs;
    var dat' := VisitOffset(dat, s, c);
    var before := if c > 0 then dat[s[c - 1] := Coocs.Weight(dat, s[c - 1]) + 1.0] else dat;
    forall x
      ensures (x in dat' <==> ListCount(s, cs', x) > 0)
      ensures x in dat' ==> dat'[x] == ListCount(s, cs', x) as real
    {
      assert ListCount(s, cs', x) == ListCount(s, cs, x) + Neighbours(s, c, x);
      var b := if 0 < c && s[c - 1] == x then 1 else 0;
      var a := if c < |s| - 1 && s[c + 1] == x then 1 else 0;
      assert Neighbours(s, c, x) == b + a;
      assert x in before <==> x in dat || b == 1;
      assert Coocs.Weight(before, x) == Coocs.Weight(dat, x) + b as real;
      assert x in dat' <==> x in before || a == 1;
      assert Coocs.Weight(dat', x) == Coocs.Weight(before, x) + a as real;
    }
  }

  /** Along a list with no repeated offset the count is the sum over the
      set of its offsets. */
  lemma {:induction false} ListCountAsSum(s: seq<int>, cs: seq<int>, x: int)
    requires Distinct(cs)
    ensures ListCount(s, cs, x) == Sums.SumInt(ToSet(cs), NeighbourCounter(s, x))
    decreases |cs|
  {
    if cs != [] {
      var init, c := cs[..|cs| - 1], cs[|cs| - 1];
      assert Distinct(init);
      ListCountAsSum(s, init, x);
      assert ToSet(cs) == ToSet(init) + {c} by {
        assert cs == init + [c];
      }
      assert c !in ToSet(init);
      Sums.SumIntInsert(ToSet(init), NeighbourCounter(s, x), c);
    }
  }

  /** After the walk over the block lo .. hi of suffix-array positions at
      which q matches, the weights are the context counts of q. */
  lemma WalkComplete(dat: map<int, real>, s: seq<int>, sa: seq<int>, q: seq<int>, lo: nat, hi: nat)
    requires IsSuffixArray(s, sa) && lo <= hi < |sa|
    requires forall p :: 0 <= p < |sa| ==> (MatchesAt(s, sa, q, p) <==> lo <= p <= hi)
    requires CountsMatch(dat, s, sa[lo..hi + 1])
    ensures forall x :: Coocs.Weight(dat, x) == ContextCount(s, q, x) as real
    ensures forall x :: x in dat <==> ContextCount(s, q, x) > 0
  {
    BlockOccurrences(s, sa, q, lo, hi);
    forall x
      ensures ListCount(s, sa[lo..hi + 1], x) == ContextCount(s, q, x)
    {
      ListCountAsSum(s, sa[lo..hi + 1], x);
    }
  }

  /** Each occurrence contributes at most two neighbours. */
  lemma {:induction false} ContextCountBound(s: seq<int>, q: seq<int>, x: int)
    ensures 0 <= ContextCount(s, q, x) <= 2 * |Occurrences(s, q)|
  {
    Sums.SumIntAtMostTwo(Occurrences(s, q), NeighbourCounter(s, x));
  }
}
