/** The bookkeeping of Corpus.slowSearch, on the sequence of comparison
    results it sees: the lower end only moves down to a position whose
    result is 0, the upper end only up to one. */
module Scans {

  /** The lower end after seeing ks, starting from init: the least of init
      and the positions of ks holding 0. */
  function LowestZero(ks: seq<int>, init: int): int
  {
    if ks == [] then init
    else
      var r := LowestZero(ks[..|ks| - 1], init);
      if ks[|ks| - 1] == 0 && |ks| - 1 < r then |ks| - 1 else r
  }

  /** The upper end after seeing ks, starting from init: the greatest of
      init and the positions of ks holding 0. */
  function HighestZero(ks: seq<int>, init: int): int
  {
    if ks == [] then init
    else
      var r := HighestZero(ks[..|ks| - 1], init);
      if ks[|ks| - 1] == 0 && |ks| - 1 > r then |ks| - 1 else r
  }

  /** Seeing one more result k: the lower end moves to its position when k
      is 0 and that position is below it. */
  lemma LowestZeroSnoc(ks: seq<int>, k: int, init: int)
    ensures LowestZero(ks + [k], init) ==
      if k == 0 && |ks| < LowestZero(ks, init) then |ks| else LowestZero(ks, init)
  {
    assert (ks + [k])[..|ks|] == ks;
  }

  /** Seeing one more result k: the upper end moves to its position when k
      is 0 and that position is above it. */
  lemma HighestZeroSnoc(ks: seq<int>, k: int, init: int)
    ensures HighestZero(ks + [k], init) ==
      if k == 0 && |ks| > HighestZero(ks, init) then |ks| else HighestZero(ks, init)
  {
    assert (ks + [k])[..|ks|] == ks;
  }

  /** LowestZero is init or a position holding 0, and no 0 lies below it. */
  lemma {:induction false} LowestZeroBounds(ks: seq<int>, init: int)
    ensures var r := LowestZero(ks, init);
      && (r == init || (0 <= r < |ks| && ks[r] == 0))
      && (forall p :: 0 <= p < |ks| && ks[p] == 0 ==> r <= p)
  {
    if ks != [] {
      LowestZeroBounds(ks[..|ks| - 1], init);
    }
  }

  /** HighestZero is init or a position holding 0, and no 0 lies above it. */
  lemma {:induction false} HighestZeroBounds(ks: seq<int>, init: int)
    ensures var r := HighestZero(ks, init);
      && (r == init || (0 <= r < |ks| && ks[r] == 0))
      && (forall p :: 0 <= p < |ks| && ks[p] == 0 ==> p <= r)
  {
    if ks != [] {
      HighestZeroBounds(ks[..|ks| - 1], init);
    }
  }

  /** Started from (|ks| - 1, 0), the scan ends at the first and the last 0
      when there is one, and where it started when there is none. */
  lemma ZeroScan(ks: seq<int>, lo: int, hi: int)
    requires lo == LowestZero(ks, |ks| - 1) && hi == HighestZero(ks, 0)
    ensures (forall p :: 0 <= p < |ks| ==> ks[p] != 0) ==> lo == |ks| - 1 && hi == 0
    ensures (exists p :: 0 <= p < |ks| && ks[p] == 0) ==> 0 <= lo < |ks| && ks[lo] == 0 && 0 <= hi < |ks| && ks[hi] == 0
    ensures forall p :: 0 <= p < |ks| && ks[p] == 0 ==> lo <= p <= hi
  {
    LowestZeroBounds(ks, |ks| - 1);
    HighestZeroBounds(ks, 0);
  }
}
