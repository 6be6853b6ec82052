/** suffixes.go: an earlier suffix-array representation in which each
    suffix is a (corpus, start offset) pair, ordered by a comparison that
    walks both suffixes element by element. The reference to the corpus is modelled
    as the corpus value itself, which nothing here changes. */
module Suffixes {
  import Seqs

  /** A suffix: the corpus it points into and its start offset. */
  datatype Suffix = Suffix(corpus: seq<int>, ix: nat)

  /** The elements the suffix denotes: the corpus from ix on (nothing when
      ix is past the end). */
  function Elements(s: Suffix): (e: seq<int>)
    ensures s.ix <= |s.corpus| ==> e == s.corpus[s.ix..]
    ensures s.ix > |s.corpus| ==> e == []
  {
    if s.ix <= |s.corpus| then s.corpus[s.ix..] else []
  }

  /** The order BySuffix.Less decides: the elements of x sort before those of y. */
  predicate SuffixLess(x: Suffix, y: Suffix)
  {
    Seqs.SeqCmp(Elements(x), Elements(y)) == -1
  }

  /** Suffixes.Len: the number of suffixes. */
  function Len(s: array<Suffix>): int
    reads s
  {
    s.Length
  }

  /** Suffixes.Swap: exchanges suffixes i and j and nothing else. */
  method Swap(s: array<Suffix>, i: nat, j: nat)
    requires i < s.Length && j < s.Length
    modifies s
    ensures s[..] == old(s[..])[i := old(s[j])][j := old(s[i])]
  {
    s[i], s[j] := s[j], s[i];
  }

  /** BySuffix.Less: advance both offsets while they are in range and the
      elements agree; then the smaller element wins, or, when a suffix has
      run out, the suffix that still has elements is the greater one. */
  method Less(s: array<Suffix>, i: nat, j: nat) returns (less: bool)
    requires i < s.Length && j < s.Length
    ensures less <==> SuffixLess(s[i], s[j])
  {
    var corpusi, ixi := s[i].corpus, s[i].ix;
    var corpusj, ixj := s[j].corpus, s[j].ix;
    ghost var ei, ej := Elements(s[i]), Elements(s[j]);
    while ixi < |corpusi| && ixj < |corpusj| && corpusi[ixi] == corpusj[ixj]
      invariant s[i].ix <= ixi && ixi - s[i].ix == ixj - s[j].ix
      invariant ixi > s[i].ix ==> ixi <= |corpusi| && ixj <= |corpusj|
      invariant ixi > s[i].ix ==> ei[..ixi - s[i].ix] == ej[..ixi - s[i].ix]
      decreases |corpusi| - ixi
    {
      ixi, ixj := ixi + 1, ixj + 1;
    }
    var d := ixi - s[i].ix;
    if ixi < |corpusi| && ixj < |corpusj| {
      less := corpusi[ixi] < corpusj[ixj];
      assert ei[d] == corpusi[ixi] && ej[d] == corpusj[ixj];
      Seqs.SeqCmpFirstDifference(ei, ej, d);
    } else if ixj < |corpusj| {
      less := true;
      assert ei == ej[..|ei|];
      Seqs.SeqCmpProperPrefix(ei, ej);
    } else {
      less := false;
      assert ej == ei[..|ej|];
      if |ej| < |ei| {
        Seqs.SeqCmpProperPrefix(ej, ei);
      } else {
        Seqs.SeqCmpZeroIff(ej, ei);
      }
      Seqs.SeqCmpAntisymmetric(ei, ej);
    }
  }

  /** No suffix is less than itself. */
  lemma SuffixLessIrreflexive(x: Suffix)
    ensures !SuffixLess(x, x)
  {
    Seqs.SeqCmpZeroIff(Elements(x), Elements(x));
  }

  /** Less never holds in both directions. */
  lemma SuffixLessAsymmetric(x: Suffix, y: Suffix)
    ensures SuffixLess(x, y) ==> !SuffixLess(y, x)
  {
    Seqs.SeqCmpAntisymmetric(Elements(x), Elements(y));
  }

  /** At the first offset where the two suffixes differ, the element
      comparison decides. */
  lemma SuffixLessAtFirstDifference(x: Suffix, y: Suffix, d: nat)
    requires x.ix + d < |x.corpus| && y.ix + d < |y.corpus|
    requires x.corpus[x.ix..x.ix + d] == y.corpus[y.ix..y.ix + d]
    requires x.corpus[x.ix + d] != y.corpus[y.ix + d]
    ensures SuffixLess(x, y) <==> x.corpus[x.ix + d] < y.corpus[y.ix + d]
  {
    var ex, ey := Elements(x), Elements(y);
    assert ex[..d] == x.corpus[x.ix..x.ix + d] && ey[..d] == y.corpus[y.ix..y.ix + d];
    Seqs.SeqCmpFirstDifference(ex, ey, d);
  }

  /** A suffix that runs out first, agreeing with the other up to there,
      is the lesser one. */
  lemma SuffixLessWhenExhausted(x: Suffix, y: Suffix)
    requires x.ix <= |x.corpus| && y.ix <= |y.corpus|
    requires |x.corpus| - x.ix < |y.corpus| - y.ix
    requires x.corpus[x.ix..] == y.corpus[y.ix..y.ix + |x.corpus| - x.ix]
    ensures SuffixLess(x, y)
  {
    var ex, ey := Elements(x), Elements(y);
    assert ex == ey[..|ex|];
    Seqs.SeqCmpProperPrefix(ex, ey);
  }
}
