/** corpus.go: a corpus of integer symbols with a vocabulary and a suffix
    array over it, and the searches, counts and walks built on the suffix
    array. */
module Corpora {
  import Seqs
  import Sorting
  import Sums
  import Scans
  import Coocs
  import opened Contexts
  import opened Vocabularies
  import opened SuffixArrays

  class Corpus {
    /** Mapping from input string tokens to their integer ids. */
    var voc: map<string, int>
    /** The corpus as a sequence of ids. */
    var sequence: seq<int>
    /** The suffix array: corpus offsets ordered by the suffix starting there. */
    var sfx: array<int>

    /** The suffix array is a suffix array of the sequence, and the ids in
        the sequence are exactly 0 .. |voc| - 1, as CorpusFromFile numbers
        them. */
    ghost predicate Valid()
      reads this, sfx
    {
      IsSuffixArray(sequence, sfx[..]) && ToSet(sequence) == Ids(|voc|)
    }

    /** CorpusFromFile from the token list on: each token met for the first
        time gets the next id (0, 1, ...), the corpus is the list of the
        tokens' ids, and the suffix array is built over it. Reading and
        tokenizing the file is not part of this model; the tokens are the
        argument. */
    constructor FromTokens(tokens: seq<string>)
      ensures Valid() && fresh(sfx)
      ensures VocabularyOf(tokens, |tokens|, voc, sequence)
    {
      var v: map<string, int> := map[];
      var s: seq<int> := [];
      var typeCtr := 0;
      VocabularyEmpty(tokens);
      for i := 0 to |tokens|
        invariant typeCtr == |v| && VocabularyOf(tokens, i, v, s)
      {
        var token := tokens[i];
        if token !in v {
          VocabularyNew(tokens, i, v, s);
          v := v[token := typeCtr];
          typeCtr := typeCtr + 1;
        } else {
          VocabularyKnown(tokens, i, v, s);
        }
        s := s + [v[token]];
      }
      voc := v;
      sequence := s;
      sfx := new int[0];
      new;
      SetSuffixArray();
    }

    // -------------------------------------------------------------------
    // Sort interface
    // -------------------------------------------------------------------

    /** Corpus.Len: the number of corpus positions (and of suffixes). */
    function Len(): int
      reads this
    {
      |sequence|
    }

    /** Corpus.Swap: exchanges suffix-array entries i and j and nothing else. */
    method Swap(i: nat, j: nat)
      requires i < sfx.Length && j < sfx.Length
      modifies sfx
      ensures sfx[..] == old(sfx[..])[i := old(sfx[j])][j := old(sfx[i])]
    {
      sfx[i], sfx[j] := sfx[j], sfx[i];
    }

    /** Corpus.Less: the suffix at suffix-array position i is less than the
        one at position j. */
    predicate Less(i: nat, j: nat)
      requires i < sfx.Length && j < sfx.Length
      reads this, sfx
    {
      SuffixLess(sequence, sfx[i], sfx[j])
    }

    /** Less is a strict order on suffix-array positions, and positions that
        are mutually not less hold equal suffixes. */
    lemma LessIsStrictOrder(i: nat, j: nat, k: nat)
      requires i < sfx.Length && j < sfx.Length && k < sfx.Length
      ensures !Less(i, i)
      ensures Less(i, j) ==> !Less(j, i)
      ensures Less(i, j) && Less(j, k) ==> Less(i, k)
      ensures !Less(i, j) && !Less(j, i) ==> SuffixAt(sequence, sfx[i]) == SuffixAt(sequence, sfx[j])
    {
      var si, sj, sk := SuffixAt(sequence, sfx[i]), SuffixAt(sequence, sfx[j]), SuffixAt(sequence, sfx[k]);
      Seqs.SeqCmpZeroIff(si, si);
      Seqs.SeqCmpZeroIff(si, sj);
      Seqs.SeqCmpAntisymmetric(si, sj);
      if Less(i, j) && Less(j, k) {
        Seqs.SeqCmpStrictTransitive(si, sj, sk);
      }
    }

    // -------------------------------------------------------------------
    // Suffix array
    // -------------------------------------------------------------------

    /** Corpus.SetSuffixArray: a fresh array holding 0 .. n-1, sorted in
        place by suffix order. */
    method SetSuffixArray()
      modifies this
      ensures fresh(sfx) && IsSuffixArray(sequence, sfx[..])
      ensures sequence == old(sequence) && voc == old(voc)
    {
      var a := new int[|sequence|];
      var i := 0;
      while i < a.Length
        invariant 0 <= i <= a.Length
        invariant forall k :: 0 <= k < i ==> a[k] == k
        modifies a
      {
        a[i] := i;
        i := i + 1;
      }
      assert a[..] == Range(|sequence|);
      var s := sequence;
      forall x: int, y: int
        ensures SuffixLess(s, x, y) ==> !SuffixLess(s, y, x)
      {
        Seqs.SeqCmpAntisymmetric(SuffixAt(s, x), SuffixAt(s, y));
      }
      Sorting.SortBy(a, (x: int, y: int) => SuffixLess(s, x, y));
      forall p | 0 <= p < a.Length
        ensures 0 <= a[p] < |s|
      {
        PermutationInRange(a[..], |s|, p);
      }
      sfx := a;
    }

    // -------------------------------------------------------------------
    // Searches
    // -------------------------------------------------------------------

    /** Corpus.binarySearchMin on positions smin0 .. smax0: the least
        position there whose suffix starts with q, or -1 when there is none.
        The equality test is made once, after the loop; on the way the
        search records as right bound the leftmost position seen whose
        suffix is above q, past which nothing in the range matches. */
    method BinarySearchMin(q: seq<int>, smin0: int, smax0: int) returns (lo: int, rightBound: int)
      requires KeySorted(sequence, sfx[..], q) && 0 <= smin0 <= smax0 + 1 && smax0 < sfx.Length
      ensures lo == -1 <==> forall p :: smin0 <= p <= smax0 ==> !MatchesAt(sequence, sfx[..], q, p)
      ensures lo != -1 ==> smin0 <= lo <= smax0 && MatchesAt(sequence, sfx[..], q, lo) && forall p :: smin0 <= p < lo ==> !MatchesAt(sequence, sfx[..], q, p)
      ensures lo != -1 ==> lo <= rightBound <= smax0 && forall p :: rightBound < p <= smax0 ==> !MatchesAt(sequence, sfx[..], q, p)
      ensures lo == -1 ==> rightBound == -1
    {
      ghost var s, sa := sequence, sfx[..];
      MatchIffKeyZero(s, sa, q);
      rightBound := smax0;
      var smin, smax := smin0, smax0;
      while smax > smin
        invariant smin0 <= smin <= smax + 1 && smax <= smax0
        invariant forall p :: smin0 <= p < smin ==> Key(s, sa, q, p) == -1
        invariant smax < smax0 ==> smin <= smax && Key(s, sa, q, smax) >= 0
        invariant smax <= rightBound <= smax0
        invariant rightBound < smax0 ==> 0 <= rightBound && Key(s, sa, q, rightBound) == 1
      {
        var smid := (smin + smax) / 2;
        var cmp := Seqs.SeqCmpLimited(SuffixAt(sequence, sfx[smid]), q, |q|);
        assert cmp == Key(s, sa, q, smid);
        if cmp == 1 && smid < rightBound {
          rightBound := smid;
        }
        if cmp == -1 {
          smin := smid + 1;
        } else {
          smax := smid;
        }
      }
      MinSearchExit(s, sa, q, smin0, smax0, smin, smax);
      if smax == smin && Seqs.SeqCmpLimited(q, SuffixAt(sequence, sfx[smin]), |q|) == 0 {
        Seqs.SeqCmpLimitedSymmetricZero(q, SuffixAt(s, sa[smin]), |q|);
        assert Key(s, sa, q, smin) == 0;
        assert MatchesAt(s, sa, q, smin);
        assert MatchesAt(sequence, sfx[..], q, smin);
        assert forall p :: smin0 <= p < smin ==> !MatchesAt(s, sa, q, p);
        forall p | rightBound < p <= smax0
          ensures Key(s, sa, q, p) == 1
        {
          assert Key(s, sa, q, rightBound) <= Key(s, sa, q, p);
        }
        return smin, rightBound;
      }
      if smax == smin {
        Seqs.SeqCmpLimitedSymmetricZero(q, SuffixAt(s, sa[smin]), |q|);
      }
      return -1, -1;
    }

    /** Corpus.binarySearchMax on positions smin0 .. smax0: the greatest
        position there whose suffix starts with q, or -1 when there is none;
        the left bound it records is the rightmost position seen whose suffix
        is below q, before which nothing in the range matches. */
    method BinarySearchMax(q: seq<int>, smin0: int, smax0: int) returns (hi: int, leftBound: int)
      requires KeySorted(sequence, sfx[..], q) && 0 <= smin0 <= smax0 + 1 && smax0 < sfx.Length
      ensures hi == -1 <==> forall p :: smin0 <= p <= smax0 ==> !MatchesAt(sequence, sfx[..], q, p)
      ensures hi != -1 ==> smin0 <= hi <= smax0 && MatchesAt(sequence, sfx[..], q, hi) && forall p :: hi < p <= smax0 ==> !MatchesAt(sequence, sfx[..], q, p)
      ensures hi != -1 ==> smin0 <= leftBound <= hi && forall p :: smin0 <= p < leftBound ==> !MatchesAt(sequence, sfx[..], q, p)
      ensures hi == -1 ==> leftBound == -1
    {
      ghost var s, sa := sequence, sfx[..];
      MatchIffKeyZero(s, sa, q);
      leftBound := smin0;
      var smin, smax := smin0, smax0;
      while smax > smin
        invariant smin0 <= smin <= smax + 1 && smax <= smax0
        invariant forall p :: smax < p <= smax0 ==> Key(s, sa, q, p) == 1
        invariant smin > smin0 ==> smin <= smax && Key(s, sa, q, smin) <= 0
        invariant smin0 <= leftBound <= smin
        invariant leftBound > smin0 ==> leftBound <= smax0 && Key(s, sa, q, leftBound) == -1
      {
        var smid := (smin + smax) / 2 + 1;
        var cmp := Seqs.SeqCmpLimited(SuffixAt(sequence, sfx[smid]), q, |q|);
        assert cmp == Key(s, sa, q, smid);
        if cmp == -1 && smid > leftBound {
          leftBound := smid;
        }
        if cmp == 1 {
          smax := smid - 1;
        } else {
          smin := smid;
        }
      }
      MaxSearchExit(s, sa, q, smin0, smax0, smin, smax);
      if smax == smin && Seqs.SeqCmpLimited(q, SuffixAt(sequence, sfx[smin]), |q|) == 0 {
        Seqs.SeqCmpLimitedSymmetricZero(q, SuffixAt(s, sa[smin]), |q|);
        assert Key(s, sa, q, smin) == 0;
        assert MatchesAt(s, sa, q, smin);
        assert MatchesAt(sequence, sfx[..], q, smin);
        assert forall p :: smin < p <= smax0 ==> !MatchesAt(s, sa, q, p);
        forall p | smin0 <= p < leftBound
          ensures Key(s, sa, q, p) == -1
        {
          assert Key(s, sa, q, p) <= Key(s, sa, q, leftBound);
        }
        return smin, leftBound;
      }
      if smax == smin {
        Seqs.SeqCmpLimitedSymmetricZero(q, SuffixAt(s, sa[smin]), |q|);
      }
      return -1, -1;
    }

    /** Corpus.SuffixSearch: (-1, -1) when q does not occur (in particular in
        an empty corpus); otherwise the block slo .. shi of suffix-array
        positions whose suffix starts with q, exactly. */
    method SuffixSearch(q: seq<int>) returns (slo: int, shi: int)
      requires Valid()
      ensures slo == -1 <==> Occurrences(sequence, q) == {}
      ensures slo == -1 ==> shi == -1
      ensures slo != -1 ==> 0 <= slo <= shi < sfx.Length
      ensures slo != -1 ==> forall p :: 0 <= p < sfx.Length ==> (MatchesAt(sequence, sfx[..], q, p) <==> slo <= p <= shi)
    {
      KeySortedFromSuffixArray(sequence, sfx[..], q);
      var rightBound;
      slo, rightBound := BinarySearchMin(q, 0, sfx.Length - 1);
      OccursIffMatch(sequence, sfx[..], q);
      if slo == -1 {
        assert forall p :: 0 <= p < |sfx[..]| ==> !MatchesAt(sequence, sfx[..], q, p);
        return -1, -1;
      }
      var leftBound;
      shi, leftBound := BinarySearchMax(q, slo, rightBound);
      assert shi != -1 by {
        assert MatchesAt(sequence, sfx[..], q, slo);
      }
      forall p | slo <= p <= shi
        ensures MatchesAt(sequence, sfx[..], q, p)
      {
        MatchesContiguous(sequence, sfx[..], q, slo, p, shi);
      }
    }

    /** Corpus.Find: the corpus offsets at which q occurs, each once, read
        off the block of the suffix array SuffixSearch returns, and so in
        the order of their suffixes. When q does not occur the source
        indexes sfx[-1], so q must occur. */
    method Find(q: seq<int>) returns (indices: seq<int>, ghost slo: int)
      requires Valid() && Occurrences(sequence, q) != {}
      ensures ToSet(indices) == Occurrences(sequence, q)
      ensures Distinct(indices)
      ensures |indices| == |Occurrences(sequence, q)|
      ensures 0 <= slo && slo + |indices| <= sfx.Length && indices == sfx[slo..slo + |indices|]
      ensures forall p :: 0 <= p < sfx.Length ==> (MatchesAt(sequence, sfx[..], q, p) <==> slo <= p < slo + |indices|)
    {
      var lo, shi := SuffixSearch(q);
      slo := lo;
      var a := new int[shi - lo + 1];
      var i := 0;
      var spos := lo;
      while spos <= shi
        invariant lo <= spos <= shi + 1 && i == spos - lo
        invariant a[..i] == sfx[lo..spos]
        modifies a
      {
        a[i] := sfx[spos];
        i := i + 1;
        spos := spos + 1;
      }
      indices := a[..];
      assert indices == a[..i];
      BlockOccurrences(sequence, sfx[..], q, slo, shi);
    }

    /** Corpus.Frequency: the number of corpus offsets at which q occurs, 0
        exactly when it does not occur. */
    method Frequency(q: seq<int>) returns (f: int)
      requires Valid()
      ensures f == |Occurrences(sequence, q)|
      ensures f == 0 <==> Occurrences(sequence, q) == {}
    {
      var slo, shi := SuffixSearch(q);
      if slo == -1 {
        return 0;
      }
      BlockOccurrences(sequence, sfx[..], q, slo, shi);
      return (shi - slo) + 1;
    }

    /** Corpus.Ngrams: walking the suffix array, the first order elements
        of each suffix long enough, kept when they differ from the last one
        kept. The result lists every distinct window of that length once, in
        strictly ascending order; with order 1 there is one per vocabulary
        entry. */
    method Ngrams(order: nat) returns (ngrams: seq<seq<int>>)
      requires Valid()
      ensures forall g :: g in ngrams ==> |g| == order
      ensures forall i :: 0 < i < |ngrams| ==> Seqs.SeqCmp(ngrams[i - 1], ngrams[i]) == -1
      ensures ToSet(ngrams) == Windows(sequence, order)
      ensures |ngrams| == |Windows(sequence, order)|
      ensures order == 1 ==> |ngrams| == |voc|
    {
      ngrams := [];
      // The suffix-array position each kept ngram was read from.
      ghost var from: seq<nat> := [];
      var spos := 0;
      while spos < sfx.Length
        invariant 0 <= spos <= sfx.Length
        invariant NgramsSoFar(sequence, sfx[..], order, spos, ngrams, from)
      {
        NgramsAdvance(sequence, sfx[..], order, spos, ngrams, from);
        var slice := SuffixAt(sequence, sfx[spos]);
        if |slice| >= order && (|ngrams| == 0 || Seqs.SeqCmpLimited(ngrams[|ngrams| - 1], slice, order) != 0) {
          ngrams := ngrams + [slice[..order]];
          from := from + [spos];
        }
        spos := spos + 1;
      }
      NgramsComplete(sequence, sfx[..], order, ngrams, from);
      if order == 1 {
        UnigramWindows(sequence, |voc|);
      }
    }

    /** Corpus.CoocVector: a fresh co-occurrence vector for q whose weight
        for x is how often x stands just before, or just after, an offset
        at which q occurs; the symbols never seen there have no entry. The
        source reads sfx[-1] when q does not occur, so q must occur. */
    method CoocVector(q: seq<int>) returns (cooc: Coocs.Cooc)
      requires Valid() && Occurrences(sequence, q) != {}
      ensures fresh(cooc) && cooc.sequence == q
      ensures forall x :: cooc.Get(x) == ContextCount(sequence, q, x) as real
      ensures forall x :: x in cooc.dat <==> ContextCount(sequence, q, x) > 0
    {
      var slo, shi := SuffixSearch(q);
      cooc := CountNeighbours(q, slo, shi);
      WalkComplete(cooc.dat, sequence, sfx[..], q, slo, shi);
    }

    /** The loop of CoocVector over the suffix-array positions slo .. shi:
        for each offset there, one Cooc.Inc for the symbol before it and
        one for the symbol after it. */
    method CountNeighbours(q: seq<int>, slo: int, shi: int) returns (cooc: Coocs.Cooc)
      requires 0 <= slo <= shi < sfx.Length
      requires forall p :: 0 <= p < sfx.Length ==> 0 <= sfx[p] < |sequence|
      ensures fresh(cooc) && cooc.sequence == q
      ensures CountsMatch(cooc.dat, sequence, sfx[slo..shi + 1])
    {
      cooc := new Coocs.Cooc(q);
      var spos := slo;
      while spos <= shi
        invariant slo <= spos <= shi + 1
        invariant cooc.sequence == q
        invariant CountsMatch(cooc.dat, sequence, sfx[slo..spos])
      {
        var cpos := sfx[spos];
        ghost var before := cooc.dat;
        if cpos > 0 {
          cooc.Inc(sequence[cpos - 1]);
        }
        if cpos < |sequence| - 1 {
          cooc.Inc(sequence[cpos + 1]);
        }
        assert cooc.dat == VisitOffset(before, sequence, cpos);
        VisitKeepsCounts(before, sequence, sfx[slo..spos], cpos);
        assert sfx[slo..spos + 1] == sfx[slo..spos] + [cpos];
        spos := spos + 1;
      }
    }

    /** Corpus.Corpus: a copy of the corpus, built element by element. */
    method CorpusCopy() returns (r: seq<int>)
      ensures r == sequence
    {
      r := [];
      for cpos := 0 to |sequence|
        invariant r == sequence[..cpos]
      {
        r := r + [sequence[cpos]];
      }
    }

    /** Corpus.ToString: each id rendered as a token whose id it is, or as
        Unknown when no token has it. */
    method ToString(ids: seq<int>) returns (strings: seq<string>)
      ensures |strings| == |ids|
      ensures forall i :: 0 <= i < |ids| ==> Renders(voc, ids[i], strings[i])
    {
      strings := [];
      for pos := 0 to |ids|
        invariant |strings| == pos
        invariant forall i :: 0 <= i < pos ==> Renders(voc, ids[i], strings[i])
      {
        var str := TokenOf(ids[pos]);
        strings := strings + [str];
      }
    }

    /** The inner loop of Corpus.ToString: ranging over the vocabulary until
        a token with the id turns up, Unknown when none does. */
    method TokenOf(id: int) returns (str: string)
      ensures Renders(voc, id, str)
    {
      str := Unknown;
      var rest := voc.Keys;
      while rest != {}
        invariant rest <= voc.Keys
        invariant forall t :: t in voc.Keys - rest ==> voc[t] != id
        decreases |rest|
      {
        var t := Sums.Pick(rest);
        if voc[t] == id {
          str := t;
          return;
        }
        rest := rest - {t};
      }
    }

    /** Corpus.slowSearch: a linear scan recording the least and greatest
        matching positions. When q does not occur it returns (n-1, 0), its
        initial values, and not (-1, -1). */
    method SlowSearch(q: seq<int>) returns (slo: int, shi: int)
      ensures (forall p :: 0 <= p < sfx.Length ==> !MatchesAt(sequence, sfx[..], q, p)) ==> slo == sfx.Length - 1 && shi == 0
      ensures (exists p :: 0 <= p < sfx.Length && MatchesAt(sequence, sfx[..], q, p)) ==>
        MatchesAt(sequence, sfx[..], q, slo) && MatchesAt(sequence, sfx[..], q, shi)
      ensures forall p :: 0 <= p < sfx.Length && MatchesAt(sequence, sfx[..], q, p) ==> slo <= p <= shi
    {
      slo, shi := ScanKeys(q);
      assert |sfx[..]| == sfx.Length;
      ScanResult(sequence, sfx[..], q, slo, shi);
    }

    /** The loop of slowSearch: starting from (n-1, 0), the lower end moves
        down to every position whose key is 0 and the upper end up to it. */
    method ScanKeys(q: seq<int>) returns (slo: int, shi: int)
      ensures slo == Scans.LowestZero(KeyList(sequence, sfx[..], q, sfx.Length), sfx.Length - 1)
      ensures shi == Scans.HighestZero(KeyList(sequence, sfx[..], q, sfx.Length), 0)
    {
      ghost var sa := sfx[..];
      slo, shi := sfx.Length - 1, 0;
      var spos := 0;
      while spos < sfx.Length
        invariant 0 <= spos <= |sa|
        invariant slo == Scans.LowestZero(KeyList(sequence, sa, q, spos), |sa| - 1)
        invariant shi == Scans.HighestZero(KeyList(sequence, sa, q, spos), 0)
      {
        var cmp := Seqs.SeqCmpLimited(SuffixAt(sequence, sfx[spos]), q, |q|);
        ghost var slo0, shi0 := slo, shi;
        if cmp == 0 {
          if spos < slo {
            slo := spos;
          }
          if spos > shi {
            shi := spos;
          }
        }
        ScanStep(sequence, sa, q, spos, slo0, shi0, slo, shi);
        spos := spos + 1;
      }
    }

    /** The comparison of corpus_test.go: the fast and the slow search give
        the same pair exactly when q occurs. */
    method SearchesAgree(q: seq<int>) returns (agree: bool)
      requires Valid()
      ensures agree <==> Occurrences(sequence, q) != {}
    {
      var sloSlow, shiSlow := SlowSearch(q);
      var sloFast, shiFast := SuffixSearch(q);
      agree := sloSlow == sloFast && shiSlow == shiFast;
      if sloFast != -1 {
        assert MatchesAt(sequence, sfx[..], q, sloFast);
        assert MatchesAt(sequence, sfx[..], q, shiFast);
      }
    }
  }
}
