/** mdl_segmenter.go: a segmenter that holds a training sequence and a set
    of accepted ngrams, cuts the sequence greedily into the longest accepted
    ngrams, and counts the unigram and bigram statistics of the cut. Labels
    are the ngrams themselves rather than their "%v" renderings. */
module Segmenter {
  import Sums
  import NgramSets
  import Corpora
  import opened Segmentations
  import opened SegmentStats

  class MDLSegmenter {
    /** The training sequence. */
    var sequence: seq<int>
    /** The ngrams accepted as segments. */
    var ngrams: NgramSets.NgramSet

    /** Every accepted ngram is stored under its own key. */
    ghost predicate Valid()
      reads this, ngrams
    {
      NgramSets.KeyedByValue(ngrams.ngrams)
    }

    /** The accepted ngrams: the values a range over the set visits. */
    ghost function Accepted(): set<seq<int>>
      reads this, ngrams
    {
      ngrams.ngrams.Values
    }

    /** NewMDLSegmenter: the corpus's sequence and no accepted ngram. */
    constructor (corpus: Corpora.Corpus)
      ensures sequence == corpus.sequence && fresh(ngrams) && ngrams.ngrams == map[]
      ensures Valid() && Accepted() == {}
    {
      sequence := corpus.sequence;
      ngrams := new NgramSets.NgramSet();
    }

    /** AddNgram: the ngram becomes accepted; nothing else changes. */
    method AddNgram(ngram: seq<int>)
      requires Valid()
      modifies ngrams
      ensures ngrams.ngrams == NgramSets.Added(old(ngrams.ngrams), ngram)
      ensures Valid() && Accepted() == old(Accepted()) + {ngram}
      ensures unchanged(this)
    {
      ngrams.Add(ngram);
      NgramSets.KeyedByValuePreserved(old(ngrams.ngrams), ngram);
      NgramSets.KeyedValues(old(ngrams.ngrams));
      NgramSets.KeyedValues(ngrams.ngrams);
    }

    /** RemoveNgram: the ngram is no longer accepted; nothing else
        changes. */
    method RemoveNgram(ngram: seq<int>)
      requires Valid()
      modifies ngrams
      ensures ngrams.ngrams == NgramSets.Removed(old(ngrams.ngrams), ngram)
      ensures Valid() && Accepted() == old(Accepted()) - {ngram}
      ensures unchanged(this)
    {
      ngrams.Remove(ngram);
      NgramSets.KeyedByValuePreserved(old(ngrams.ngrams), ngram);
      NgramSets.KeyedValues(old(ngrams.ngrams));
      NgramSets.KeyedValues(ngrams.ngrams);
    }

    /** Match: ranging over the accepted ngrams, keep the longest one that
        s starts with; with none, the first element of s. The result is
        LongestMatch whatever order the range visits them in. */
    method Match(s: seq<int>) returns (m: seq<int>)
      requires 0 < |s|
      ensures m == LongestMatch(Accepted(), s)
    {
      ghost var accepted := Accepted();
      var best: seq<int> := [];
      var rest := ngrams.ngrams.Values;
      while rest != {}
        invariant rest <= accepted
        invariant best == [] || Candidate(accepted, s, best)
        invariant forall g :: Candidate(accepted, s, g) && g !in rest ==> |g| <= |best|
        decreases |rest|
      {
        var g := Sums.Pick(rest);
        rest := rest - {g};
        if |g| <= |s| {
          var matches := PrefixMatches(g, s);
          if matches && |g| > |best| {
            best := g;
          }
        }
      }
      if best == [] {
        best := s[..1];
      }
      m := best;
      LongestMatchUnique(accepted, s, m);
    }

    /** Segment: from the start of the sequence, take the match of what is
        left, record it and move past it, until the sequence is used up. */
    method Segment() returns (labels: seq<seq<int>>)
      ensures labels == Greedy(Accepted(), sequence)
    {
      ghost var accepted := Accepted();
      labels := [];
      var pos := 0;
      while pos < |sequence|
        invariant 0 <= pos <= |sequence|
        invariant labels + Greedy(accepted, sequence[pos..]) == Greedy(accepted, sequence)
        decreases |sequence| - pos
      {
        var m := Match(sequence[pos..]);
        assert sequence[pos..][|m|..] == sequence[pos + |m|..];
        labels := labels + [m];
        pos := pos + |m|;
      }
    }

    /** SegmentationStats: the number of labels, the count of each label
        and the count of each pair of adjacent labels. Go's maps read 0 for
        a missing key, and a missing bigram row is made before it is
        added to. */
    method SegmentationStats(seg: seq<seq<int>>) returns (n: int, u: map<seq<int>, int>, b: map<seq<int>, map<seq<int>, int>>)
      ensures n == |seg| && u == UnigramCounts(seg) && b == BigramCounts(seg)
      ensures IsUnigrams(seg, u) && IsBigrams(seg, b)
    {
      n, u, b := 0, map[], map[];
      var i := 0;
      while i < |seg|
        invariant 0 <= i <= |seg| && n == i
        invariant u == UnigramCounts(seg[..i])
        invariant b == BigramCounts(seg[..if i < |seg| then i + 1 else i])
      {
        CountsExtend(seg, i);
        n := n + 1;
        u := u[seg[i] := Count(u, seg[i]) + 1];
        if i < |seg| - 1 {
          var row := Row(b, seg[i]);
          b := b[seg[i] := row[seg[i + 1] := Count(row, seg[i + 1]) + 1]];
        }
        i := i + 1;
      }
      assert seg[..i] == seg;
      UnigramCountsTally(seg);
      BigramCountsTally(seg);
    }
  }

  /** The inner loop of Match: compares g with the front of s element by
      element, stopping at the first difference. */
  method PrefixMatches(g: seq<int>, s: seq<int>) returns (matches: bool)
    requires |g| <= |s|
    ensures matches <==> g <= s
  {
    matches := true;
    var i := 0;
    while i < |g|
      invariant 0 <= i <= |g|
      invariant g[..i] == s[..i]
    {
      if g[i] != s[i] {
        matches := false;
        break;
      }
      i := i + 1;
    }
  }

  /** Under Valid, the accepted ngrams are the members of the set, so a
      match is an ngram In reports present. */
  lemma AcceptedAreMembers(seg: MDLSegmenter, g: seq<int>)
    requires seg.Valid()
    ensures g in seg.Accepted() <==> seg.ngrams.In(g)
  {
    NgramSets.KeyedValues(seg.ngrams.ngrams);
  }
}
