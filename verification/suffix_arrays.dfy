/** Facts about suffix arrays as values, used by the Corpus class of
    corpus.go: a suffix array of a corpus s is a permutation of the offsets
    0 .. |s|-1 in which no suffix is less (under SeqCmp) than the one before
    it. From this follow the global order of the suffixes and the fact that
    the search key "compare the suffix with a query on |query| positions"
    never decreases along the array, which is what makes binary search
    correct. */
module SuffixArrays {
  import Seqs
  import Scans

  /** The offsets 0, 1, ..., n-1 in order: the array SetSuffixArray starts from. */
  function Range(n: nat): (r: seq<int>)
    ensures |r| == n && forall i :: 0 <= i < n ==> r[i] == i
  {
    seq(n, i => i)
  }

  /** The suffix of s starting at offset x (empty for an offset outside s). */
  function SuffixAt(s: seq<int>, x: int): seq<int>
  {
    if 0 <= x <= |s| then s[x..] else []
  }

  /** Corpus.Less on offsets: the suffix at x sorts before the suffix at y. */
  predicate SuffixLess(s: seq<int>, x: int, y: int)
  {
    Seqs.SeqCmp(SuffixAt(s, x), SuffixAt(s, y)) == -1
  }

  /** sa is a permutation of the offsets of s. */
  ghost predicate IsPermutation(sa: seq<int>, n: nat)
  {
    multiset(sa) == multiset(Range(n))
  }

  /** sa is a suffix array of s: a permutation of its offsets, each in
      range, with no adjacent inversion. */
  ghost predicate IsSuffixArray(s: seq<int>, sa: seq<int>)
  {
    && |sa| == |s|
    && IsPermutation(sa, |s|)
    && (forall p :: 0 <= p < |sa| ==> 0 <= sa[p] < |s|)
    && (forall k {:trigger SuffixLess(s, sa[k], sa[k - 1])} :: 0 < k < |sa| ==> !SuffixLess(s, sa[k], sa[k - 1]))
  }

  /** The search key at suffix-array position p: SeqCmpLimited of the suffix
      there against q on |q| positions. */
  function Key(s: seq<int>, sa: seq<int>, q: seq<int>, p: int): (r: int)
    requires 0 <= p < |sa|
    ensures -1 <= r <= 1
  {
    Seqs.SeqCmpLimited(SuffixAt(s, sa[p]), q, |q|)
  }

  /** The search keys of the first n positions of sa, in order. */
  function KeyList(s: seq<int>, sa: seq<int>, q: seq<int>, n: nat): (ks: seq<int>)
    requires n <= |sa|
    ensures |ks| == n
  {
    if n == 0 then [] else KeyList(s, sa, q, n - 1) + [Key(s, sa, q, n - 1)]
  }

  /** One more position of slowSearch's scan: the ends move to position n
      exactly when its key is 0 and it lies beyond them. */
  lemma ScanStep(s: seq<int>, sa: seq<int>, q: seq<int>, n: nat, slo: int, shi: int, slo': int, shi': int)
    requires n < |sa|
    requires slo == Scans.LowestZero(KeyList(s, sa, q, n), |sa| - 1)
    requires shi == Scans.HighestZero(KeyList(s, sa, q, n), 0)
    requires slo' == if Key(s, sa, q, n) == 0 && n < slo then n else slo
    requires shi' == if Key(s, sa, q, n) == 0 && n > shi then n else shi
    ensures slo' == Scans.LowestZero(KeyList(s, sa, q, n + 1), |sa| - 1)
    ensures shi' == Scans.HighestZero(KeyList(s, sa, q, n + 1), 0)
  {
    Scans.LowestZeroSnoc(KeyList(s, sa, q, n), Key(s, sa, q, n), |sa| - 1);
    Scans.HighestZeroSnoc(KeyList(s, sa, q, n), Key(s, sa, q, n), 0);
  }

  /** Entry p of KeyList is the key at position p. */
  lemma {:induction false} KeyListAt(s: seq<int>, sa: seq<int>, q: seq<int>, n: nat, p: nat)
    requires p < n <= |sa|
    ensures KeyList(s, sa, q, n)[p] == Key(s, sa, q, p)
  {
    if p < n - 1 {
      KeyListAt(s, sa, q, n - 1, p);
    }
  }

  /** What slowSearch's scan yields: with no matching position the initial
      pair (|sa| - 1, 0); otherwise the least and the greatest matching
      positions. */
  lemma ScanResult(s: seq<int>, sa: seq<int>, q: seq<int>, slo: int, shi: int)
    requires slo == Scans.LowestZero(KeyList(s, sa, q, |sa|), |sa| - 1)
    requires shi == Scans.HighestZero(KeyList(s, sa, q, |sa|), 0)
    ensures (forall p :: 0 <= p < |sa| ==> !MatchesAt(s, sa, q, p)) ==> slo == |sa| - 1 && shi == 0
    ensures (exists p :: 0 <= p < |sa| && MatchesAt(s, sa, q, p)) ==> MatchesAt(s, sa, q, slo) && MatchesAt(s, sa, q, shi)
    ensures forall p :: 0 <= p < |sa| && MatchesAt(s, sa, q, p) ==> slo <= p <= shi
  {
    var ks := KeyList(s, sa, q, |sa|);
    Scans.ZeroScan(ks, slo, shi);
    forall p | 0 <= p < |sa| && MatchesAt(s, sa, q, p)
      ensures slo <= p <= shi
    {
      KeyListAt(s, sa, q, |sa|, p);
      KeyZeroIff(s, sa, q, p);
    }
    if p :| 0 <= p < |sa| && MatchesAt(s, sa, q, p) {
      KeyListAt(s, sa, q, |sa|, p);
      KeyZeroIff(s, sa, q, p);
      KeyListAt(s, sa, q, |sa|, slo);
      KeyZeroIff(s, sa, q, slo);
      KeyListAt(s, sa, q, |sa|, shi);
      KeyZeroIff(s, sa, q, shi);
    } else {
      forall p | 0 <= p < |sa|
        ensures ks[p] != 0
      {
        KeyListAt(s, sa, q, |sa|, p);
        KeyZeroIff(s, sa, q, p);
      }
    }
  }

  /** Suffix-array position p holds a suffix that starts with q. */
  ghost predicate MatchesAt(s: seq<int>, sa: seq<int>, q: seq<int>, p: int)
  {
    0 <= p < |sa| && q <= SuffixAt(s, sa[p])
  }

  /** The corpus offsets at which q occurs. */
  ghost function Occurrences(s: seq<int>, q: seq<int>): set<int>
  {
    set c | 0 <= c < |s| && q <= s[c..]
  }

  // ---------------------------------------------------------------------
  // Permutations of offsets
  // ---------------------------------------------------------------------

  lemma {:induction false} RangeMultiplicity(n: nat, x: int)
    ensures multiset(Range(n))[x] == if 0 <= x < n then 1 else 0
  {
    if n > 0 {
      assert Range(n) == Range(n - 1) + [n - 1];
      RangeMultiplicity(n - 1, x);
    }
  }

  /** Every offset in [0, n) appears in a permutation of the offsets. */
  lemma PermutationCovers(sa: seq<int>, n: nat, c: int) returns (p: nat)
    requires IsPermutation(sa, n) && 0 <= c < n
    ensures p < |sa| && sa[p] == c
  {
    RangeMultiplicity(n, c);
    assert c in multiset(sa);
    p :| 0 <= p < |sa| && sa[p] == c;
  }

  /** Every entry of a permutation of the offsets is an offset. */
  lemma PermutationInRange(sa: seq<int>, n: nat, p: nat)
    requires IsPermutation(sa, n) && p < |sa|
    ensures 0 <= sa[p] < n
  {
    assert sa[p] in multiset(sa);
    RangeMultiplicity(n, sa[p]);
  }

  /** No offset appears twice in a permutation of the offsets. */
  lemma PermutationDistinct(sa: seq<int>, n: nat, p: nat, p': nat)
    requires IsPermutation(sa, n) && p < p' < |sa|
    ensures sa[p] != sa[p']
  {
    if sa[p] == sa[p'] {
      var x := sa[p];
      assert sa == sa[..p] + [x] + sa[p + 1..p'] + [x] + sa[p' + 1..];
      assert multiset(sa)[x] >= 2;
      RangeMultiplicity(n, x);
      assert false;
    }
  }

  /** A sequence without repeated elements has as many distinct elements as entries. */
  lemma {:induction false} DistinctCardinality<T(!new)>(xs: seq<T>)
    requires Distinct(xs)
    ensures |ToSet(xs)| == |xs|
  {
    if xs != [] {
      var last := xs[|xs| - 1];
      var init := xs[..|xs| - 1];
      DistinctCardinality(init);
      assert ToSet(xs) == ToSet(init) + {last};
      assert last !in ToSet(init);
    }
  }

  // ---------------------------------------------------------------------
  // Order along a suffix array
  // ---------------------------------------------------------------------

  /** Suffixes never decrease along a suffix array, between any two positions. */
  lemma {:induction false} SortedOrder(s: seq<int>, sa: seq<int>, i: nat, j: nat)
    requires IsSuffixArray(s, sa) && i <= j < |sa|
    ensures Seqs.SeqCmp(SuffixAt(s, sa[i]), SuffixAt(s, sa[j])) <= 0
    decreases j - i
  {
    if i == j {
      Seqs.SeqCmpZeroIff(SuffixAt(s, sa[i]), SuffixAt(s, sa[j]));
    } else {
      SortedOrder(s, sa, i, j - 1);
      assert !SuffixLess(s, sa[j], sa[j - 1]);
      Seqs.SeqCmpAntisymmetric(SuffixAt(s, sa[j]), SuffixAt(s, sa[j - 1]));
      Seqs.SeqCmpTransitive(SuffixAt(s, sa[i]), SuffixAt(s, sa[j - 1]), SuffixAt(s, sa[j]));
    }
  }

  /** The search key never decreases along a suffix array: positions whose
      suffix is below q come first, then those that start with q, then those
      above q. */
  lemma KeyMonotone(s: seq<int>, sa: seq<int>, q: seq<int>, i: nat, j: nat)
    requires IsSuffixArray(s, sa) && i <= j < |sa|
    ensures Key(s, sa, q, i) <= Key(s, sa, q, j)
  {
    var si, sj := SuffixAt(s, sa[i]), SuffixAt(s, sa[j]);
    SortedOrder(s, sa, i, j);
    Seqs.SeqCmpTakeMonotone(si, sj, |q|);
    var ti, tj := Seqs.Take(si, |q|), Seqs.Take(sj, |q|);
    Seqs.SeqCmpLimitedQuery(si, q);
    Seqs.SeqCmpLimitedQuery(sj, q);
    if Seqs.SeqCmp(tj, q) == -1 {
      Seqs.SeqCmpStrictTransitive(ti, tj, q);
    } else if Seqs.SeqCmp(tj, q) == 0 {
      Seqs.SeqCmpZeroIff(tj, q);
    }
  }

  /** The key is 0 exactly where the suffix starts with q. */
  lemma KeyZeroIff(s: seq<int>, sa: seq<int>, q: seq<int>, p: nat)
    requires p < |sa|
    ensures Key(s, sa, q, p) == 0 <==> MatchesAt(s, sa, q, p)
  {
    Seqs.SeqCmpLimitedZeroIff(SuffixAt(s, sa[p]), q, |q|);
  }

  /** The positions matching q form one contiguous block: anything between
      two matches is a match. */
  lemma MatchesContiguous(s: seq<int>, sa: seq<int>, q: seq<int>, lo: nat, p: nat, hi: nat)
    requires IsSuffixArray(s, sa) && lo <= p <= hi < |sa|
    requires MatchesAt(s, sa, q, lo) && MatchesAt(s, sa, q, hi)
    ensures MatchesAt(s, sa, q, p)
  {
    KeyMonotone(s, sa, q, lo, p);
    KeyMonotone(s, sa, q, p, hi);
    KeyZeroIff(s, sa, q, lo);
    KeyZeroIff(s, sa, q, p);
    KeyZeroIff(s, sa, q, hi);
  }

  /** The occurrences of q are exactly the offsets held by the matching
      positions of a suffix array. */
  lemma OccurrencesFromPositions(s: seq<int>, sa: seq<int>, q: seq<int>)
    requires IsSuffixArray(s, sa)
    ensures Occurrences(s, q) == set p | 0 <= p < |sa| && MatchesAt(s, sa, q, p) :: sa[p]
  {
    var byPos := set p | 0 <= p < |sa| && MatchesAt(s, sa, q, p) :: sa[p];
    forall c | c in Occurrences(s, q)
      ensures c in byPos
    {
      var p := PermutationCovers(sa, |s|, c);
      assert MatchesAt(s, sa, q, p);
    }
  }

  /** Every position from m on has a key at least the key at m. */
  lemma KeyUpFrom(s: seq<int>, sa: seq<int>, q: seq<int>, m: nat)
    requires IsSuffixArray(s, sa) && m < |sa|
    ensures forall p :: m <= p < |sa| ==> Key(s, sa, q, m) <= Key(s, sa, q, p)
  {
    forall p | m <= p < |sa|
      ensures Key(s, sa, q, m) <= Key(s, sa, q, p)
    {
      KeyMonotone(s, sa, q, m, p);
    }
  }

  /** Every position up to m has a key at most the key at m. */
  lemma KeyDownTo(s: seq<int>, sa: seq<int>, q: seq<int>, m: nat)
    requires IsSuffixArray(s, sa) && m < |sa|
    ensures forall p :: 0 <= p <= m ==> Key(s, sa, q, p) <= Key(s, sa, q, m)
  {
    forall p | 0 <= p <= m
      ensures Key(s, sa, q, p) <= Key(s, sa, q, m)
    {
      KeyMonotone(s, sa, q, p, m);
    }
  }

  /** The search key never decreases along sa. */
  ghost predicate KeySorted(s: seq<int>, sa: seq<int>, q: seq<int>)
  {
    forall i, j :: 0 <= i <= j < |sa| ==> Key(s, sa, q, i) <= Key(s, sa, q, j)
  }

  /** Along a suffix array the key of any query is sorted. */
  lemma KeySortedFromSuffixArray(s: seq<int>, sa: seq<int>, q: seq<int>)
    requires IsSuffixArray(s, sa)
    ensures KeySorted(s, sa, q)
  {
    forall i, j | 0 <= i <= j < |sa|
      ensures Key(s, sa, q, i) <= Key(s, sa, q, j)
    {
      KeyMonotone(s, sa, q, i, j);
    }
  }

  /** A position matches exactly when its key is 0. */
  lemma MatchIffKeyZero(s: seq<int>, sa: seq<int>, q: seq<int>)
    ensures forall p :: 0 <= p < |sa| ==> (MatchesAt(s, sa, q, p) <==> Key(s, sa, q, p) == 0)
  {
    forall p | 0 <= p < |sa|
      ensures MatchesAt(s, sa, q, p) <==> Key(s, sa, q, p) == 0
    {
      KeyZeroIff(s, sa, q, p);
    }
  }

  /** Where the lower-end binary search stops (smin = smax, or an empty
      range), with every position before smin below q and smax, when it has
      moved, not below q: unless the key at smin is 0, no key in the range
      is 0. */
  lemma MinSearchExit(s: seq<int>, sa: seq<int>, q: seq<int>, smin0: nat, smax0: int, smin: int, smax: int)
    requires KeySorted(s, sa, q) && smin0 <= smin <= smax + 1 && smax <= smin && smax <= smax0 < |sa|
    requires forall p :: smin0 <= p < smin ==> Key(s, sa, q, p) == -1
    requires smax < smax0 ==> smin <= smax && Key(s, sa, q, smax) >= 0
    ensures !(smax == smin && Key(s, sa, q, smin) == 0) ==> forall p :: smin0 <= p <= smax0 ==> Key(s, sa, q, p) != 0
  {
    if smax == smin && Key(s, sa, q, smin) == 1 {
      forall p | smin <= p <= smax0
        ensures Key(s, sa, q, p) == 1
      {
        assert Key(s, sa, q, smin) <= Key(s, sa, q, p);
      }
    }
  }

  /** Where the upper-end binary search stops, with every position after
      smax above q and smin, when it has moved, not above q: unless the key
      at smin is 0, no key in the range is 0. */
  lemma MaxSearchExit(s: seq<int>, sa: seq<int>, q: seq<int>, smin0: nat, smax0: int, smin: int, smax: int)
    requires KeySorted(s, sa, q) && smin0 <= smin <= smax + 1 && smax <= smin && smax <= smax0 < |sa|
    requires forall p :: smax < p <= smax0 ==> Key(s, sa, q, p) == 1
    requires smin > smin0 ==> smin <= smax && Key(s, sa, q, smin) <= 0
    ensures !(smax == smin && Key(s, sa, q, smin) == 0) ==> forall p :: smin0 <= p <= smax0 ==> Key(s, sa, q, p) != 0
  {
    if smax == smin && Key(s, sa, q, smin) == -1 {
      forall p | smin0 <= p <= smin
        ensures Key(s, sa, q, p) == -1
      {
        assert Key(s, sa, q, p) <= Key(s, sa, q, smin);
      }
    } else if smax == smin && Key(s, sa, q, smin) == 1 {
      forall p | smin0 <= p <= smax0
        ensures Key(s, sa, q, p) == 1
      {
        assert Key(s, sa, q, smin) <= Key(s, sa, q, p);
      }
    }
  }

  /** q occurs in s exactly when some position of the suffix array matches it. */
  lemma OccursIffMatch(s: seq<int>, sa: seq<int>, q: seq<int>)
    requires IsSuffixArray(s, sa)
    ensures Occurrences(s, q) == {} <==> forall p :: 0 <= p < |sa| ==> !MatchesAt(s, sa, q, p)
  {
    OccurrencesFromPositions(s, sa, q);
    if p :| 0 <= p < |sa| && MatchesAt(s, sa, q, p) {
      assert sa[p] in Occurrences(s, q);
    }
  }

  /** When the matching positions are exactly lo..hi, the offsets stored
      there are the occurrences of q, each once, so q occurs hi - lo + 1
      times. */
  lemma BlockOccurrences(s: seq<int>, sa: seq<int>, q: seq<int>, lo: nat, hi: nat)
    requires IsSuffixArray(s, sa) && lo <= hi < |sa|
    requires forall p :: 0 <= p < |sa| ==> (MatchesAt(s, sa, q, p) <==> lo <= p <= hi)
    ensures Occurrences(s, q) == ToSet(sa[lo..hi + 1])
    ensures Distinct(sa[lo..hi + 1])
    ensures |Occurrences(s, q)| == hi + 1 - lo
  {
    var block := sa[lo..hi + 1];
    OccurrencesFromPositions(s, sa, q);
    forall x | x in block
      ensures x in Occurrences(s, q)
    {
      var i :| 0 <= i < |block| && block[i] == x;
      assert MatchesAt(s, sa, q, lo + i);
    }
    forall i, j | 0 <= i < j < |block|
      ensures block[i] != block[j]
    {
      PermutationDistinct(sa, |s|, lo + i, lo + j);
    }
    DistinctCardinality(block);
  }

  // ---------------------------------------------------------------------
  // Windows of a corpus
  // ---------------------------------------------------------------------

  /** The length-k windows of s that start at an offset of s, from left to
      right (for k = 0, one empty window per offset). */
  function WindowList(s: seq<int>, k: nat): (ws: seq<seq<int>>)
    ensures |ws| == if |s| < k then 0 else if k == 0 then |s| else |s| - k + 1
    ensures forall c :: 0 <= c < |ws| ==> c < |s| && c + k <= |s| && ws[c] == s[c..c + k]
  {
    if |s| < k then []
    else if k == 0 then seq(|s|, c => [])
    else seq(|s| - k + 1, c requires 0 <= c <= |s| - k => s[c..c + k])
  }

  /** The distinct length-k windows of s: what Corpus.Ngrams(k) lists. */
  ghost function Windows(s: seq<int>, k: nat): set<seq<int>>
  {
    ToSet(WindowList(s, k))
  }

  /** The first k elements of a suffix long enough are a window. */
  lemma SuffixWindow(s: seq<int>, x: int, k: nat)
    requires 0 <= x < |s| && |SuffixAt(s, x)| >= k
    ensures SuffixAt(s, x)[..k] in Windows(s, k)
  {
    var ws := WindowList(s, k);
    assert SuffixAt(s, x)[..k] == s[x..x + k] == ws[x];
  }

  /** Every window is the beginning of the suffix at some suffix-array
      position. */
  lemma WindowSuffix(s: seq<int>, sa: seq<int>, k: nat, w: seq<int>) returns (p: nat)
    requires IsSuffixArray(s, sa) && w in Windows(s, k)
    ensures p < |sa| && |SuffixAt(s, sa[p])| >= k && SuffixAt(s, sa[p])[..k] == w
  {
    var ws := WindowList(s, k);
    var c :| 0 <= c < |ws| && ws[c] == w;
    p := PermutationCovers(sa, |s|, c);
  }

  /** Corpus.Ngrams' test on the suffix at position p, given the last ngram
      kept, the first k elements of the suffix at an earlier position:
      either the suffix at p begins with it, or its first k elements sort
      strictly after it. */
  lemma NgramStep(s: seq<int>, sa: seq<int>, k: nat, i: nat, p: nat, last: seq<int>)
    requires IsSuffixArray(s, sa) && i < p < |sa|
    requires |SuffixAt(s, sa[i])| >= k && last == SuffixAt(s, sa[i])[..k]
    requires |SuffixAt(s, sa[p])| >= k
    ensures Seqs.SeqCmpLimited(last, SuffixAt(s, sa[p]), k) == 0 ==> last == SuffixAt(s, sa[p])[..k]
    ensures Seqs.SeqCmpLimited(last, SuffixAt(s, sa[p]), k) != 0 ==> Seqs.SeqCmp(last, SuffixAt(s, sa[p])[..k]) == -1
  {
    var a, b := SuffixAt(s, sa[i]), SuffixAt(s, sa[p]);
    SortedOrder(s, sa, i, p);
    Seqs.SeqCmpTakeMonotone(a, b, k);
    assert Seqs.Take(a, k) == a[..k] && Seqs.Take(b, k) == b[..k];
    Seqs.SeqCmpLimitedZeroIff(a[..k], b, k);
    assert a[..k][..k] == a[..k];
    Seqs.SeqCmpZeroIff(a[..k], b[..k]);
  }

  /** A sequence of sequences in strictly ascending SeqCmp order has no
      repeated entry. */
  lemma AscendingDistinct(xs: seq<seq<int>>)
    requires forall i :: 0 < i < |xs| ==> Seqs.SeqCmp(xs[i - 1], xs[i]) == -1
    ensures Distinct(xs)
  {
    forall i, j | 0 <= i < j < |xs|
      ensures xs[i] != xs[j]
    {
      AscendingFrom(xs, i, j);
      Seqs.SeqCmpZeroIff(xs[i], xs[j]);
    }
  }

  /** In a strictly ascending list, every entry precedes every later one. */
  lemma {:induction false} AscendingFrom(xs: seq<seq<int>>, i: nat, j: nat)
    requires forall i :: 0 < i < |xs| ==> Seqs.SeqCmp(xs[i - 1], xs[i]) == -1
    requires i < j < |xs|
    ensures Seqs.SeqCmp(xs[i], xs[j]) == -1
    decreases j - i
  {
    if i + 1 < j {
      AscendingFrom(xs, i, j - 1);
      Seqs.SeqCmpStrictTransitive(xs[i], xs[j - 1], xs[j]);
    }
  }

  /** What the scan of Corpus.Ngrams has built after visiting the first n
      suffix-array positions: ngrams holds, in strictly ascending order,
      the first k symbols of suffixes read at the positions in from, and
      every suffix among the first n that is long enough contributes its
      first k symbols. */
  ghost predicate NgramsSoFar(s: seq<int>, sa: seq<int>, k: nat, n: nat, ngrams: seq<seq<int>>, from: seq<nat>)
  {
    && n <= |sa| && |from| == |ngrams|
    && (forall i :: 0 <= i < |from| ==> from[i] < n && |SuffixAt(s, sa[from[i]])| >= k)
    && (forall i :: 0 <= i < |from| ==> ngrams[i] == SuffixAt(s, sa[from[i]])[..k])
    && (forall i :: 0 < i < |ngrams| ==> Seqs.SeqCmp(ngrams[i - 1], ngrams[i]) == -1)
    && (forall p :: 0 <= p < n && |SuffixAt(s, sa[p])| >= k ==> SuffixAt(s, sa[p])[..k] in ngrams)
  }

  /** One step of the scan: the suffix at position n is kept exactly when it
      is long enough and its first k symbols differ from the last kept
      ngram (the SeqCmpLimited test of the source); either way the scan's
      description then covers n + 1 positions. */
  lemma NgramsAdvance(s: seq<int>, sa: seq<int>, k: nat, n: nat, ngrams: seq<seq<int>>, from: seq<nat>)
    requires IsSuffixArray(s, sa) && n < |sa| && NgramsSoFar(s, sa, k, n, ngrams, from)
    ensures var slice := SuffixAt(s, sa[n]);
      if |slice| >= k && (ngrams == [] || Seqs.SeqCmpLimited(ngrams[|ngrams| - 1], slice, k) != 0)
      then NgramsSoFar(s, sa, k, n + 1, ngrams + [slice[..k]], from + [n])
      else NgramsSoFar(s, sa, k, n + 1, ngrams, from)
  {
    var slice := SuffixAt(s, sa[n]);
    if |slice| < k {
      NgramsSkip(s, sa, k, n, ngrams, from);
    } else if ngrams == [] {
      NgramsKeep(s, sa, k, n, ngrams, from);
    } else {
      NgramStep(s, sa, k, from[|from| - 1], n, ngrams[|ngrams| - 1]);
      if Seqs.SeqCmpLimited(ngrams[|ngrams| - 1], slice, k) != 0 {
        NgramsKeep(s, sa, k, n, ngrams, from);
      } else {
        NgramsSkip(s, sa, k, n, ngrams, from);
      }
    }
  }

  /** The suffix at position n is too short, or its first k symbols are
      already the last ngram kept: the scan moves on unchanged. */
  lemma NgramsSkip(s: seq<int>, sa: seq<int>, k: nat, n: nat, ngrams: seq<seq<int>>, from: seq<nat>)
    requires n < |sa| && NgramsSoFar(s, sa, k, n, ngrams, from)
    requires |SuffixAt(s, sa[n])| >= k ==> ngrams != [] && ngrams[|ngrams| - 1] == SuffixAt(s, sa[n])[..k]
    ensures NgramsSoFar(s, sa, k, n + 1, ngrams, from)
  {
    forall p | 0 <= p < n + 1 && |SuffixAt(s, sa[p])| >= k
      ensures SuffixAt(s, sa[p])[..k] in ngrams
    {
      if p == n {
        assert ngrams[|ngrams| - 1] == SuffixAt(s, sa[p])[..k];
      }
    }
  }

  /** The suffix at position n is long enough and its first k symbols come
      after the last ngram kept: they are appended. */
  lemma NgramsKeep(s: seq<int>, sa: seq<int>, k: nat, n: nat, ngrams: seq<seq<int>>, from: seq<nat>)
    requires n < |sa| && NgramsSoFar(s, sa, k, n, ngrams, from)
    requires |SuffixAt(s, sa[n])| >= k
    requires ngrams != [] ==> Seqs.SeqCmp(ngrams[|ngrams| - 1], SuffixAt(s, sa[n])[..k]) == -1
    ensures NgramsSoFar(s, sa, k, n + 1, ngrams + [SuffixAt(s, sa[n])[..k]], from + [n])
  {
    var w := SuffixAt(s, sa[n])[..k];
    var ngrams', from' := ngrams + [w], from + [n];
    forall i | 0 <= i < |from'|
      ensures from'[i] < n + 1 && |SuffixAt(s, sa[from'[i]])| >= k
      ensures ngrams'[i] == SuffixAt(s, sa[from'[i]])[..k]
    {
      if i < |from| {
        assert from'[i] == from[i] && ngrams'[i] == ngrams[i];
      }
    }
    forall i | 0 < i < |ngrams'|
      ensures Seqs.SeqCmp(ngrams'[i - 1], ngrams'[i]) == -1
    {
      if i < |ngrams| {
        assert ngrams'[i - 1] == ngrams[i - 1] && ngrams'[i] == ngrams[i];
      }
    }
    forall p | 0 <= p < n + 1 && |SuffixAt(s, sa[p])| >= k
      ensures SuffixAt(s, sa[p])[..k] in ngrams'
    {
      if p < n {
        var g := SuffixAt(s, sa[p])[..k];
        var i :| 0 <= i < |ngrams| && ngrams[i] == g;
        assert ngrams'[i] == g;
      } else {
        assert ngrams'[|ngrams|] == w;
      }
    }
  }

  /** Once every position is visited the scan holds each window of length k
      exactly once, in ascending order. */
  lemma NgramsComplete(s: seq<int>, sa: seq<int>, k: nat, ngrams: seq<seq<int>>, from: seq<nat>)
    requires IsSuffixArray(s, sa) && NgramsSoFar(s, sa, k, |sa|, ngrams, from)
    ensures ToSet(ngrams) == Windows(s, k)
    ensures |ngrams| == |Windows(s, k)|
  {
    forall g | g in ngrams
      ensures g in Windows(s, k)
    {
      var i :| 0 <= i < |ngrams| && ngrams[i] == g;
      PermutationInRange(sa, |s|, from[i]);
      SuffixWindow(s, sa[from[i]], k);
    }
    forall w | w in Windows(s, k)
      ensures w in ngrams
    {
      var p := WindowSuffix(s, sa, k, w);
    }
    AscendingDistinct(ngrams);
    DistinctCardinality(ngrams);
  }

  /** When the symbols of s are exactly 0 .. n-1, s has n distinct windows
      of length 1. */
  lemma UnigramWindows(s: seq<int>, n: nat)
    requires ToSet(s) == Ids(n)
    ensures |Windows(s, 1)| == n
  {
    var syms := ToSet(s);
    var ws := WindowList(s, 1);
    assert Windows(s, 1) == Singletons(n) by {
      forall w | w in Windows(s, 1)
        ensures w in Singletons(n)
      {
        var c :| 0 <= c < |ws| && ws[c] == w;
        assert w == [s[c]] && s[c] in syms;
      }
      forall x | x in Ids(n)
        ensures [x] in Windows(s, 1)
      {
        var c :| 0 <= c < |s| && s[c] == x;
        assert [x] == s[c..c + 1] == ws[c];
      }
    }
    SingletonsCardinality(n);
  }

  /** The one-element sequences [0] .. [n-1]. */
  ghost function Singletons(n: nat): set<seq<int>>
  {
    set x | x in Ids(n) :: [x]
  }

  /** There are n of them. */
  lemma {:induction false} SingletonsCardinality(n: nat)
    ensures |Singletons(n)| == n
  {
    if n > 0 {
      SingletonsCardinality(n - 1);
      assert Singletons(n) == Singletons(n - 1) + {[n - 1]};
      assert [n - 1] !in Singletons(n - 1) by {
        forall x | x in Ids(n - 1)
          ensures [x] != [n - 1]
        {
          assert [x][0] == x;
        }
      }
    }
  }

  /** The elements of a sequence, as a set. */
  function ToSet<T(!new)>(xs: seq<T>): (r: set<T>)
    ensures forall x :: x in r <==> x in xs
  {
    set x | x in xs
  }

  /** No entry of xs occurs twice. */
  predicate Distinct<T(==)>(xs: seq<T>)
  {
    forall i, j :: 0 <= i < j < |xs| ==> xs[i] != xs[j]
  }

  /** The ids 0 .. n-1. */
  ghost function Ids(n: nat): (r: set<int>)
    ensures forall x :: x in r <==> 0 <= x < n
  {
    if n == 0 then {} else Ids(n - 1) + {n - 1}
  }

  /** The ids 0 .. n-1 are n of them. */
  lemma {:induction false} IdsCardinality(n: nat)
    ensures |Ids(n)| == n
  {
    if n > 0 {
      IdsCardinality(n - 1);
    }
  }
}
