/** The greedy segmentation of mdl_segmenter.go, on values: the longest
    accepted ngram that starts a sequence, and the cover of a sequence by
    repeatedly taking that match. Labels are the ngrams themselves. */
module Segmentations {

  /** g is an accepted ngram, non-empty, that s starts with. */
  predicate Candidate(accepted: set<seq<int>>, s: seq<int>, g: seq<int>)
  {
    g in accepted && 0 < |g| && g <= s
  }

  /** The longest prefix of s of length at most k that is accepted (taking
      only non-empty prefixes), or the first element of s when there is
      none. */
  function LongestUpTo(accepted: set<seq<int>>, s: seq<int>, k: nat): (m: seq<int>)
    requires 0 < |s| && k <= |s|
    ensures 0 < |m| <= |s| && m == s[..|m|]
    ensures |m| > 1 ==> m in accepted && |m| <= k
    decreases k
  {
    if k == 0 then s[..1]
    else if s[..k] in accepted then s[..k]
    else LongestUpTo(accepted, s, k - 1)
  }

  /** Match: the longest accepted ngram that s starts with, or the first
      element of s alone when no accepted ngram starts it. */
  function LongestMatch(accepted: set<seq<int>>, s: seq<int>): seq<int>
    requires 0 < |s|
  {
    LongestUpTo(accepted, s, |s|)
  }

  /** LongestUpTo up to k is the longest candidate of length at most k, and
      the first element when there is none. */
  lemma {:induction false} LongestUpToIsLongest(accepted: set<seq<int>>, s: seq<int>, k: nat)
    requires 0 < |s| && k <= |s|
    ensures forall g :: Candidate(accepted, s, g) && |g| <= k ==> |g| <= |LongestUpTo(accepted, s, k)|
    ensures (exists g :: Candidate(accepted, s, g) && |g| <= k) ==> Candidate(accepted, s, LongestUpTo(accepted, s, k))
    ensures (forall g :: Candidate(accepted, s, g) ==> |g| > k) ==> LongestUpTo(accepted, s, k) == s[..1]
    decreases k
  {
    if k > 0 && s[..k] !in accepted {
      LongestUpToIsLongest(accepted, s, k - 1);
      forall g | Candidate(accepted, s, g) && |g| <= k
        ensures |g| <= k - 1
      {
        assert g == s[..|g|];
      }
    }
  }

  /** What Match promises: a non-empty prefix of s; an accepted ngram as
      long as any accepted ngram s starts with, when there is one; the
      first element of s otherwise. */
  lemma LongestMatchSpec(accepted: set<seq<int>>, s: seq<int>)
    requires 0 < |s|
    ensures 0 < |LongestMatch(accepted, s)| && LongestMatch(accepted, s) <= s
    ensures forall g :: Candidate(accepted, s, g) ==> |g| <= |LongestMatch(accepted, s)|
    ensures (exists g :: Candidate(accepted, s, g)) ==> Candidate(accepted, s, LongestMatch(accepted, s))
    ensures (forall g :: !Candidate(accepted, s, g)) ==> LongestMatch(accepted, s) == s[..1]
  {
    LongestUpToIsLongest(accepted, s, |s|);
  }

  /** Any m with the properties Match promises is LongestMatch: two
      candidates of the same length are the same prefix of s. */
  lemma LongestMatchUnique(accepted: set<seq<int>>, s: seq<int>, m: seq<int>)
    requires 0 < |s|
    requires (exists g :: Candidate(accepted, s, g)) ==>
      Candidate(accepted, s, m) && forall g :: Candidate(accepted, s, g) ==> |g| <= |m|
    requires (forall g :: !Candidate(accepted, s, g)) ==> m == s[..1]
    ensures m == LongestMatch(accepted, s)
  {
    LongestMatchSpec(accepted, s);
    var r := LongestMatch(accepted, s);
    if exists g :: Candidate(accepted, s, g) {
      assert |m| == |r|;
      assert m == s[..|m|] && r == s[..|r|];
    }
  }

  /** Segment: the greedy cover of s, each label the longest match of what
      is left. */
  function Greedy(accepted: set<seq<int>>, s: seq<int>): seq<seq<int>>
    decreases |s|
  {
    if s == [] then []
    else
      var m := LongestMatch(accepted, s);
      [m] + Greedy(accepted, s[|m|..])
  }

  /** The labels put back together, in order. */
  function Concat(labels: seq<seq<int>>): seq<int>
  {
    if labels == [] then [] else labels[0] + Concat(labels[1..])
  }

  /** The greedy cover concatenates back to s, and no label is empty. */
  lemma {:induction false} GreedyCovers(accepted: set<seq<int>>, s: seq<int>)
    ensures Concat(Greedy(accepted, s)) == s
    ensures forall i :: 0 <= i < |Greedy(accepted, s)| ==> 0 < |Greedy(accepted, s)[i]|
    decreases |s|
  {
    if s != [] {
      var m := LongestMatch(accepted, s);
      var rest := Greedy(accepted, s[|m|..]);
      GreedyCovers(accepted, s[|m|..]);
      var labels := Greedy(accepted, s);
      assert labels[1..] == rest;
      assert m + s[|m|..] == s;
      forall i | 0 <= i < |labels|
        ensures 0 < |labels[i]|
      {
        if i > 0 {
          assert labels[i] == rest[i - 1];
        }
      }
    }
  }

  /** With no accepted ngram, every label is a single element: as many
      labels as elements. */
  lemma {:induction false} GreedyNothingAccepted(s: seq<int>)
    ensures |Greedy({}, s)| == |s|
    ensures forall i :: 0 <= i < |s| ==> Greedy({}, s)[i] == [s[i]]
    decreases |s|
  {
    if s != [] {
      LongestMatchSpec({}, s);
      assert forall g :: !Candidate({}, s, g);
      assert LongestMatch({}, s) == [s[0]];
      GreedyNothingAccepted(s[1..]);
      var labels := Greedy({}, s);
      assert labels == [[s[0]]] + Greedy({}, s[1..]);
      forall i | 0 < i < |s|
        ensures labels[i] == [s[i]]
      {
        assert labels[i] == Greedy({}, s[1..])[i - 1];
      }
    }
  }
}
