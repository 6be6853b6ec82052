/** Sequence primitives of seqs.go: concatenation, the three-way
    lexicographic comparison (shorter is lesser), the prefix-limited
    comparison every suffix search relies on, and the sort interface of a
    list of sequences. */
module Seqs {

  /** SeqCmp: walk both sequences from the front; the first position where
      they differ decides (-1 or 1); if one runs out first, the shorter one
      is the lesser; equal sequences give 0. */
  function SeqCmp(a: seq<int>, b: seq<int>): (r: int)
    ensures -1 <= r <= 1
    ensures r == 0 ==> |a| == |b|
  {
    if |a| == 0 || |b| == 0 then
      (if |a| == |b| then 0 else if |a| < |b| then -1 else 1)
    else if a[0] < b[0] then -1
    else if a[0] > b[0] then 1
    else SeqCmp(a[1..], b[1..])
  }

  /** SeqCmpLimited: like SeqCmp, but only the first k positions take part.
      Agreement on k positions gives 0; running out of elements before k
      positions gives -1 when a is the shorter one and 1 otherwise (also
      when both have the same length). */
  function SeqCmpLimited(a: seq<int>, b: seq<int>, k: nat): (r: int)
    ensures -1 <= r <= 1
  {
    if k == 0 then 0
    else if |a| == 0 || |b| == 0 then (if |a| < |b| then -1 else 1)
    else if a[0] < b[0] then -1
    else if a[0] > b[0] then 1
    else SeqCmpLimited(a[1..], b[1..], k - 1)
  }

  /** The first k elements of s, or all of s when it is shorter. */
  function Take(s: seq<int>, k: nat): (t: seq<int>)
    ensures |t| == if |s| < k then |s| else k
    ensures t <= s
  {
    if |s| < k then s else s[..k]
  }

  /** SeqJoin: two append loops, the first copying seq1, the second seq2. */
  method SeqJoin(seq1: seq<int>, seq2: seq<int>) returns (joined: seq<int>)
    ensures |joined| == |seq1| + |seq2|
    ensures joined[..|seq1|] == seq1 && joined[|seq1|..] == seq2
  {
    joined := [];
    for i := 0 to |seq1|
      invariant joined == seq1[..i]
    {
      joined := joined + [seq1[i]];
    }
    for i := 0 to |seq2|
      invariant joined == seq1 + seq2[..i]
    {
      joined := joined + [seq2[i]];
    }
  }

  // ---------------------------------------------------------------------
  // Properties of SeqCmp
  // ---------------------------------------------------------------------

  /** SeqCmp is 0 exactly on equal sequences. */
  lemma {:induction false} SeqCmpZeroIff(a: seq<int>, b: seq<int>)
    ensures SeqCmp(a, b) == 0 <==> a == b
  {
    if |a| > 0 && |b| > 0 && a[0] == b[0] {
      SeqCmpZeroIff(a[1..], b[1..]);
      assert a == [a[0]] + a[1..] && b == [b[0]] + b[1..];
    }
  }

  /** Swapping the arguments flips the sign. */
  lemma {:induction false} SeqCmpAntisymmetric(a: seq<int>, b: seq<int>)
    ensures SeqCmp(a, b) == -SeqCmp(b, a)
  {
    if |a| > 0 && |b| > 0 && a[0] == b[0] {
      SeqCmpAntisymmetric(a[1..], b[1..]);
    }
  }

  /** "Not greater" is transitive. */
  lemma {:induction false} SeqCmpTransitive(a: seq<int>, b: seq<int>, c: seq<int>)
    requires SeqCmp(a, b) <= 0 && SeqCmp(b, c) <= 0
    ensures SeqCmp(a, c) <= 0
  {
    if |a| > 0 && |b| > 0 && |c| > 0 && a[0] == b[0] == c[0] {
      SeqCmpTransitive(a[1..], b[1..], c[1..]);
    }
  }

  /** "Less" is transitive, also through a "not greater" step on either side. */
  lemma SeqCmpStrictTransitive(a: seq<int>, b: seq<int>, c: seq<int>)
    requires SeqCmp(a, b) <= 0 && SeqCmp(b, c) <= 0
    requires SeqCmp(a, b) == -1 || SeqCmp(b, c) == -1
    ensures SeqCmp(a, c) == -1
  {
    SeqCmpTransitive(a, b, c);
    SeqCmpZeroIff(a, c);
    if a == c {
      SeqCmpAntisymmetric(a, b);
      SeqCmpZeroIff(a, b);
    }
  }

  /** A proper prefix is lesser: the length tie-break "shorter is lesser". */
  lemma {:induction false} SeqCmpProperPrefix(a: seq<int>, b: seq<int>)
    requires |a| < |b| && a == b[..|a|]
    ensures SeqCmp(a, b) == -1
  {
    if |a| > 0 {
      assert a[1..] == b[1..][..|a| - 1];
      SeqCmpProperPrefix(a[1..], b[1..]);
    }
  }

  /** At the first differing position, the element comparison decides. */
  lemma {:induction false} SeqCmpFirstDifference(a: seq<int>, b: seq<int>, i: nat)
    requires i < |a| && i < |b| && a[..i] == b[..i] && a[i] != b[i]
    ensures SeqCmp(a, b) == (if a[i] < b[i] then -1 else 1)
  {
    if i > 0 {
      assert a[0] == a[..i][0] && b[0] == b[..i][0];
      assert a[1..][..i - 1] == a[..i][1..] && b[1..][..i - 1] == b[..i][1..];
      SeqCmpFirstDifference(a[1..], b[1..], i - 1);
    }
  }

  /** Cutting both sides to the same length never turns "not greater" into "greater". */
  lemma {:induction false} SeqCmpTakeMonotone(a: seq<int>, b: seq<int>, k: nat)
    requires SeqCmp(a, b) <= 0
    ensures SeqCmp(Take(a, k), Take(b, k)) <= 0
  {
    if k > 0 && |a| > 0 && |b| > 0 && a[0] == b[0] {
      SeqCmpTakeMonotone(a[1..], b[1..], k - 1);
      assert Take(a, k)[1..] == Take(a[1..], k - 1);
      assert Take(b, k)[1..] == Take(b[1..], k - 1);
    } else if k > 0 && |a| == 0 {
      assert Take(a, k) == [];
    }
  }

  // ---------------------------------------------------------------------
  // Properties of SeqCmpLimited
  // ---------------------------------------------------------------------

  /** SeqCmpLimited is 0 exactly when both sides have k elements and agree on them. */
  lemma {:induction false} SeqCmpLimitedZeroIff(a: seq<int>, b: seq<int>, k: nat)
    ensures SeqCmpLimited(a, b, k) == 0 <==> |a| >= k && |b| >= k && a[..k] == b[..k]
  {
    if k > 0 && |a| > 0 && |b| > 0 && a[0] == b[0] {
      SeqCmpLimitedZeroIff(a[1..], b[1..], k - 1);
      if |a| >= k && |b| >= k {
        assert a[..k] == [a[0]] + a[1..][..k - 1];
        assert b[..k] == [b[0]] + b[1..][..k - 1];
      }
    }
  }

  /** Within the shorter length, SeqCmpLimited is SeqCmp of the two k-prefixes. */
  lemma {:induction false} SeqCmpLimitedWithin(a: seq<int>, b: seq<int>, k: nat)
    requires k <= |a| && k <= |b|
    ensures SeqCmpLimited(a, b, k) == SeqCmp(a[..k], b[..k])
  {
    if k > 0 && a[0] == b[0] {
      SeqCmpLimitedWithin(a[1..], b[1..], k - 1);
      assert a[..k][1..] == a[1..][..k - 1] && b[..k][1..] == b[1..][..k - 1];
    }
  }

  /** Past the shorter length with no mismatch, the shorter side is lesser,
      and two equal sequences shorter than k compare as 1. */
  lemma {:induction false} SeqCmpLimitedBeyond(a: seq<int>, b: seq<int>, k: nat)
    requires (|a| < k || |b| < k)
    requires var m := if |a| < |b| then |a| else |b|; a[..m] == b[..m]
    ensures SeqCmpLimited(a, b, k) == (if |a| < |b| then -1 else 1)
  {
    if |a| > 0 && |b| > 0 {
      var m := if |a| < |b| then |a| else |b|;
      assert a[0] == a[..m][0] && b[0] == b[..m][0];
      assert a[1..][..m - 1] == a[..m][1..] && b[1..][..m - 1] == b[..m][1..];
      SeqCmpLimitedBeyond(a[1..], b[1..], k - 1);
    }
  }

  /** Comparing a suffix s against a query q on |q| positions is SeqCmp of
      the first |q| elements of s against q. */
  lemma {:induction false} SeqCmpLimitedQuery(s: seq<int>, q: seq<int>)
    ensures SeqCmpLimited(s, q, |q|) == SeqCmp(Take(s, |q|), q)
  {
    if |q| > 0 && |s| > 0 && s[0] == q[0] {
      SeqCmpLimitedQuery(s[1..], q[1..]);
      assert Take(s, |q|)[1..] == Take(s[1..], |q| - 1);
    }
  }

  /** The same with the arguments in the other order, as the final equality
      check of the suffix searches uses them. */
  lemma SeqCmpLimitedSymmetricZero(a: seq<int>, b: seq<int>, k: nat)
    ensures SeqCmpLimited(a, b, k) == 0 <==> SeqCmpLimited(b, a, k) == 0
  {
    SeqCmpLimitedZeroIff(a, b, k);
    SeqCmpLimitedZeroIff(b, a, k);
  }

  // ---------------------------------------------------------------------
  // The sort interface of Seqs ([][]int)
  // ---------------------------------------------------------------------

  /** Seqs.Len: the number of sequences. */
  function Len(seqs: array<seq<int>>): int
    reads seqs
  {
    seqs.Length
  }

  /** Seqs.Less: sequence i sorts before sequence j. */
  predicate Less(seqs: array<seq<int>>, i: nat, j: nat)
    requires i < seqs.Length && j < seqs.Length
    reads seqs
  {
    SeqCmp(seqs[i], seqs[j]) == -1
  }

  /** Seqs.Less is a strict order on the entries: irreflexive, asymmetric
      and transitive, and two entries neither of which is less are equal. */
  lemma LessIsStrictOrder(seqs: array<seq<int>>, i: nat, j: nat, k: nat)
    requires i < seqs.Length && j < seqs.Length && k < seqs.Length
    ensures !Less(seqs, i, i)
    ensures Less(seqs, i, j) ==> !Less(seqs, j, i)
    ensures Less(seqs, i, j) && Less(seqs, j, k) ==> Less(seqs, i, k)
    ensures !Less(seqs, i, j) && !Less(seqs, j, i) ==> seqs[i] == seqs[j]
  {
    SeqCmpZeroIff(seqs[i], seqs[i]);
    SeqCmpZeroIff(seqs[i], seqs[j]);
    SeqCmpAntisymmetric(seqs[i], seqs[j]);
    if Less(seqs, i, j) && Less(seqs, j, k) {
      SeqCmpStrictTransitive(seqs[i], seqs[j], seqs[k]);
    }
  }

  /** Seqs.Swap: exchanges entries i and j and nothing else. */
  method Swap(seqs: array<seq<int>>, i: nat, j: nat)
    requires i < seqs.Length && j < seqs.Length
    modifies seqs
    ensures seqs[..] == old(seqs[..])[i := old(seqs[j])][j := old(seqs[i])]
  {
    seqs[i], seqs[j] := seqs[j], seqs[i];
  }
}
