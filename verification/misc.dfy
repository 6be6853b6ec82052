/** misc.go holds an earlier copy of SeqJoin, SeqCmp and SeqCmpLimited.
    Here the two comparisons are written the way that file spells them out:
    compute the length to scan, scan positions 0, 1, ... for the first
    mismatch, and only when none is found decide by the lengths. Each is
    proved equal, on every input, to its namesake in module Seqs, and the
    properties of the Seqs versions carry over. */
module Misc {
  import Seqs

  function Min(x: nat, y: nat): nat
  {
    if y < x then y else x
  }

  /** The scan loop: the sign of the first mismatch at a position in
      [pos, length), or 0 when the two agree on all of them. */
  function Scan(a: seq<int>, b: seq<int>, pos: nat, length: nat): (r: int)
    requires pos <= length <= |a| && length <= |b|
    ensures -1 <= r <= 1
    decreases length - pos
  {
    if pos == length then 0
    else if a[pos] < b[pos] then -1
    else if a[pos] > b[pos] then 1
    else Scan(a, b, pos + 1, length)
  }

  /** SeqCmp as written in misc.go. */
  function SeqCmp(a: seq<int>, b: seq<int>): (r: int)
    ensures -1 <= r <= 1
    ensures r == 0 ==> |a| == |b|
  {
    var length := Min(|a|, |b|);
    var c := Scan(a, b, 0, length);
    if c != 0 then c
    else if |a| == |b| then 0
    else if |a| < |b| then -1
    else 1
  }

  /** SeqCmpLimited as written in misc.go. */
  function SeqCmpLimited(a: seq<int>, b: seq<int>, comparisonLength: nat): (r: int)
    ensures -1 <= r <= 1
  {
    var length := Min(Min(|a|, |b|), comparisonLength);
    var c := Scan(a, b, 0, length);
    if c != 0 then c
    else if length == comparisonLength then 0
    else if |a| < |b| then -1
    else 1
  }

  /** SeqJoin as written in misc.go: the same two append loops. */
  method SeqJoin(seq1: seq<int>, seq2: seq<int>) returns (joined: seq<int>)
    ensures joined == seq1 + seq2
  {
    joined := [];
    for i := 0 to |seq1|
      invariant joined == seq1[..i]
    {
      joined := joined + [seq1[i]];
    }
    for i := 0 to |seq2|
      invariant joined == seq1 + seq2[..i]
    {
      joined := joined + [seq2[i]];
    }
  }

  /** Scanning from pos >= 1 is scanning the tails from pos - 1. */
  lemma {:induction false} ScanTail(a: seq<int>, b: seq<int>, pos: nat, length: nat)
    requires 1 <= pos <= length <= |a| && length <= |b|
    ensures Scan(a, b, pos, length) == Scan(a[1..], b[1..], pos - 1, length - 1)
    decreases length - pos
  {
    if pos < length && a[pos] == b[pos] {
      ScanTail(a, b, pos + 1, length);
    }
  }

  /** misc.go's SeqCmp and seqs.go's SeqCmp agree on every input. */
  lemma {:induction false} SeqCmpCoincides(a: seq<int>, b: seq<int>)
    ensures SeqCmp(a, b) == Seqs.SeqCmp(a, b)
  {
    if |a| > 0 && |b| > 0 && a[0] == b[0] {
      ScanTail(a, b, 1, Min(|a|, |b|));
      SeqCmpCoincides(a[1..], b[1..]);
    }
  }

  /** misc.go's SeqCmpLimited and seqs.go's SeqCmpLimited agree on every input. */
  lemma {:induction false} SeqCmpLimitedCoincides(a: seq<int>, b: seq<int>, k: nat)
    ensures SeqCmpLimited(a, b, k) == Seqs.SeqCmpLimited(a, b, k)
  {
    if k > 0 && |a| > 0 && |b| > 0 && a[0] == b[0] {
      ScanTail(a, b, 1, Min(Min(|a|, |b|), k));
      SeqCmpLimitedCoincides(a[1..], b[1..], k - 1);
    }
  }

  /** misc.go's SeqCmp is 0 exactly on equal sequences. */
  lemma SeqCmpZeroIff(a: seq<int>, b: seq<int>)
    ensures SeqCmp(a, b) == 0 <==> a == b
  {
    SeqCmpCoincides(a, b);
    Seqs.SeqCmpZeroIff(a, b);
  }

  /** misc.go's SeqCmp puts a proper prefix first. */
  lemma SeqCmpProperPrefix(a: seq<int>, b: seq<int>)
    requires |a| < |b| && a == b[..|a|]
    ensures SeqCmp(a, b) == -1
  {
    SeqCmpCoincides(a, b);
    Seqs.SeqCmpProperPrefix(a, b);
  }

  /** misc.go's SeqCmp flips sign when its arguments are swapped. */
  lemma SeqCmpAntisymmetric(a: seq<int>, b: seq<int>)
    ensures SeqCmp(a, b) == -SeqCmp(b, a)
  {
    SeqCmpCoincides(a, b);
    SeqCmpCoincides(b, a);
    Seqs.SeqCmpAntisymmetric(a, b);
  }

  /** misc.go's SeqCmpLimited is 0 exactly when both sides have k elements
      and agree on them. */
  lemma SeqCmpLimitedZeroIff(a: seq<int>, b: seq<int>, k: nat)
    ensures SeqCmpLimited(a, b, k) == 0 <==> |a| >= k && |b| >= k && a[..k] == b[..k]
  {
    SeqCmpLimitedCoincides(a, b, k);
    Seqs.SeqCmpLimitedZeroIff(a, b, k);
  }
}
