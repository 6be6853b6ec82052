/** The statistics SegmentationStats collects from a segmentation, on
    values: how often each label occurs (unigrams) and how often each label
    is directly followed by each other (bigrams), with the totals these
    counts add up to. Go's maps of counts read 0 for a missing key; Count
    does the same. */
module SegmentStats {
  import Sums

  /** A label: the ngram that makes up one segment. */
  type Label = seq<int>

  /** The count a map holds for a key, 0 when absent: what indexing a Go
      map of ints yields. */
  function Count<K>(m: map<K, int>, k: K): int
  {
    if k in m then m[k] else 0
  }

  /** Count as a function of the key, for sums over the keys. */
  function Lookup<K>(m: map<K, int>): K -> int
  {
    k => Count(m, k)
  }

  /** The row of the bigram table for a, empty when a has none. */
  function Row(b: map<Label, map<Label, int>>, a: Label): map<Label, int>
  {
    if a in b then b[a] else map[]
  }

  /** All labels but the last: those that have a successor. */
  function Init(seg: seq<Label>): seq<Label>
  {
    if seg == [] then [] else seg[..|seg| - 1]
  }

  /** The pairs of adjacent labels, in order. */
  function Pairs(seg: seq<Label>): seq<(Label, Label)>
  {
    if |seg| < 2 then [] else Pairs(seg[..|seg| - 1]) + [(seg[|seg| - 2], seg[|seg| - 1])]
  }

  /** The first components of a list of pairs. */
  function Firsts(ps: seq<(Label, Label)>): seq<Label>
  {
    if ps == [] then [] else Firsts(ps[..|ps| - 1]) + [ps[|ps| - 1].0]
  }

  /** u holds, for every element of labels, its multiplicity, and no other
      key. */
  ghost predicate Tally(labels: multiset<Label>, u: map<Label, int>)
  {
    forall x :: (x in u <==> x in labels) && (x in u ==> u[x] == labels[x])
  }

  /** u holds, for every label of seg, its number of occurrences, and no
      other key. */
  ghost predicate IsUnigrams(seg: seq<Label>, u: map<Label, int>)
  {
    Tally(multiset(seg), u)
  }

  /** b has a row for every label in firsts; the row of x holds, for every
      y such that (x, y) is in pairs, the number of times it is, and no
      other key. */
  ghost predicate PairCounts(firsts: multiset<Label>, pairs: multiset<(Label, Label)>, b: map<Label, map<Label, int>>)
  {
    && (forall x :: x in b <==> x in firsts)
    && (forall x, y :: x in b ==> (y in b[x] <==> (x, y) in pairs))
    && (forall x, y :: x in b && y in b[x] ==> b[x][y] == pairs[(x, y)])
  }

  /** b has a row for every label that has a successor; the row of a holds,
      for every label that follows a somewhere, the number of times it
      does, and no other key. */
  ghost predicate IsBigrams(seg: seq<Label>, b: map<Label, map<Label, int>>)
  {
    PairCounts(multiset(Init(seg)), multiset(Pairs(seg)), b)
  }

  /** One more label y, making ys: its count goes up by 1 (from 0 when
      new). */
  lemma {:induction false} UnigramStep(xs: seq<Label>, y: Label, ys: seq<Label>, u: map<Label, int>)
    requires IsUnigrams(xs, u) && ys == xs + [y]
    ensures IsUnigrams(ys, u[y := Count(u, y) + 1])
  {
    assert multiset(ys) == multiset(xs) + multiset{y};
  }

  /** The bigram table after counting y once more after a: the row of a is
      made when missing, and its count for y goes up by 1. */
  function NextBigrams(b: map<Label, map<Label, int>>, a: Label, y: Label): map<Label, map<Label, int>>
  {
    b[a := Row(b, a)[y := Count(Row(b, a), y) + 1]]
  }

  /** One more label y after the last label of xs, making ys. */
  lemma {:induction false} BigramStep(xs: seq<Label>, y: Label, ys: seq<Label>, b: map<Label, map<Label, int>>)
    requires IsBigrams(xs, b) && xs != [] && ys == xs + [y]
    ensures IsBigrams(ys, NextBigrams(b, xs[|xs| - 1], y))
  {
    var a := xs[|xs| - 1];
    var b' := NextBigrams(b, a, y);
    assert PairCounts(multiset(Init(xs)) + multiset{a}, multiset(Pairs(xs)) + multiset{(a, y)}, b') by {
      forall x, z | (x, z) in multiset(Pairs(xs))
        ensures x in multiset(Init(xs))
      {
        PairsInInit(xs, x, z);
      }
      PairCountsAdd(multiset(Init(xs)), multiset(Pairs(xs)), b, a, y);
    }
    Extend(xs, y);
  }

  /** Counting one more pair (a, y). */
  lemma {:induction false} PairCountsAdd(firsts: multiset<Label>, pairs: multiset<(Label, Label)>, b: map<Label, map<Label, int>>, a: Label, y: Label)
    requires PairCounts(firsts, pairs, b)
    requires forall x, z :: (x, z) in pairs ==> x in firsts
    ensures PairCounts(firsts + multiset{a}, pairs + multiset{(a, y)}, NextBigrams(b, a, y))
  {
    var b' := NextBigrams(b, a, y);
    var pairs' := pairs + multiset{(a, y)};
    forall x, z | x in b'
      ensures z in b'[x] <==> (x, z) in pairs'
      ensures z in b'[x] ==> b'[x][z] == pairs'[(x, z)]
    {
      if x == a && x !in b {
        assert (x, z) !in pairs;
      }
    }
  }

  /** The unigram counts of seg, label by label: the reference for
      SegmentationStats. */
  function UnigramCounts(seg: seq<Label>): map<Label, int>
  {
    if seg == [] then map[]
    else
      var u := UnigramCounts(seg[..|seg| - 1]);
      u[seg[|seg| - 1] := Count(u, seg[|seg| - 1]) + 1]
  }

  /** The bigram counts of seg, pair by pair: the reference for
      SegmentationStats. */
  function BigramCounts(seg: seq<Label>): map<Label, map<Label, int>>
  {
    if |seg| < 2 then map[]
    else NextBigrams(BigramCounts(seg[..|seg| - 1]), seg[|seg| - 2], seg[|seg| - 1])
  }

  /** The reference counts of one more label of seg: the label counted,
      and the pair it ends counted when it has a predecessor. */
  lemma CountsExtend(seg: seq<Label>, i: nat)
    requires i < |seg|
    ensures UnigramCounts(seg[..i + 1]) ==
      UnigramCounts(seg[..i])[seg[i] := Count(UnigramCounts(seg[..i]), seg[i]) + 1]
    ensures i < |seg| - 1 ==>
      BigramCounts(seg[..i + 2]) == NextBigrams(BigramCounts(seg[..i + 1]), seg[i], seg[i + 1])
  {
    assert seg[..i + 1][..i] == seg[..i];
    if i < |seg| - 1 {
      assert seg[..i + 2][..i + 1] == seg[..i + 1];
    }
  }

  /** UnigramCounts counts every label of seg, and nothing else. */
  lemma {:induction false} UnigramCountsTally(seg: seq<Label>)
    ensures IsUnigrams(seg, UnigramCounts(seg))
    decreases |seg|
  {
    if seg != [] {
      var init := seg[..|seg| - 1];
      UnigramCountsTally(init);
      UnigramStep(init, seg[|seg| - 1], seg, UnigramCounts(init));
    }
  }

  /** BigramCounts counts every adjacent pair of seg, and nothing else. */
  lemma {:induction false} BigramCountsTally(seg: seq<Label>)
    ensures IsBigrams(seg, BigramCounts(seg))
    decreases |seg|
  {
    if |seg| < 2 {
      assert Init(seg) == [] && Pairs(seg) == [];
    } else {
      var init := seg[..|seg| - 1];
      BigramCountsTally(init);
      BigramStep(init, seg[|seg| - 1], seg, BigramCounts(init));
    }
  }

  /** Appending y to a non-empty xs adds the old last label to Init and the
      pair of it and y to Pairs. */
  lemma {:induction false} Extend(xs: seq<Label>, y: Label)
    requires xs != []
    ensures multiset(Init(xs + [y])) == multiset(Init(xs)) + multiset{xs[|xs| - 1]}
    ensures multiset(Pairs(xs + [y])) == multiset(Pairs(xs)) + multiset{(xs[|xs| - 1], y)}
  {
    var xs' := xs + [y];
    assert xs'[..|xs'| - 1] == xs;
    assert multiset(Init(xs')) == multiset(Init(xs)) + multiset{xs[|xs| - 1]} by {
      assert Init(xs') == xs;
      assert Init(xs) + [xs[|xs| - 1]] == xs;
    }
    assert multiset(Pairs(xs')) == multiset(Pairs(xs)) + multiset{(xs[|xs| - 1], y)} by {
      assert Pairs(xs') == Pairs(xs) + [(xs[|xs| - 1], y)];
    }
  }

  /** The first label of an adjacent pair has a successor. */
  lemma {:induction false} PairsInInit(seg: seq<Label>, x: Label, y: Label)
    requires (x, y) in multiset(Pairs(seg))
    ensures x in multiset(Init(seg))
    decreases |seg|
  {
    var init := seg[..|seg| - 1];
    if (x, y) in Pairs(init) {
      PairsInInit(init, x, y);
      assert init[..|init| - 1] == seg[..|seg| - 2];
    }
  }

  /** The first components of the adjacent pairs are the labels that have a
      successor. */
  lemma {:induction false} FirstsOfPairs(seg: seq<Label>)
    ensures Firsts(Pairs(seg)) == Init(seg)
    decreases |seg|
  {
    if |seg| >= 2 {
      var init := seg[..|seg| - 1];
      FirstsOfPairs(init);
      assert init[..|init| - 1] == seg[..|seg| - 2];
      assert seg[..|seg| - 2] + [seg[|seg| - 2]] == init;
    }
  }

  /** The number of occurrences in xs, as a function of the element. */
  function Multiplicity<T(==)>(xs: seq<T>): T -> int
  {
    x => multiset(xs)[x]
  }

  /** Summed over any set holding every element of xs, the numbers of
      occurrences add up to the length of xs. */
  lemma {:induction false} SumMultiplicities<T>(keys: set<T>, xs: seq<T>)
    requires forall i :: 0 <= i < |xs| ==> xs[i] in keys
    ensures Sums.SumInt(keys, Multiplicity(xs)) == |xs|
    decreases |xs|
  {
    if xs == [] {
      Sums.SumIntCongruent(keys, Multiplicity(xs), _ => 0);
      SumZero(keys);
    } else {
      var init, y := xs[..|xs| - 1], xs[|xs| - 1];
      assert xs == init + [y];
      SumMultiplicities(keys, init);
      Sums.SumIntUpdate(keys, Multiplicity(init), Multiplicity(xs), y);
    }
  }

  /** Zeros sum to zero. */
  lemma {:induction false} SumZero<T>(keys: set<T>)
    ensures Sums.SumInt(keys, _ => 0) == 0
    decreases |keys|
  {
    if keys != {} {
      var k :| k in keys;
      Sums.SumIntRemove(keys, _ => 0, k);
      SumZero(keys - {k});
    }
  }

  /** The number of occurrences of (a, b) in ps, as a function of b. */
  function PairMultiplicity(ps: seq<(Label, Label)>, a: Label): Label -> int
  {
    b => multiset(ps)[(a, b)]
  }

  /** Summed over any set holding every successor of a in ps, the pair
      counts (a, b) add up to the number of pairs whose first label is a. */
  lemma {:induction false} SumRow(keys: set<Label>, ps: seq<(Label, Label)>, a: Label)
    requires forall i :: 0 <= i < |ps| && ps[i].0 == a ==> ps[i].1 in keys
    ensures Sums.SumInt(keys, PairMultiplicity(ps, a)) == multiset(Firsts(ps))[a]
    decreases |ps|
  {
    if ps == [] {
      Sums.SumIntCongruent(keys, PairMultiplicity(ps, a), _ => 0);
      SumZero(keys);
    } else {
      var init, p := ps[..|ps| - 1], ps[|ps| - 1];
      assert ps == init + [p];
      SumRow(keys, init, a);
      assert Firsts(ps) == Firsts(init) + [p.0];
      if p.0 == a {
        Sums.SumIntUpdate(keys, PairMultiplicity(init, a), PairMultiplicity(ps, a), p.1);
      } else {
        Sums.SumIntCongruent(keys, PairMultiplicity(init, a), PairMultiplicity(ps, a));
      }
    }
  }

  /** The unigram counts add up to the number of labels. */
  lemma UnigramTotal(seg: seq<Label>, u: map<Label, int>)
    requires IsUnigrams(seg, u)
    ensures Sums.SumInt(u.Keys, Lookup(u)) == |seg|
  {
    Sums.SumIntCongruent(u.Keys, Lookup(u), Multiplicity(seg));
    forall i | 0 <= i < |seg|
      ensures seg[i] in u.Keys
    {
      assert seg[i] in seg;
    }
    SumMultiplicities(u.Keys, seg);
  }

  /** The counts in the row of a add up to the number of times a has a
      successor. */
  lemma RowTotal(seg: seq<Label>, b: map<Label, map<Label, int>>, a: Label)
    requires IsBigrams(seg, b) && a in b
    ensures Sums.SumInt(b[a].Keys, Lookup(b[a])) == multiset(Init(seg))[a]
  {
    var ps := Pairs(seg);
    Sums.SumIntCongruent(b[a].Keys, Lookup(b[a]), PairMultiplicity(ps, a));
    forall i | 0 <= i < |ps| && ps[i].0 == a
      ensures ps[i].1 in b[a].Keys
    {
      assert ps[i] == (a, ps[i].1);
      assert (a, ps[i].1) in ps;
    }
    SumRow(b[a].Keys, ps, a);
    FirstsOfPairs(seg);
  }

  /** With the unigram counts: the row of a adds up to the count of a, less
      one when a is the last label. */
  lemma RowTotalUnigrams(seg: seq<Label>, u: map<Label, int>, b: map<Label, map<Label, int>>, a: Label)
    requires IsUnigrams(seg, u) && IsBigrams(seg, b) && a in b
    ensures a in u
    ensures Sums.SumInt(b[a].Keys, Lookup(b[a])) == u[a] - (if a == seg[|seg| - 1] then 1 else 0)
  {
    RowTotal(seg, b, a);
    assert a in Init(seg);
    assert seg == Init(seg) + [seg[|seg| - 1]];
    assert multiset(seg) == multiset(Init(seg)) + multiset{seg[|seg| - 1]};
    assert a in seg;
  }

  /** The total of a row, as a function of its label. */
  ghost function RowTotals(b: map<Label, map<Label, int>>): Label -> int
  {
    a => if a in b then Sums.SumInt(b[a].Keys, Lookup(b[a])) else 0
  }

  /** All bigram counts add up to the number of labels less one. */
  lemma BigramTotal(seg: seq<Label>, b: map<Label, map<Label, int>>)
    requires IsBigrams(seg, b) && seg != []
    ensures Sums.SumInt(b.Keys, RowTotals(b)) == |seg| - 1
  {
    var init := Init(seg);
    forall a | a in b.Keys
      ensures RowTotals(b)(a) == Multiplicity(init)(a)
    {
      RowTotal(seg, b, a);
    }
    Sums.SumIntCongruent(b.Keys, RowTotals(b), Multiplicity(init));
    forall i | 0 <= i < |init|
      ensures init[i] in b.Keys
    {
      assert init[i] in init;
    }
    SumMultiplicities(b.Keys, init);
  }
}
