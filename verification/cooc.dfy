/** cooc.go: a sparse co-occurrence vector, a map from symbol to weight.
    Weights are float64 in the source and exact reals here. */
module Coocs {
  import Sums
  import Sorting

  /** The product of the weights of k in both vectors (0 when k is missing
      from either). */
  function ProductTerm(m1: map<int, real>, m2: map<int, real>): int -> real
  {
    k => if k in m1 && k in m2 then m1[k] * m2[k] else 0.0
  }

  /** The dot product of two sparse vectors: the sum, over the keys both
      have, of the product of their weights. */
  ghost function Dot(m1: map<int, real>, m2: map<int, real>): real
  {
    Sums.SumReal(m1.Keys * m2.Keys, ProductTerm(m1, m2))
  }

  /** The weight a map holds for key, 0 when absent: what indexing a Go
      map of float64 yields. */
  function Weight(m: map<int, real>, key: int): real
  {
    if key in m then m[key] else 0.0
  }

  class Cooc {
    /** The sequence whose contexts the vector counts. */
    var sequence: seq<int>
    /** The weights, by symbol. */
    var dat: map<int, real>

    /** The vector of a sequence before any weight is added. */
    constructor (s: seq<int>)
      ensures sequence == s && dat == map[]
    {
      sequence := s;
      dat := map[];
    }

    /** The weight of key, 0 when absent: what indexing a Go map yields. */
    function Get(key: int): real
      reads this
    {
      Weight(dat, key)
    }

    /** Cooc.Set: key gets weight val; no other key changes. */
    method Set(key: int, val: real)
      modifies this
      ensures dat == old(dat)[key := val] && sequence == old(sequence)
    {
      dat := dat[key := val];
    }

    /** Cooc.Inc: the weight of key grows by 1 (from 0 when absent); no
        other key changes. */
    method Inc(key: int)
      modifies this
      ensures dat == old(dat)[key := old(Get(key)) + 1.0] && sequence == old(sequence)
    {
      dat := dat[key := Get(key) + 1.0];
    }

    /** Cooc.Keys: every key, once, in ascending order. */
    method Keys() returns (keys: seq<int>)
      ensures |keys| == |dat|
      ensures forall k :: k in keys <==> k in dat
      ensures forall i :: 0 < i < |keys| ==> keys[i - 1] < keys[i]
    {
      var a := Enumerate(dat.Keys);
      Sorting.SortBy(a, (x: int, y: int) => x < y);
      keys := a[..];
      assert multiset(keys) == multiset(dat.Keys);
      forall k
        ensures k in keys <==> k in dat
      {
        assert k in keys <==> k in multiset(keys);
        assert k in dat.Keys <==> k in multiset(dat.Keys);
      }
      forall j | 0 < j < |keys|
        ensures keys[j - 1] < keys[j]
      {
        EnumerationDistinct(keys, dat.Keys, j - 1, j);
      }
    }

    /** Cooc.Prod: iterate over the smaller map, adding v1 * v2 for every key
        the other map has too. Either way the result is the dot product. */
    method Prod(other: Cooc) returns (prod: real)
      ensures prod == Dot(dat, other.dat)
    {
      var m1, m2 := dat, other.dat;
      if |m1| < |m2| {
        prod := SumProducts(m1.Keys, m1, m2);
        Sums.SumRealDropZeros(m1.Keys, m1.Keys * m2.Keys, ProductTerm(m1, m2));
      } else {
        prod := SumProducts(m2.Keys, m1, m2);
        Sums.SumRealDropZeros(m2.Keys, m1.Keys * m2.Keys, ProductTerm(m1, m2));
      }
    }
  }

  /** The elements of a finite set, once each, in an array in whatever order
      they are picked: how ranging over a Go map collects its keys. */
  method Enumerate(keys: set<int>) returns (a: array<int>)
    ensures fresh(a) && multiset(a[..]) == multiset(keys)
  {
    a := new int[|keys|];
    var i := 0;
    var rest := keys;
    while rest != {}
      invariant rest <= keys && i + |rest| == |keys|
      invariant multiset(a[..i]) == multiset(keys - rest)
      decreases |rest|
    {
      var k := Sums.Pick(rest);
      a[i] := k;
      assert a[..i + 1] == a[..i] + [k];
      assert keys - (rest - {k}) == (keys - rest) + {k};
      rest := rest - {k};
      i := i + 1;
    }
    assert keys - rest == keys;
    assert a[..] == a[..i];
  }

  /** A sequence holding each element of a set once has no repeated entry. */
  lemma EnumerationDistinct(xs: seq<int>, keys: set<int>, i: nat, j: nat)
    requires multiset(xs) == multiset(keys) && i < j < |xs|
    ensures xs[i] != xs[j]
  {
    var y := xs[j];
    assert xs == xs[..j] + [y] + xs[j + 1..];
    assert xs[..j][i] == xs[i];
    assert multiset(xs)[y] >= multiset(xs[..j])[y] + 1;
    assert multiset(keys)[y] <= 1;
  }

  /** Ranging over keys and adding v1 * v2 for every key both maps hold:
      the loop body of Cooc.Prod. */
  method SumProducts(keys: set<int>, m1: map<int, real>, m2: map<int, real>) returns (sum: real)
    ensures sum == Sums.SumReal(keys, ProductTerm(m1, m2))
  {
    sum := 0.0;
    var rest := keys;
    while rest != {}
      invariant rest <= keys
      invariant sum == Sums.SumReal(keys - rest, ProductTerm(m1, m2))
      decreases |rest|
    {
      var k := Sums.Pick(rest);
      ProductStep(keys - rest, k, m1, m2);
      if k in m1 && k in m2 {
        sum := sum + m1[k] * m2[k];
      }
      assert keys - (rest - {k}) == (keys - rest) + {k};
      rest := rest - {k};
    }
    assert keys - rest == keys;
  }

  /** One step of SumProducts: taking in a new key adds its product, or
      nothing when one of the maps lacks it. */
  lemma ProductStep(done: set<int>, k: int, m1: map<int, real>, m2: map<int, real>)
    requires k !in done
    ensures Sums.SumReal(done + {k}, ProductTerm(m1, m2)) ==
      Sums.SumReal(done, ProductTerm(m1, m2)) + (if k in m1 && k in m2 then m1[k] * m2[k] else 0.0)
  {
    Sums.SumRealInsert(done, ProductTerm(m1, m2), k);
  }

  /** The dot product does not depend on the order of its arguments. */
  lemma DotSymmetric(m1: map<int, real>, m2: map<int, real>)
    ensures Dot(m1, m2) == Dot(m2, m1)
  {
    assert m1.Keys * m2.Keys == m2.Keys * m1.Keys;
    Sums.SumRealCongruent(m1.Keys * m2.Keys, ProductTerm(m1, m2), ProductTerm(m2, m1));
  }

  /** Vectors with no key in common have dot product 0. */
  lemma DotDisjoint(m1: map<int, real>, m2: map<int, real>)
    requires m1.Keys !! m2.Keys
    ensures Dot(m1, m2) == 0.0
  {
    assert m1.Keys * m2.Keys == {};
  }

  /** The dot product is the sum of v1 * v2 over the shared keys: a shared
      key contributes exactly the product of its two weights. */
  lemma DotShared(m1: map<int, real>, m2: map<int, real>, k: int)
    requires k in m1 && k in m2
    ensures Dot(m1, m2) == m1[k] * m2[k] + Sums.SumReal(m1.Keys * m2.Keys - {k}, ProductTerm(m1, m2))
  {
    Sums.SumRealRemove(m1.Keys * m2.Keys, ProductTerm(m1, m2), k);
  }
}
