/** Sums over finite sets, for the quantities the source accumulates by
    ranging over a Go map: the dot product of two sparse vectors (real
    values) and the totals of unigram and bigram counts (int values). A Go
    map is iterated in no fixed order; these sums are defined by removing an
    arbitrary element, and the lemmas show that the element removed does not
    matter, which is why the map's iteration order never changes a result. */
module Sums {

  /** Some element of a non-empty set: the key a range over a Go map happens
      to visit next. */
  method Pick<K>(keys: set<K>) returns (k: K)
    requires keys != {}
    ensures k in keys
  {
    k :| k in keys;
  }

  ghost function SumReal<K>(keys: set<K>, f: K -> real): real
  {
    if keys == {} then 0.0 else var k :| k in keys; f(k) + SumReal(keys - {k}, f)
  }

  ghost function SumInt<K>(keys: set<K>, f: K -> int): int
  {
    if keys == {} then 0 else var k :| k in keys; f(k) + SumInt(keys - {k}, f)
  }

  /** Any element can be taken out first. */
  lemma SumRealRemove<K>(keys: set<K>, f: K -> real, j: K)
    requires j in keys
    ensures SumReal(keys, f) == f(j) + SumReal(keys - {j}, f)
    decreases |keys|
  {
    var k :| k in keys && SumReal(keys, f) == f(k) + SumReal(keys - {k}, f);
    if k != j {
      SumRealRemove(keys - {k}, f, j);
      SumRealRemove(keys - {j}, f, k);
      assert keys - {k} - {j} == keys - {j} - {k};
    }
  }

  /** Any element can be taken out first. */
  lemma SumIntRemove<K>(keys: set<K>, f: K -> int, j: K)
    requires j in keys
    ensures SumInt(keys, f) == f(j) + SumInt(keys - {j}, f)
    decreases |keys|
  {
    var k :| k in keys && SumInt(keys, f) == f(k) + SumInt(keys - {k}, f);
    if k != j {
      SumIntRemove(keys - {k}, f, j);
      SumIntRemove(keys - {j}, f, k);
      assert keys - {k} - {j} == keys - {j} - {k};
    }
  }

  /** Adding one new element adds its value. */
  lemma SumRealInsert<K>(keys: set<K>, f: K -> real, j: K)
    requires j !in keys
    ensures SumReal(keys + {j}, f) == SumReal(keys, f) + f(j)
  {
    SumRealRemove(keys + {j}, f, j);
    assert keys + {j} - {j} == keys;
  }

  /** Adding one new element adds its value. */
  lemma SumIntInsert<K>(keys: set<K>, f: K -> int, j: K)
    requires j !in keys
    ensures SumInt(keys + {j}, f) == SumInt(keys, f) + f(j)
  {
    SumIntRemove(keys + {j}, f, j);
    assert keys + {j} - {j} == keys;
  }

  /** Sums of two functions that agree on the set are equal. */
  lemma {:induction false} SumRealCongruent<K>(keys: set<K>, f: K -> real, g: K -> real)
    requires forall k :: k in keys ==> f(k) == g(k)
    ensures SumReal(keys, f) == SumReal(keys, g)
    decreases |keys|
  {
    if keys != {} {
      var k :| k in keys;
      SumRealRemove(keys, f, k);
      SumRealRemove(keys, g, k);
      SumRealCongruent(keys - {k}, f, g);
    }
  }

  /** Sums of two functions that agree on the set are equal. */
  lemma {:induction false} SumIntCongruent<K>(keys: set<K>, f: K -> int, g: K -> int)
    requires forall k :: k in keys ==> f(k) == g(k)
    ensures SumInt(keys, f) == SumInt(keys, g)
    decreases |keys|
  {
    if keys != {} {
      var k :| k in keys;
      SumIntRemove(keys, f, k);
      SumIntRemove(keys, g, k);
      SumIntCongruent(keys - {k}, f, g);
    }
  }

  /** Elements whose value is zero can be left out. */
  lemma {:induction false} SumRealDropZeros<K>(keys: set<K>, sub: set<K>, f: K -> real)
    requires sub <= keys
    requires forall k :: k in keys && k !in sub ==> f(k) == 0.0
    ensures SumReal(keys, f) == SumReal(sub, f)
    decreases |keys|
  {
    if keys != sub {
      var k :| k in keys && k !in sub;
      SumRealRemove(keys, f, k);
      SumRealDropZeros(keys - {k}, sub, f);
    }
  }

  /** Elements whose value is zero can be left out. */
  lemma {:induction false} SumIntDropZeros<K>(keys: set<K>, sub: set<K>, f: K -> int)
    requires sub <= keys
    requires forall k :: k in keys && k !in sub ==> f(k) == 0
    ensures SumInt(keys, f) == SumInt(sub, f)
    decreases |keys|
  {
    if keys != sub {
      var k :| k in keys && k !in sub;
      SumIntRemove(keys, f, k);
      SumIntDropZeros(keys - {k}, sub, f);
    }
  }

  /** Changing the value at one element changes the sum by the difference. */
  lemma SumIntUpdate<K>(keys: set<K>, f: K -> int, g: K -> int, j: K)
    requires j in keys
    requires forall k :: k in keys && k != j ==> f(k) == g(k)
    ensures SumInt(keys, g) == SumInt(keys, f) - f(j) + g(j)
  {
    SumIntRemove(keys, f, j);
    SumIntRemove(keys, g, j);
    SumIntCongruent(keys - {j}, f, g);
  }

  /** Values between 0 and 2 sum to between 0 and twice the number of
      elements. */
  lemma {:induction false} SumIntAtMostTwo<K>(keys: set<K>, f: K -> int)
    requires forall k :: k in keys ==> 0 <= f(k) <= 2
    ensures 0 <= SumInt(keys, f) <= 2 * |keys|
    decreases |keys|
  {
    if keys != {} {
      var k :| k in keys;
      SumIntRemove(keys, f, k);
      SumIntAtMostTwo(keys - {k}, f);
    }
  }
}
