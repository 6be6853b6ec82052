/** ngram_set.go: a set of ngrams (sequences of ids), kept as a map from
    each ngram's key to the ngram. The source's key is the "%v" rendering of
    the ngram; here the key is the ngram itself, so membership is by value. */
module NgramSets {

  /** The map after Add(g): g stored under its key. */
  function Added(m: map<seq<int>, seq<int>>, g: seq<int>): map<seq<int>, seq<int>>
  {
    m[g := g]
  }

  /** The map after Remove(g): g's key deleted, if present. */
  function Removed(m: map<seq<int>, seq<int>>, g: seq<int>): map<seq<int>, seq<int>>
  {
    m - {g}
  }

  /** Every ngram is stored under its own key. */
  ghost predicate KeyedByValue(m: map<seq<int>, seq<int>>)
  {
    forall k :: k in m ==> m[k] == k
  }

  class NgramSet {
    /** The ngrams, by key. */
    var ngrams: map<seq<int>, seq<int>>

    /** The empty set, as NewMDLSegmenter makes it. */
    constructor ()
      ensures ngrams == map[]
    {
      ngrams := map[];
    }

    /** NgramSet.Key: the key under which an ngram is stored. */
    function Key(ngram: seq<int>): seq<int>
    {
      ngram
    }

    /** NgramSet.In: whether the ngram's key is present. */
    predicate In(ngram: seq<int>)
      reads this
    {
      Key(ngram) in ngrams
    }

    /** NgramSet.Add: the ngram is stored under its key; nothing else
        changes. */
    method Add(ngram: seq<int>)
      modifies this
      ensures ngrams == Added(old(ngrams), ngram)
    {
      ngrams := ngrams[Key(ngram) := ngram];
    }

    /** NgramSet.Remove: the ngram's key is deleted (a no-op when absent);
        nothing else changes. */
    method Remove(ngram: seq<int>)
      modifies this
      ensures ngrams == Removed(old(ngrams), ngram)
    {
      ngrams := ngrams - {Key(ngram)};
    }

    /** Two ngrams have the same key exactly when they are equal. */
    lemma KeyInjective(a: seq<int>, b: seq<int>)
      ensures Key(a) == Key(b) <==> a == b
    {
    }
  }

  /** After Add(g), g is a member, and every other ngram is a member exactly
      when it was before. */
  lemma AddMembership(m: map<seq<int>, seq<int>>, g: seq<int>, h: seq<int>)
    ensures g in Added(m, g)
    ensures h != g ==> (h in Added(m, g) <==> h in m)
  {
  }

  /** After Remove(g), g is not a member, and every other ngram is a member
      exactly when it was before; removing an absent ngram changes nothing. */
  lemma RemoveMembership(m: map<seq<int>, seq<int>>, g: seq<int>, h: seq<int>)
    ensures g !in Removed(m, g)
    ensures h != g ==> (h in Removed(m, g) <==> h in m)
    ensures g !in m ==> Removed(m, g) == m
  {
  }

  /** Adding twice is adding once. */
  lemma AddIdempotent(m: map<seq<int>, seq<int>>, g: seq<int>)
    ensures Added(Added(m, g), g) == Added(m, g)
  {
  }

  /** Adding an absent ngram and then removing it restores the set: the
      add, score, remove bracket of a segmentation search. */
  lemma AddThenRemove(m: map<seq<int>, seq<int>>, g: seq<int>)
    requires g !in m
    ensures Removed(Added(m, g), g) == m
  {
  }

  /** Add and Remove keep every ngram stored under its own key. */
  lemma KeyedByValuePreserved(m: map<seq<int>, seq<int>>, g: seq<int>)
    requires KeyedByValue(m)
    ensures KeyedByValue(Added(m, g)) && KeyedByValue(Removed(m, g))
  {
  }

  /** In a map that keys every ngram by its own value, the stored ngrams
      (what a range over the map visits) are exactly its keys. */
  lemma KeyedValues(m: map<seq<int>, seq<int>>)
    requires KeyedByValue(m)
    ensures m.Values == m.Keys
  {
    forall g | g in m.Values
      ensures g in m.Keys
    {
      var k :| k in m && m[k] == g;
    }
    forall g | g in m.Keys
      ensures g in m.Values
    {
      assert m[g] == g;
    }
  }
}
