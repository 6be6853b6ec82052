/** The vocabulary of a corpus: the map from token strings to ids built
    while reading the tokens, each new token getting the next id in order of
    first appearance, and the reverse lookup Corpus.ToString makes. */
module Vocabularies {
  import opened SuffixArrays

  /** The text ToString gives an id no token has. */
  const Unknown: string := "**UNKNOWN**"

  /** No two tokens share an id. */
  ghost predicate Injective(voc: map<string, int>)
  {
    forall t, u :: t in voc && u in voc && voc[t] == voc[u] ==> t == u
  }

  /** The tokens among the first n. */
  ghost function Seen(tokens: seq<string>, n: nat): set<string>
    requires n <= |tokens|
  {
    set j | 0 <= j < n :: tokens[j]
  }

  /** Position i holds the first occurrence of its token. */
  ghost predicate FirstAt(tokens: seq<string>, i: nat)
    requires i < |tokens|
  {
    forall j :: 0 <= j < i ==> tokens[j] != tokens[i]
  }

  /** The number of distinct tokens among the first n: the first
      occurrences before position n. */
  ghost function NewBefore(tokens: seq<string>, n: nat): nat
    requires n <= |tokens|
  {
    if n == 0 then 0 else NewBefore(tokens, n - 1) + (if FirstAt(tokens, n - 1) then 1 else 0)
  }

  /** voc and ids are what the vocabulary loop builds from the first n
      tokens: the tokens seen are the keys, the ids read position by
      position are those of the tokens, no two tokens share an id, the ids
      in use are exactly 0 .. |voc| - 1, and the first occurrence of a
      token gets as id the number of distinct tokens before it. */
  ghost predicate VocabularyOf(tokens: seq<string>, n: nat, voc: map<string, int>, ids: seq<int>)
  {
    && n <= |tokens| && |ids| == n
    && voc.Keys == Seen(tokens, n)
    && (forall j {:trigger ids[j]} :: 0 <= j < n ==> tokens[j] in voc && ids[j] == voc[tokens[j]])
    && Injective(voc)
    && (forall t :: t in voc ==> 0 <= voc[t] < |voc|)
    && |voc| == NewBefore(tokens, n)
    && ToSet(ids) == Ids(|voc|)
    && (forall j {:trigger ids[j]} :: 0 <= j < n && FirstAt(tokens, j) ==> ids[j] == NewBefore(tokens, j))
  }

  /** Nothing read, nothing known. */
  lemma VocabularyEmpty(tokens: seq<string>)
    ensures VocabularyOf(tokens, 0, map[], [])
  {
    assert Ids(0) == {};
  }

  /** One more token, already known: it repeats its id. */
  lemma VocabularyKnown(tokens: seq<string>, n: nat, voc: map<string, int>, ids: seq<int>)
    requires n < |tokens| && VocabularyOf(tokens, n, voc, ids) && tokens[n] in voc
    ensures VocabularyOf(tokens, n + 1, voc, ids + [voc[tokens[n]]])
  {
    var t, ids' := tokens[n], ids + [voc[tokens[n]]];
    assert Seen(tokens, n + 1) == Seen(tokens, n) + {t};
    assert !FirstAt(tokens, n) by {
      var j :| 0 <= j < n && tokens[j] == t;
    }
    assert ToSet(ids') == ToSet(ids) + {voc[t]};
    forall j | 0 <= j < n + 1
      ensures tokens[j] in voc && ids'[j] == voc[tokens[j]]
    {
      if j < n {
        assert ids'[j] == ids[j];
      }
    }
    FirstSeenExtend(tokens, n, ids, voc[t]);
  }

  /** One more token, not seen before: it gets the id |voc|, the number of
      distinct tokens before it. */
  lemma VocabularyNew(tokens: seq<string>, n: nat, voc: map<string, int>, ids: seq<int>)
    requires n < |tokens| && VocabularyOf(tokens, n, voc, ids) && tokens[n] !in voc
    ensures VocabularyOf(tokens, n + 1, voc[tokens[n] := |voc|], ids + [|voc|])
  {
    var t, k := tokens[n], |voc|;
    var voc', ids' := voc[t := k], ids + [k];
    NewTokenFirst(tokens, n, voc);
    NewTokenId(voc, t, voc');
    IdsAppendNext(ids, k);
    TokenIdsExtend(tokens, n, voc, ids, k);
    FirstSeenExtend(tokens, n, ids, k);
  }

  /** Appending the next id to a list using exactly the ids 0 .. k - 1
      gives a list using exactly 0 .. k. */
  lemma IdsAppendNext(ids: seq<int>, k: nat)
    requires ToSet(ids) == Ids(k)
    ensures ToSet(ids + [k]) == Ids(k + 1)
  {
    assert ToSet(ids + [k]) == ToSet(ids) + {k};
    assert Ids(k + 1) == Ids(k) + {k};
  }

  /** Entering a new token with id k keeps the ids of the positions read
      and reads k for it. */
  lemma TokenIdsExtend(tokens: seq<string>, n: nat, voc: map<string, int>, ids: seq<int>, k: int)
    requires n < |tokens| && |ids| == n && tokens[n] !in voc
    requires forall j {:trigger ids[j]} :: 0 <= j < n ==> tokens[j] in voc && ids[j] == voc[tokens[j]]
    ensures forall j {:trigger (ids + [k])[j]} :: 0 <= j < n + 1 ==>
      tokens[j] in voc[tokens[n] := k] && (ids + [k])[j] == voc[tokens[n] := k][tokens[j]]
  {
    var voc', ids' := voc[tokens[n] := k], ids + [k];
    forall j | 0 <= j < n + 1
      ensures tokens[j] in voc' && ids'[j] == voc'[tokens[j]]
    {
      if j < n {
        assert ids'[j] == ids[j];
      }
    }
  }

  /** A token not among the keys of the vocabulary of the first n tokens
      occurs there for the first time. */
  lemma NewTokenFirst(tokens: seq<string>, n: nat, voc: map<string, int>)
    requires n < |tokens| && voc.Keys == Seen(tokens, n) && tokens[n] !in voc
    ensures FirstAt(tokens, n) && NewBefore(tokens, n + 1) == NewBefore(tokens, n) + 1
    ensures voc[tokens[n] := |voc|].Keys == Seen(tokens, n + 1)
  {
    assert Seen(tokens, n + 1) == Seen(tokens, n) + {tokens[n]};
    forall j | 0 <= j < n
      ensures tokens[j] != tokens[n]
    {
      assert tokens[j] in Seen(tokens, n);
    }
  }

  /** Giving a new token the id |voc|, one past every id in use, keeps ids
      unshared and in range. */
  lemma NewTokenId(voc: map<string, int>, t: string, voc': map<string, int>)
    requires t !in voc && Injective(voc) && forall u :: u in voc ==> 0 <= voc[u] < |voc|
    requires voc' == voc[t := |voc|]
    ensures |voc'| == |voc| + 1
    ensures Injective(voc')
    ensures forall u :: u in voc' ==> 0 <= voc'[u] < |voc'|
  {
    assert voc'.Keys == voc.Keys + {t};
  }

  /** The first-seen rule survives one more id, when that id obeys it. */
  lemma FirstSeenExtend(tokens: seq<string>, n: nat, ids: seq<int>, id: int)
    requires n < |tokens| && |ids| == n
    requires forall j {:trigger ids[j]} :: 0 <= j < n && FirstAt(tokens, j) ==> ids[j] == NewBefore(tokens, j)
    requires FirstAt(tokens, n) ==> id == NewBefore(tokens, n)
    ensures forall j {:trigger (ids + [id])[j]} :: 0 <= j < n + 1 && FirstAt(tokens, j) ==> (ids + [id])[j] == NewBefore(tokens, j)
  {
    var ids' := ids + [id];
    forall j | 0 <= j < n + 1 && FirstAt(tokens, j)
      ensures ids'[j] == NewBefore(tokens, j)
    {
      if j < n {
        assert ids'[j] == ids[j];
      }
    }
  }

  /** What ToString may give for id: a token whose id it is, when there is
      one (any such token, since the map is ranged over in no fixed order),
      and Unknown otherwise. */
  ghost predicate Renders(voc: map<string, int>, id: int, str: string)
  {
    if exists t :: t in voc && voc[t] == id then str in voc && voc[str] == id else str == Unknown
  }

  /** Rendering the ids of a vocabulary's tokens gives back the tokens. */
  lemma RenderRoundTrip(tokens: seq<string>, voc: map<string, int>, ids: seq<int>, strs: seq<string>)
    requires VocabularyOf(tokens, |tokens|, voc, ids)
    requires |strs| == |ids| && forall i :: 0 <= i < |ids| ==> Renders(voc, ids[i], strs[i])
    ensures strs == tokens
  {
    forall i | 0 <= i < |ids|
      ensures strs[i] == tokens[i]
    {
      assert tokens[i] in voc && voc[tokens[i]] == ids[i];
    }
  }

  /** An id outside 0 .. |voc| - 1 renders as Unknown. */
  lemma RenderUnknown(tokens: seq<string>, voc: map<string, int>, ids: seq<int>, id: int, str: string)
    requires VocabularyOf(tokens, |tokens|, voc, ids) && !(0 <= id < |voc|)
    requires Renders(voc, id, str)
    ensures str == Unknown
  {
  }
}
