/** Match and Segment of mdl_segmenter.go as written, where a label is the
    "%v" rendering of an ngram ("[1 2 3]") and its length is the length of
    that string rather than the number of ids it stands for. Match compares
    an ngram's id count with the string length of the label kept so far,
    and Segment advances through the sequence by the string length of each
    label. The lemmas here exhibit inputs on which both go wrong; the model
    of the segmenter uses the lengths in ids instead. */
module PrintedLabels {
  import Segmentations

  /** The decimal digit for d. */
  function Digit(d: nat): char
    requires d < 10
  {
    "0123456789"[d]
  }

  /** The decimal rendering of a natural number, without leading zeros. */
  function Decimal(n: nat): (r: string)
    ensures 1 <= |r|
    decreases n
  {
    if n < 10 then [Digit(n)] else Decimal(n / 10) + [Digit(n % 10)]
  }

  /** The "%v" rendering of an int: a minus sign for negatives. */
  function IntText(n: int): (r: string)
    ensures 1 <= |r|
  {
    if n < 0 then "-" + Decimal(-n) else Decimal(n)
  }

  /** The renderings of ids, separated by single spaces. */
  function Spaced(ids: seq<int>): (r: string)
    ensures |ids| > 0 ==> |r| >= 2 * |ids| - 1
  {
    if ids == [] then ""
    else if |ids| == 1 then IntText(ids[0])
    else IntText(ids[0]) + " " + Spaced(ids[1..])
  }

  /** The "%v" rendering of an []int: the ids in brackets. Never shorter
      than the number of ids plus the two brackets. */
  function Format(ids: seq<int>): (r: string)
    ensures |r| >= |ids| + 2
  {
    "[" + Spaced(ids) + "]"
  }

  /** The loop of Match as written, over the ngrams in the order the range
      visits them: an ngram replaces the label kept so far when it starts s
      and its id count exceeds the label's string length. */
  function MatchLoop(order: seq<seq<int>>, s: seq<int>, kept: string): (r: string)
    ensures r == kept || |r| >= 2
  {
    if order == [] then kept
    else
      var g := order[0];
      var next := if |g| <= |s| && g <= s && |g| > |kept| then Format(g) else kept;
      MatchLoop(order[1..], s, next)
  }

  /** Match as written: the label kept by the loop, or the rendering of the
      first element when none was kept. */
  function MatchPrinted(order: seq<seq<int>>, s: seq<int>): (r: string)
    requires 0 < |s|
    ensures |r| >= 2
  {
    var m := MatchLoop(order, s, "");
    if m == "" then Format(s[..1]) else m
  }

  /** Segment as written, from position pos: each label moves pos on by
      its string length. Labels are at least two characters long, so there
      is at most one label for every two elements left, rounded up. */
  function SegmentFrom(order: seq<seq<int>>, s: seq<int>, pos: nat): (r: seq<string>)
    ensures pos >= |s| ==> r == []
    ensures pos < |s| ==> 2 * |r| <= |s| - pos + 1
    decreases |s| - pos
  {
    if pos >= |s| then []
    else
      var m := MatchPrinted(order, s[pos..]);
      [m] + SegmentFrom(order, s, pos + |m|)
  }

  /** Segment as written, from the start: never more labels than half the
      elements, rounded up, so a sequence of two or more elements is never
      given one label per element. */
  function SegmentPrinted(order: seq<seq<int>>, s: seq<int>): (r: seq<string>)
    ensures 2 * |r| <= |s| + 1
  {
    SegmentFrom(order, s, 0)
  }

  /** With no accepted ngram, the sequence [1, 2] is cut as written into
      the single label "[1]": the label is three characters long, so the
      position jumps past the 2, which no label covers. The greedy cover of
      the model has one label per element. */
  lemma SegmentPrintedSkips()
    ensures SegmentPrinted([], [1, 2]) == ["[1]"]
    ensures Segmentations.Greedy({}, [1, 2]) == [[1], [2]]
  {
    var s := [1, 2];
    assert s[..1] == [1];
    assert Format([1]) == "[1]";
    assert MatchPrinted([], s[0..]) == "[1]";
    assert SegmentFrom([], s, 3) == [];
    Segmentations.GreedyNothingAccepted(s);
  }

  /** With [1, 2] visited before [1, 2, 3], Match as written keeps "[1 2]"
      for the sequence [1, 2, 3]: the three ids of the longer ngram are not
      more than the five characters of "[1 2]". The longest match is
      [1, 2, 3]. */
  lemma MatchPrintedKeepsShorter()
    ensures MatchPrinted([[1, 2], [1, 2, 3]], [1, 2, 3]) == "[1 2]"
    ensures Segmentations.LongestMatch({[1, 2], [1, 2, 3]}, [1, 2, 3]) == [1, 2, 3]
  {
    var s := [1, 2, 3];
    assert [1, 2] <= s;
    assert Format([1, 2]) == "[1 2]" by {
      assert Spaced([2]) == "2";
      assert Spaced([1, 2]) == "1" + " " + Spaced([2]);
    }
    assert MatchLoop([[1, 2], [1, 2, 3]], s, "") == MatchLoop([[1, 2, 3]], s, "[1 2]");
    assert MatchLoop([[1, 2, 3]], s, "[1 2]") == MatchLoop([], s, "[1 2]");
    assert s[..3] == s;
  }
}
