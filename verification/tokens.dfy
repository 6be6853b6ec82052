/** tokens.go: TokenizeLine, which splits a line at every space, as Go's
    strings.Split(line, " ") does. */
module Tokens {

  /** TokenizeLine: the pieces of line between spaces. Consecutive, leading
      or trailing spaces give empty pieces, and a line with no space is a
      single piece. */
  function TokenizeLine(line: string): (r: seq<string>)
    ensures 1 <= |r|
    decreases |line|
  {
    if line == [] then [""]
    else
      var rest := TokenizeLine(line[1..]);
      if line[0] == ' ' then [""] + rest else [[line[0]] + rest[0]] + rest[1..]
  }

  /** The pieces put back together with a single space between them. */
  function Join(tks: seq<string>): string
    decreases |tks|
  {
    if tks == [] then "" else if |tks| == 1 then tks[0] else tks[0] + " " + Join(tks[1..])
  }

  /** The number of spaces in line. */
  function Spaces(line: string): nat
  {
    if line == [] then 0 else (if line[0] == ' ' then 1 else 0) + Spaces(line[1..])
  }

  /** TokenizeLine never gives an empty list, and no piece holds a space. */
  lemma {:induction false} TokenizeShape(line: string)
    ensures |TokenizeLine(line)| == Spaces(line) + 1
    ensures forall i :: 0 <= i < |TokenizeLine(line)| ==> ' ' !in TokenizeLine(line)[i]
    decreases |line|
  {
    if line != [] {
      TokenizeShape(line[1..]);
      var rest := TokenizeLine(line[1..]);
      if line[0] != ' ' {
        var tks := TokenizeLine(line);
        forall i | 0 <= i < |tks|
          ensures ' ' !in tks[i]
        {
          if i > 0 {
            assert tks[i] == rest[i];
          }
        }
      }
    }
  }

  /** Joining the pieces with single spaces gives back the line. */
  lemma {:induction false} JoinTokenize(line: string)
    ensures Join(TokenizeLine(line)) == line
    decreases |line|
  {
    if line != [] {
      JoinTokenize(line[1..]);
      TokenizeShape(line[1..]);
      var rest := TokenizeLine(line[1..]);
      if line[0] == ' ' {
        assert ([""] + rest)[1..] == rest;
      } else {
        var tks := [[line[0]] + rest[0]] + rest[1..];
        assert tks[1..] == rest[1..];
        if |rest| > 1 {
          assert Join(rest) == rest[0] + " " + Join(rest[1..]);
        }
      }
    }
  }

  /** Splitting a join of space-free pieces gives back the pieces. */
  lemma {:induction false} TokenizeJoin(tks: seq<string>)
    requires |tks| >= 1 && forall i :: 0 <= i < |tks| ==> ' ' !in tks[i]
    ensures TokenizeLine(Join(tks)) == tks
    decreases |tks|, |tks[0]|
  {
    var t := tks[0];
    if t == [] {
      if |tks| > 1 {
        assert Join(tks) == " " + Join(tks[1..]);
        TokenizeJoin(tks[1..]);
        assert [""] + tks[1..] == tks;
      }
    } else {
      var tks' := [t[1..]] + tks[1..];
      assert t[1..] == tks'[0] && ' ' !in t;
      forall i | 0 <= i < |tks'|
        ensures ' ' !in tks'[i]
      {
        if i > 0 {
          assert tks'[i] == tks[i];
        }
      }
      TokenizeJoin(tks');
      assert tks'[1..] == tks[1..];
      var line := Join(tks);
      assert line == [t[0]] + Join(tks');
      assert line[0] == t[0] && line[1..] == Join(tks');
      assert TokenizeLine(line) == [[t[0]] + tks'[0]] + tks'[1..];
      assert [t[0]] + t[1..] == t;
      assert [t] + tks[1..] == tks;
    }
  }

  /** A trailing space adds an empty last piece; a leading one an empty
      first piece. */
  lemma {:induction false} TokenizeSpaceEnds(line: string)
    ensures TokenizeLine(line + " ") == TokenizeLine(line) + [""]
    ensures TokenizeLine(" " + line) == [""] + TokenizeLine(line)
    decreases |line|
  {
    assert (" " + line)[1..] == line;
    if line != [] {
      var line' := line + " ";
      assert line'[0] == line[0] && line'[1..] == line[1..] + " ";
      TokenizeSpaceEnds(line[1..]);
      TokenizeShape(line[1..]);
    } else {
      assert TokenizeLine(" ") == [""] + TokenizeLine("");
    }
  }
}
