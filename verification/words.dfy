/** Word counting as `str.trim().split(/\s+/).filter(Boolean)` does it,
    and the maximal runs of non-whitespace it is meant to count. */
module Words {
  import opened Text

  /** The longest prefix of `s` free of whitespace. */
  function LeadingWord(s: string): (r: string)
    ensures |r| <= |s| && r == s[..|r|]
    ensures forall i :: 0 <= i < |r| ==> !IsWhitespace(r[i])
    ensures |r| == |s| || IsWhitespace(s[|r|])
  {
    if s == [] || IsWhitespace(s[0]) then [] else [s[0]] + LeadingWord(s[1..])
  }

  /** `s.split(/\s+/)`: the pieces between maximal whitespace runs. A
      leading or a trailing run gives an empty piece, and "" gives [""]. */
  function SplitOnWhitespace(s: string): seq<string>
    decreases |s|
  {
    var w := LeadingWord(s);
    if |w| == |s| then [s] else [w] + SplitOnWhitespace(TrimStart(s[|w|..]))
  }

  /** The split gives at least one piece, and no piece holds whitespace. */
  lemma {:induction false} PiecesHaveNoWhitespace(s: string)
    ensures SplitOnWhitespace(s) != []
    ensures forall i, j :: 0 <= i < |SplitOnWhitespace(s)| && 0 <= j < |SplitOnWhitespace(s)[i]| ==>
              !IsWhitespace(SplitOnWhitespace(s)[i][j])
    decreases |s|
  {
    var w := LeadingWord(s);
    var pieces := SplitOnWhitespace(s);
    if |w| == |s| {
      assert w == s;
      assert pieces == [w];
      forall i, j | 0 <= i < |pieces| && 0 <= j < |pieces[i]| ensures !IsWhitespace(pieces[i][j]) {
        assert pieces[i] == w;
      }
    } else {
      var next := TrimStart(s[|w|..]);
      var rest := SplitOnWhitespace(next);
      PiecesHaveNoWhitespace(next);
      assert pieces == [w] + rest;
      forall i, j | 0 <= i < |pieces| && 0 <= j < |pieces[i]| ensures !IsWhitespace(pieces[i][j]) {
        if i == 0 { assert pieces[i] == w; } else { assert pieces[i] == rest[i - 1]; }
      }
    }
  }

  /** `.filter(Boolean)` on an array of strings: drops the empty ones. */
  function NonEmptyPieces(pieces: seq<string>): (r: seq<string>)
    ensures forall i :: 0 <= i < |r| ==> r[i] != []
  {
    if pieces == [] then []
    else (if pieces[0] == [] then [] else [pieces[0]]) + NonEmptyPieces(pieces[1..])
  }

  /** Every non-empty piece is kept, as often as it occurs; only the empty
      ones go. */
  lemma {:induction false} NonEmptyPiecesKeepsNonEmpty(pieces: seq<string>)
    ensures multiset(NonEmptyPieces(pieces)) == multiset(pieces)[[] := 0]
    ensures |NonEmptyPieces(pieces)| == |pieces| - multiset(pieces)[[]]
    decreases |pieces|
  {
    if pieces != [] {
      assert pieces == [pieces[0]] + pieces[1..];
      NonEmptyPiecesKeepsNonEmpty(pieces[1..]);
    }
  }

  /** Reference count: the positions that hold a non-whitespace character
      and either start the text or follow whitespace, i.e. the number of
      maximal non-whitespace runs. `afterSpace` says whether the position
      before `s` counts as a run boundary. */
  function RunsFrom(s: string, afterSpace: bool): nat {
    if s == [] then 0
    else (if afterSpace && !IsWhitespace(s[0]) then 1 else 0) + RunsFrom(s[1..], IsWhitespace(s[0]))
  }

  function RunCount(s: string): nat {
    RunsFrom(s, true)
  }

  /** A text opening with whitespace has the runs of its trimmed start. */
  lemma {:induction false} RunsSkipLeadingSpace(s: string, afterSpace: bool)
    requires s != [] && IsWhitespace(s[0])
    ensures RunsFrom(s, afterSpace) == RunCount(TrimStart(s))
    decreases |s|
  {
    if s[1..] != [] && IsWhitespace(s[1]) {
      RunsSkipLeadingSpace(s[1..], true);
    }
  }

  /** Reading a non-empty leading word contributes one run when it starts
      at a boundary and none otherwise. */
  lemma {:induction false} RunsOverWord(s: string, afterSpace: bool)
    requires LeadingWord(s) != []
    ensures RunsFrom(s, afterSpace)
      == (if afterSpace then 1 else 0) + RunsFrom(s[|LeadingWord(s)|..], false)
    decreases |s|
  {
    var w := LeadingWord(s);
    assert !IsWhitespace(s[0]);
    if LeadingWord(s[1..]) != [] {
      RunsOverWord(s[1..], false);
      assert |w| == 1 + |LeadingWord(s[1..])|;
      assert s[1..][|LeadingWord(s[1..])|..] == s[|w|..];
    } else {
      assert |w| == 1;
    }
  }

  /** Whitespace never starts a run. */
  lemma {:induction false} RunsOfSpace(s: string, afterSpace: bool)
    requires AllWhitespace(s)
    ensures RunsFrom(s, afterSpace) == 0
    decreases |s|
  {
    if s != [] {
      RunsOfSpace(s[1..], true);
    }
  }

  lemma {:induction false} RunsIgnoreTrailingSpace(s: string, tail: string, afterSpace: bool)
    requires AllWhitespace(tail)
    ensures RunsFrom(s + tail, afterSpace) == RunsFrom(s, afterSpace)
    decreases |s|
  {
    if s == [] {
      assert s + tail == tail;
      RunsOfSpace(tail, afterSpace);
    } else {
      assert (s + tail)[0] == s[0];
      assert (s + tail)[1..] == s[1..] + tail;
      RunsIgnoreTrailingSpace(s[1..], tail, IsWhitespace(s[0]));
    }
  }

  /** Trimming never changes the number of runs. */
  lemma {:induction false} RunsOfTrim(s: string)
    ensures RunCount(Trim(s)) == RunCount(s)
  {
    var t := TrimStart(s);
    if s != [] && IsWhitespace(s[0]) {
      RunsSkipLeadingSpace(s, true);
    }
    var r := TrimEnd(t);
    assert t == r + t[|r|..];
    RunsIgnoreTrailingSpace(r, t[|r|..], true);
  }

  /** The non-empty pieces of the split are exactly the runs. */
  lemma {:induction false} PiecesAreRuns(s: string)
    ensures |NonEmptyPieces(SplitOnWhitespace(s))| == RunCount(s)
    decreases |s|
  {
    var w := LeadingWord(s);
    if |w| == |s| {
      assert w == s;
      if s != [] {
        RunsOverWord(s, true);
        assert s[|w|..] == [];
      }
    } else {
      var u := s[|w|..];
      var next := TrimStart(u);
      var rest := SplitOnWhitespace(next);
      assert SplitOnWhitespace(s) == [w] + rest;
      assert ([w] + rest)[1..] == rest;
      assert |NonEmptyPieces(SplitOnWhitespace(s))|
        == (if w == [] then 0 else 1) + |NonEmptyPieces(rest)|;
      PiecesAreRuns(next);
      RunsSkipLeadingSpace(u, true);
      RunsSkipLeadingSpace(u, false);
      if w != [] {
        RunsOverWord(s, true);
      } else {
        assert u == s;
      }
    }
  }

  /** There are no runs exactly when the text is all whitespace. */
  lemma {:induction false} NoRunsIffAllSpace(s: string)
    ensures RunCount(s) == 0 <==> AllWhitespace(s)
    decreases |s|
  {
    if s != [] {
      NoRunsIffAllSpace(s[1..]);
      if IsWhitespace(s[0]) {
        assert AllWhitespace(s) <==> AllWhitespace(s[1..]) by {
          if AllWhitespace(s[1..]) {
            forall i | 0 <= i < |s| ensures IsWhitespace(s[i]) {
              if i > 0 { assert s[i] == s[1..][i - 1]; }
            }
          }
        }
      }
    }
  }

  /** Every run holds at least one character. */
  lemma {:induction false} RunsBound(s: string, afterSpace: bool)
    ensures RunsFrom(s, afterSpace) <= |s|
    decreases |s|
  {
    if s != [] {
      RunsBound(s[1..], IsWhitespace(s[0]));
    }
  }

  /** `word_count`: 0 when the trimmed text is empty, otherwise the number
      of non-empty pieces of splitting the trimmed text on whitespace. */
  function WordCount(s: string): (n: nat)
    ensures n == RunCount(s)
    ensures n == 0 <==> Trim(s) == []
    ensures n <= |s|
  {
    var t := Trim(s);
    RunsOfTrim(s);
    NoRunsIffAllSpace(s);
    RunsBound(s, true);
    if t == [] then 0
    else
      PiecesAreRuns(t);
      |NonEmptyPieces(SplitOnWhitespace(t))|
  }
}
