/** The status bar's counts: characters are the length of the buffer, and
    words are what `text.trim().split(/\s+/).filter(Boolean)` leaves. */
module StatusBar {

  /** The characters JavaScript's `\s` and `String.prototype.trim` treat as
      white space: the WhiteSpace and LineTerminator code points of the
      ECMAScript Language Specification (tab, vertical tab, form feed, the
      byte order mark, the space separators of Unicode category Zs, line
      feed, carriage return, and the line and paragraph separators). */
  predicate IsSpace(c: char)
  {
    || c == '\t' || c == '\n' || c == '\U{000B}' || c == '\U{000C}' || c == '\r'
    || c == ' ' || c == '\U{00A0}' || c == '\U{1680}'
    || ('\U{2000}' <= c <= '\U{200A}')
    || c == '\U{2028}' || c == '\U{2029}' || c == '\U{202F}' || c == '\U{205F}'
    || c == '\U{3000}' || c == '\U{FEFF}'
  }

  predicate AllSpace(s: string)
  {
    forall i :: 0 <= i < |s| ==> IsSpace(s[i])
  }

  predicate HasSpace(s: string)
  {
    exists i :: 0 <= i < |s| && IsSpace(s[i])
  }

  /** `s` without its leading white space. */
  function TrimStart(s: string): (r: string)
    ensures |r| <= |s| && r == s[|s| - |r|..]
    ensures AllSpace(s[..|s| - |r|])
    ensures |r| == 0 || !IsSpace(r[0])
  {
    if |s| > 0 && IsSpace(s[0]) then
      var r := TrimStart(s[1..]);
      assert s[1..][|s| - 1 - |r|..] == s[|s| - |r|..];
      forall i | 1 <= i < |s| - |r|
        ensures IsSpace(s[i])
      {
        assert s[i] == s[1..][..|s| - 1 - |r|][i - 1];
      }
      r
    else s
  }

  /** `s` without its trailing white space. */
  function TrimEnd(s: string): (r: string)
    ensures |r| <= |s| && r == s[..|r|]
    ensures AllSpace(s[|r|..])
    ensures |r| == 0 || !IsSpace(r[|r| - 1])
  {
    if |s| > 0 && IsSpace(s[|s| - 1]) then
      var r := TrimEnd(s[..|s| - 1]);
      assert forall i :: |r| <= i < |s| - 1 ==> s[i] == s[..|s| - 1][i];
      r
    else s
  }

  /** `String.prototype.trim`: the text with white space removed at both
      ends. */
  function Trim(s: string): (r: string)
    ensures |r| == 0 || (!IsSpace(r[0]) && !IsSpace(r[|r| - 1]))
  {
    TrimEnd(TrimStart(s))
  }

  /** `s` without its leading run of white space. */
  function SkipSpace(s: string): (r: string)
    ensures |r| <= |s| && (|r| == 0 || !IsSpace(r[0]))
  {
    if |s| > 0 && IsSpace(s[0]) then SkipSpace(s[1..]) else s
  }

  /** `s.split(/\s+/)`: the pieces between maximal runs of white space,
      with an empty first piece when `s` starts with white space and an
      empty last piece when it ends with it. */
  function SplitSpace(s: string): (r: seq<string>)
    ensures |r| >= 1
    ensures forall i :: 0 <= i < |r| ==> !HasSpace(r[i])
    decreases |s|
  {
    if |s| == 0 then [""]
    else if IsSpace(s[0]) then [""] + SplitSpace(SkipSpace(s[1..]))
    else
      var rest := SplitSpace(s[1..]);
      assert forall i :: 1 <= i < |rest[0]| + 1 ==> ([s[0]] + rest[0])[i] == rest[0][i - 1];
      [[s[0]] + rest[0]] + rest[1..]
  }

  /** `filter(Boolean)` on strings: the non-empty ones. */
  function NonEmpty(ls: seq<string>): (r: seq<string>)
    ensures forall i :: 0 <= i < |r| ==> r[i] != ""
  {
    if |ls| == 0 then []
    else if ls[0] == "" then NonEmpty(ls[1..])
    else [ls[0]] + NonEmpty(ls[1..])
  }

  /** The word count the status bar shows. */
  function WordCount(text: string): nat
  {
    |NonEmpty(SplitSpace(Trim(text)))|
  }

  /** The character count the status bar shows: one per UTF-16 code unit,
      the buffer's length. */
  function CharCount(text: string): (r: nat)
    ensures r == |text|
  {
    |text|
  }

  /** An independent count: the number of places where a run of
      non-white-space characters starts, `afterSpace` telling whether the
      place before `s` is white space (or the start of the text). */
  function Runs(s: string, afterSpace: bool): nat
  {
    if |s| == 0 then 0
    else (if afterSpace && !IsSpace(s[0]) then 1 else 0) + Runs(s[1..], IsSpace(s[0]))
  }

  /** The number of maximal runs of non-white-space characters. */
  function Words(s: string): nat
  {
    Runs(s, true)
  }

  /** The status bar's word count is the number of maximal runs of
      non-white-space characters. */
  lemma WordCountIsRuns(text: string)
    ensures WordCount(text) == Words(text)
  {
    SplitCountsRuns(Trim(text));
    TrimKeepsRuns(text);
  }

  /** A text has no words exactly when it is empty or all white space. */
  lemma NoWordsIffBlank(text: string)
    ensures WordCount(text) == 0 <==> AllSpace(text)
  {
    WordCountIsRuns(text);
    RunsZeroIffBlank(text);
  }

  lemma {:induction false} RunsZeroIffBlank(s: string)
    ensures Runs(s, true) == 0 <==> AllSpace(s)
  {
    if |s| > 0 {
      RunsZeroIffBlank(s[1..]);
      if IsSpace(s[0]) {
        assert AllSpace(s) <==> AllSpace(s[1..]) by {
          assert forall i :: 1 <= i < |s| ==> s[i] == s[1..][i - 1];
        }
      }
    }
  }

  /** Leading white space starts no run. */
  lemma {:induction false} SkipSpaceKeepsRuns(s: string)
    ensures Runs(SkipSpace(s), true) == Runs(s, true)
  {
    if |s| > 0 && IsSpace(s[0]) {
      SkipSpaceKeepsRuns(s[1..]);
    }
  }

  lemma {:induction false} TrimStartKeepsRuns(s: string)
    ensures Runs(TrimStart(s), true) == Runs(s, true)
  {
    if |s| > 0 && IsSpace(s[0]) {
      TrimStartKeepsRuns(s[1..]);
    }
  }

  /** A white-space character at the end starts no run. */
  lemma {:induction false} RunsSnocSpace(s: string, c: char, afterSpace: bool)
    requires IsSpace(c)
    ensures Runs(s + [c], afterSpace) == Runs(s, afterSpace)
  {
    if |s| == 0 {
      assert s + [c] == [c];
    } else {
      assert (s + [c])[1..] == s[1..] + [c];
      RunsSnocSpace(s[1..], c, IsSpace(s[0]));
    }
  }

  lemma {:induction false} TrimEndKeepsRuns(s: string)
    ensures Runs(TrimEnd(s), true) == Runs(s, true)
    decreases |s|
  {
    if |s| > 0 && IsSpace(s[|s| - 1]) {
      TrimEndKeepsRuns(s[..|s| - 1]);
      assert s == s[..|s| - 1] + [s[|s| - 1]];
      RunsSnocSpace(s[..|s| - 1], s[|s| - 1], true);
    }
  }

  lemma TrimKeepsRuns(s: string)
    ensures Runs(Trim(s), true) == Runs(s, true)
  {
    TrimStartKeepsRuns(s);
    TrimEndKeepsRuns(TrimStart(s));
  }

  /** The first piece of the split is empty exactly when the text is empty
      or starts with white space. */
  lemma FirstPieceEmpty(s: string)
    ensures SplitSpace(s)[0] == "" <==> |s| == 0 || IsSpace(s[0])
  {
  }

  lemma NonEmptyCons(x: string, ls: seq<string>)
    ensures |NonEmpty([x] + ls)| == (if x == "" then 0 else 1) + |NonEmpty(ls)|
  {
    assert ([x] + ls)[1..] == ls;
  }

  /** Splitting on white space and dropping empty pieces leaves one piece
      per run. */
  lemma {:induction false} SplitCountsRuns(s: string)
    ensures |NonEmpty(SplitSpace(s))| == Runs(s, true)
    decreases |s|
  {
    if |s| == 0 {
    } else if IsSpace(s[0]) {
      SplitCountsRuns(SkipSpace(s[1..]));
      SkipSpaceKeepsRuns(s[1..]);
      NonEmptyCons("", SplitSpace(SkipSpace(s[1..])));
    } else {
      SplitCountsRuns(s[1..]);
      FirstPieceEmpty(s[1..]);
      NonEmptyCons([s[0]] + SplitSpace(s[1..])[0], SplitSpace(s[1..])[1..]);
      NonEmptyCons(SplitSpace(s[1..])[0], SplitSpace(s[1..])[1..]);
      assert SplitSpace(s[1..]) == [SplitSpace(s[1..])[0]] + SplitSpace(s[1..])[1..];
    }
  }
}
