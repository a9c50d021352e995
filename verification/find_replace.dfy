/** The two buttons of the find-and-replace dialog. "Replace" replaces the
    selection when it matches the search text (compared through a case
    mapping) and otherwise selects the next occurrence; "Replace all" runs
    `String.prototype.replaceAll` with a string pattern, as the ECMAScript
    Language Specification defines it (the list of match positions, then
    `GetSubstitution` for each). */
module FindReplace {
  import opened Text
  import opened TextArea

  // ---------------------------------------------------------------------
  // String.prototype.replaceAll with a string pattern
  // ---------------------------------------------------------------------

  /** The abstract operation `StringIndexOf`: the first occurrence of
      `pat` at or after `from`, or -1. Unlike `indexOf`, a start past the end
      finds nothing, even for the empty pattern. */
  function StringIndexOf(s: string, pat: string, from: nat): (r: int)
    ensures r == -1 || (from <= r && OccursAt(s, pat, r))
    decreases |s| + 1 - from
  {
    if from + |pat| > |s| then -1
    else if OccursAt(s, pat, from) then from
    else StringIndexOf(s, pat, from + 1)
  }

  /** `StringIndexOf` finds the first occurrence: none starts between
      `from` and what it returns (or the end, when it returns -1). */
  lemma {:induction false} StringIndexOfFirst(s: string, pat: string, from: nat)
    ensures forall j :: from <= j && (StringIndexOf(s, pat, from) == -1 || j < StringIndexOf(s, pat, from)) ==> !OccursAt(s, pat, j)
    decreases |s| + 1 - from
  {
    if from + |pat| <= |s| && !OccursAt(s, pat, from) {
      StringIndexOfFirst(s, pat, from + 1);
    }
  }

  /** From a position inside the text, `StringIndexOf` and `indexOf`
      agree. */
  lemma {:induction false} StringIndexOfIsIndexOf(s: string, pat: string, from: nat)
    requires from <= |s|
    ensures StringIndexOf(s, pat, from) == IndexFrom(s, pat, from)
    decreases |s| - from
  {
    if from + |pat| <= |s| && !OccursAt(s, pat, from) {
      StringIndexOfIsIndexOf(s, pat, from + 1);
    }
  }

  /** How far `replaceAll` moves past a match: the pattern's length, and one
      for the empty pattern. */
  function Advance(pat: string): nat
  {
    if |pat| == 0 then 1 else |pat|
  }

  /** `ps` are occurrences of `pat` in `s`, in order, the first at or after
      `floor` and each at least `Advance(pat)` after the previous one. */
  predicate Spaced(s: string, pat: string, ps: seq<nat>, floor: nat)
    decreases |ps|
  {
    |ps| > 0 ==>
      && floor <= ps[0]
      && OccursAt(s, pat, ps[0])
      && Spaced(s, pat, ps[1..], ps[0] + Advance(pat))
  }

  lemma SpacedLower(s: string, pat: string, ps: seq<nat>, a: nat, b: nat)
    requires a <= b && Spaced(s, pat, ps, b)
    ensures Spaced(s, pat, ps, a)
  {
  }

  /** The positions `replaceAll` collects from `pos` on: each found with
      `StringIndexOf` from the end of the previous one. */
  function MatchesFrom(s: string, pat: string, pos: nat): seq<nat>
    decreases |s| + 1 - pos
  {
    if pos > |s| then []
    else
      var p := StringIndexOf(s, pat, pos);
      if p == -1 then [] else [p] + MatchesFrom(s, pat, p + Advance(pat))
  }

  /** `ps` is what the collection of match positions yields from `pos` on:
      each entry is what `StringIndexOf` finds from the end of the previous
      one, and the list ends where it finds nothing. */
  predicate Collected(s: string, pat: string, ps: seq<nat>, pos: nat)
    decreases |ps|
  {
    if |ps| == 0 then StringIndexOf(s, pat, pos) == -1
    else StringIndexOf(s, pat, pos) == ps[0] && Collected(s, pat, ps[1..], ps[0] + Advance(pat))
  }

  lemma {:induction false} MatchesCollected(s: string, pat: string, pos: nat)
    ensures Collected(s, pat, MatchesFrom(s, pat, pos), pos)
    decreases |s| + 1 - pos
  {
    if pos <= |s| && StringIndexOf(s, pat, pos) != -1 {
      var p := StringIndexOf(s, pat, pos);
      var rest := MatchesFrom(s, pat, p + Advance(pat));
      MatchesCollected(s, pat, p + Advance(pat));
      assert MatchesFrom(s, pat, pos) == [p] + rest;
      CollectedCons(s, pat, p, rest, pos);
    }
  }

  lemma CollectedCons(s: string, pat: string, p: nat, rest: seq<nat>, pos: nat)
    requires StringIndexOf(s, pat, pos) == p && Collected(s, pat, rest, p + Advance(pat))
    ensures Collected(s, pat, [p] + rest, pos)
  {
    assert ([p] + rest)[1..] == rest;
  }

  lemma {:induction false} CollectedSpaced(s: string, pat: string, ps: seq<nat>, pos: nat)
    requires Collected(s, pat, ps, pos)
    ensures Spaced(s, pat, ps, pos)
    decreases |ps|
  {
    if |ps| > 0 {
      CollectedSpaced(s, pat, ps[1..], ps[0] + Advance(pat));
    }
  }

  /** The collected positions are occurrences, in order, without overlap. */
  lemma MatchesSpaced(s: string, pat: string, pos: nat)
    ensures Spaced(s, pat, MatchesFrom(s, pat, pos), pos)
  {
    MatchesCollected(s, pat, pos);
    CollectedSpaced(s, pat, MatchesFrom(s, pat, pos), pos);
  }

  /** The `$` patterns of a replacement template, expanded for one match:
      `$$` is a dollar sign, `$&` the match, `` $` `` the text before it and
      `$'` the text after it. With a string pattern there are no captures,
      so every other `$` stands for itself. */
  function Expand(t: string, before: string, matched: string, after: string): string
    decreases |t|
  {
    if |t| == 0 then ""
    else if t[0] == '$' && |t| >= 2 && t[1] == '$' then "$" + Expand(t[2..], before, matched, after)
    else if t[0] == '$' && |t| >= 2 && t[1] == '&' then matched + Expand(t[2..], before, matched, after)
    else if t[0] == '$' && |t| >= 2 && t[1] == '`' then before + Expand(t[2..], before, matched, after)
    else if t[0] == '$' && |t| >= 2 && t[1] == '\'' then after + Expand(t[2..], before, matched, after)
    else [t[0]] + Expand(t[1..], before, matched, after)
  }

  /** `GetSubstitution` for the match of `matched` at `position` of `str`. */
  function Substitution(matched: string, str: string, position: nat, template: string): string
    requires position <= |str|
  {
    var tail := position + |matched|;
    Expand(template, str[..position], matched, if tail >= |str| then "" else str[tail..])
  }

  /** What each match is replaced by: for a match of `pat` at `p`, the
      `GetSubstitution` of `template`. No match starts past the end of `s`;
      there the template is left as it is. */
  function Replacements(s: string, pat: string, template: string): nat -> string
  {
    (p: nat) => if p <= |s| then Substitution(pat, s, p, template) else template
  }

  /** The result string built from the match positions `ps`, starting at
      `end`, the end of the previous match, each match replaced by
      `sub` of its position. */
  function Assemble(s: string, pat: string, sub: nat -> string, ps: seq<nat>, end: nat): string
    requires Spaced(s, pat, ps, end)
    decreases |ps|
  {
    if |ps| == 0 then (if end < |s| then s[end..] else "")
    else
      SpacedLower(s, pat, ps[1..], ps[0] + |pat|, ps[0] + Advance(pat));
      s[end..ps[0]] + sub(ps[0])
      + Assemble(s, pat, sub, ps[1..], ps[0] + |pat|)
  }

  /** `s.replaceAll(pat, template)`. */
  function ReplaceAll(s: string, pat: string, template: string): string
  {
    MatchesSpaced(s, pat, 0);
    Assemble(s, pat, Replacements(s, pat, template), MatchesFrom(s, pat, 0), 0)
  }

  /** An independent reading of "replace every occurrence, left to right,
      without overlaps": scan the text; at an occurrence emit its
      replacement `sub(i)` and jump past it, otherwise copy one
      character. */
  function ScanReplace(s: string, pat: string, sub: nat -> string, i: nat): string
    requires |pat| > 0 && i <= |s|
    decreases |s| - i
  {
    if i == |s| then ""
    else if OccursAt(s, pat, i) then
      sub(i) + ScanReplace(s, pat, sub, i + |pat|)
    else [s[i]] + ScanReplace(s, pat, sub, i + 1)
  }

  /** `replaceAll` replaces exactly what the left-to-right scan replaces. */
  lemma ReplaceAllIsScan(s: string, pat: string, template: string)
    requires |pat| > 0
    ensures ReplaceAll(s, pat, template) == ScanReplace(s, pat, Replacements(s, pat, template), 0)
  {
    MatchesCollected(s, pat, 0);
    AssembleIsScan(s, pat, Replacements(s, pat, template), MatchesFrom(s, pat, 0), 0);
  }

  /** From `pos` on, building the result from the collected matches `ps`
      and scanning give the same text. */
  lemma {:induction false} AssembleIsScan(s: string, pat: string, sub: nat -> string, ps: seq<nat>, pos: nat)
    requires |pat| > 0 && pos <= |s| && Collected(s, pat, ps, pos)
    ensures Spaced(s, pat, ps, pos)
    ensures Assemble(s, pat, sub, ps, pos) == ScanReplace(s, pat, sub, pos)
    decreases |ps|, 1
  {
    CollectedSpaced(s, pat, ps, pos);
    if |ps| == 0 {
      LastStretch(s, pat, sub, ps, pos);
    } else {
      AssembleIsScanCons(s, pat, sub, ps, pos);
    }
  }

  lemma {:induction false} AssembleIsScanCons(s: string, pat: string, sub: nat -> string, ps: seq<nat>, pos: nat)
    requires |pat| > 0 && pos <= |s| && |ps| > 0 && Collected(s, pat, ps, pos)
    ensures Spaced(s, pat, ps, pos)
    ensures Assemble(s, pat, sub, ps, pos) == ScanReplace(s, pat, sub, pos)
    decreases |ps|, 0
  {
    CollectedSpaced(s, pat, ps, pos);
    CollectedTail(s, pat, ps, pos);
    AssembleIsScan(s, pat, sub, ps[1..], ps[0] + |pat|);
    NextMatch(s, pat, sub, ps, pos);
  }

  /** For a non-empty pattern, the rest of the collected positions is
      collected from the end of the first match. */
  lemma CollectedTail(s: string, pat: string, ps: seq<nat>, pos: nat)
    requires |pat| > 0 && |ps| > 0 && Collected(s, pat, ps, pos)
    ensures StringIndexOf(s, pat, pos) == ps[0] && pos <= ps[0] && ps[0] + |pat| <= |s|
    ensures Collected(s, pat, ps[1..], ps[0] + |pat|)
  {
    assert Advance(pat) == |pat|;
  }

  lemma LastStretch(s: string, pat: string, sub: nat -> string, ps: seq<nat>, pos: nat)
    requires |pat| > 0 && pos <= |s| && StringIndexOf(s, pat, pos) == -1
    requires Spaced(s, pat, ps, pos) && |ps| == 0
    ensures Assemble(s, pat, sub, ps, pos) == ScanReplace(s, pat, sub, pos)
  {
    ScanSkip(s, pat, sub, pos, |s|);
    assert s[pos..|s|] == s[pos..];
  }

  /** With the next occurrence at `ps[0]`, both copy up to it and emit its
      substitution; the rest agrees when it agrees after that match. */
  lemma NextMatch(s: string, pat: string, sub: nat -> string, ps: seq<nat>, pos: nat)
    requires |pat| > 0 && pos <= |s| && |ps| > 0 && StringIndexOf(s, pat, pos) == ps[0]
    requires Spaced(s, pat, ps, pos) && Spaced(s, pat, ps[1..], ps[0] + |pat|)
    requires Assemble(s, pat, sub, ps[1..], ps[0] + |pat|) == ScanReplace(s, pat, sub, ps[0] + |pat|)
    ensures Assemble(s, pat, sub, ps, pos) == ScanReplace(s, pat, sub, pos)
  {
    AssembleStep(s, pat, sub, ps, pos);
    ScanNext(s, pat, sub, pos, ps[0]);
  }

  /** The scan from `pos` copies up to the next occurrence `p` and emits its
      substitution. */
  lemma ScanNext(s: string, pat: string, sub: nat -> string, pos: nat, p: nat)
    requires |pat| > 0 && pos <= |s| && StringIndexOf(s, pat, pos) == p
    ensures pos <= p && p + |pat| <= |s|
    ensures ScanReplace(s, pat, sub, pos)
            == s[pos..p] + (sub(p) + ScanReplace(s, pat, sub, p + |pat|))
  {
    ScanSkip(s, pat, sub, pos, p);
    ScanAt(s, pat, sub, p);
  }

  lemma AssembleStep(s: string, pat: string, sub: nat -> string, ps: seq<nat>, end: nat)
    requires |pat| > 0 && |ps| > 0 && Spaced(s, pat, ps, end)
    ensures end <= ps[0] && ps[0] + |pat| <= |s| && Spaced(s, pat, ps[1..], ps[0] + |pat|)
    ensures Assemble(s, pat, sub, ps, end)
            == s[end..ps[0]] + (sub(ps[0]) + Assemble(s, pat, sub, ps[1..], ps[0] + |pat|))
  {
  }

  lemma ScanAt(s: string, pat: string, sub: nat -> string, p: nat)
    requires |pat| > 0 && OccursAt(s, pat, p)
    ensures p + |pat| <= |s|
    ensures ScanReplace(s, pat, sub, p)
            == sub(p) + ScanReplace(s, pat, sub, p + |pat|)
  {
  }

  /** Up to `j`, when no occurrence starts in `[i, j)`, the scan copies
      the text. */
  lemma {:induction false} ScanSkip(s: string, pat: string, sub: nat -> string, i: nat, j: nat)
    requires |pat| > 0 && i <= j <= |s|
    requires StringIndexOf(s, pat, i) == -1 || j <= StringIndexOf(s, pat, i)
    ensures ScanReplace(s, pat, sub, i) == s[i..j] + ScanReplace(s, pat, sub, j)
    decreases j - i
  {
    if i < j {
      SkipOne(s, pat, sub, i, j);
      ScanSkip(s, pat, sub, i + 1, j);
      CopyOne(s, i, j, ScanReplace(s, pat, sub, j));
    }
  }

  /** Before the next occurrence the scan copies one character and the next
      occurrence is still ahead. */
  lemma SkipOne(s: string, pat: string, sub: nat -> string, i: nat, j: nat)
    requires |pat| > 0 && i < j <= |s|
    requires StringIndexOf(s, pat, i) == -1 || j <= StringIndexOf(s, pat, i)
    ensures StringIndexOf(s, pat, i + 1) == -1 || j <= StringIndexOf(s, pat, i + 1)
    ensures ScanReplace(s, pat, sub, i) == [s[i]] + ScanReplace(s, pat, sub, i + 1)
  {
    assert !OccursAt(s, pat, i);
  }

  lemma CopyOne(s: string, i: nat, j: nat, rest: string)
    requires i < j <= |s|
    ensures s[i..j] + rest == [s[i]] + (s[i + 1..j] + rest)
  {
    assert s[i..j] == [s[i]] + s[i + 1..j];
  }

  /** A template without `$` is inserted as it is. */
  lemma {:induction false} ExpandLiteral(t: string, before: string, matched: string, after: string)
    requires forall k :: 0 <= k < |t| ==> t[k] != '$'
    ensures Expand(t, before, matched, after) == t
  {
    if |t| > 0 {
      ExpandLiteral(t[1..], before, matched, after);
    }
  }

  /** Without an occurrence, `replaceAll` returns the text unchanged. */
  lemma ReplaceAllNoMatch(s: string, pat: string, template: string)
    ensures IndexOf(s, pat, 0) == -1 ==> ReplaceAll(s, pat, template) == s
  {
    StringIndexOfIsIndexOf(s, pat, 0);
    assert s[0..] == s;
  }

  /** Replacing each match by itself (`$&`) gives the text back. */
  lemma ReplaceAllByMatch(s: string, pat: string)
    requires |pat| > 0
    ensures ReplaceAll(s, pat, "$&") == s
  {
    ReplaceAllIsScan(s, pat, "$&");
    ScanByMatch(s, pat, 0);
  }

  lemma {:induction false} ScanByMatch(s: string, pat: string, i: nat)
    requires |pat| > 0 && i <= |s|
    ensures ScanReplace(s, pat, Replacements(s, pat, "$&"), i) == s[i..]
    decreases |s| - i
  {
    if i < |s| {
      if OccursAt(s, pat, i) {
        ScanByMatch(s, pat, i + |pat|);
        ScanAt(s, pat, Replacements(s, pat, "$&"), i);
        MatchAt(s, pat, i);
      } else {
        ScanByMatch(s, pat, i + 1);
        assert s[i..] == [s[i]] + s[i + 1..];
      }
    }
  }

  /** At an occurrence, `$&` stands for the occurrence itself. */
  lemma MatchAt(s: string, pat: string, i: nat)
    requires OccursAt(s, pat, i)
    ensures Replacements(s, pat, "$&")(i) == pat
    ensures s[i..] == pat + s[i + |pat|..]
  {
    OccursAtIff(s, pat, i);
  }

  /** Replacing a pattern without `$` by itself gives the text back. */
  lemma ReplaceAllBySelf(s: string, pat: string)
    requires |pat| > 0 && forall k :: 0 <= k < |pat| ==> pat[k] != '$'
    ensures ReplaceAll(s, pat, pat) == s
  {
    ReplaceAllIsScan(s, pat, pat);
    ScanBySelf(s, pat, 0);
  }

  lemma {:induction false} ScanBySelf(s: string, pat: string, i: nat)
    requires |pat| > 0 && i <= |s| && forall k :: 0 <= k < |pat| ==> pat[k] != '$'
    ensures ScanReplace(s, pat, Replacements(s, pat, pat), i) == s[i..]
    decreases |s| - i
  {
    if i < |s| {
      if OccursAt(s, pat, i) {
        ScanBySelf(s, pat, i + |pat|);
        ScanAt(s, pat, Replacements(s, pat, pat), i);
        SelfAt(s, pat, i);
      } else {
        ScanBySelf(s, pat, i + 1);
        assert s[i..] == [s[i]] + s[i + 1..];
      }
    }
  }

  /** At an occurrence, a pattern without `$` used as the template stands
      for the occurrence itself. */
  lemma SelfAt(s: string, pat: string, i: nat)
    requires OccursAt(s, pat, i) && forall k :: 0 <= k < |pat| ==> pat[k] != '$'
    ensures Replacements(s, pat, pat)(i) == pat
    ensures s[i..] == pat + s[i + |pat|..]
  {
    ExpandLiteral(pat, s[..i], pat, if i + |pat| >= |s| then "" else s[i + |pat|..]);
    OccursAtIff(s, pat, i);
  }

  // ---------------------------------------------------------------------
  // The "Replace all" button
  // ---------------------------------------------------------------------

  /** What the "Replace all" button reports. */
  datatype AllOutcome = AllIgnored | AllReplaced | NoOccurrence

  datatype AllResult = AllResult(outcome: AllOutcome, editor: Editor)

  /** "Replace all" as written: an empty search text does nothing; the
      buffer is assigned the result of `replaceAll` when that differs from
      it, and "no occurrence" is reported when it does not. */
  function ReplaceAllButton(ed: Editor, find: string, repl: string): (r: AllResult)
    requires ed.Valid()
    ensures r.editor.Valid()
    ensures find == "" ==> r == AllResult(AllIgnored, ed)
    ensures find != "" && IndexOf(ed.value, find, 0) == -1 ==> r == AllResult(NoOccurrence, ed)
    ensures r.outcome == AllReplaced ==>
              && r.editor.value == ReplaceAll(ed.value, find, repl) != ed.value
              && r.editor.selStart == r.editor.selEnd == |r.editor.value|
    ensures r.outcome == NoOccurrence ==> r.editor == ed
    ensures find != "" ==> (r.outcome == AllReplaced <==> ReplaceAll(ed.value, find, repl) != ed.value)
    ensures find != "" ==> r.outcome != AllIgnored && r.editor.value == ReplaceAll(ed.value, find, repl)
  {
    if find == "" then AllResult(AllIgnored, ed)
    else
      var newValue := ReplaceAll(ed.value, find, repl);
      if ed.value != newValue then AllResult(AllReplaced, SetValue(ed, newValue))
      else
        ReplaceAllNoMatch(ed.value, find, repl);
        AllResult(NoOccurrence, ed)
  }

  /** Replacing "a" by "a" in "ab": there is an occurrence, yet the button
      reports that there is none, because it compares the texts. */
  lemma SameTextReportsNoOccurrence()
    ensures IndexOf("ab", "a", 0) == 0
    ensures ReplaceAllButton(Editor("ab", 0, 0), "a", "a").outcome == NoOccurrence
    ensures ReplaceAllButtonFixed(Editor("ab", 0, 0), "a", "a").outcome == AllReplaced
  {
    assert OccursAt("ab", "a", 0);
    ReplaceAllBySelf("ab", "a");
  }

  /** "Replace all" reporting "no occurrence" exactly when the search text
      does not occur; the buffer is assigned the result of `replaceAll`. */
  function ReplaceAllButtonFixed(ed: Editor, find: string, repl: string): (r: AllResult)
    requires ed.Valid()
    ensures r.editor.Valid()
    ensures find == "" ==> r == AllResult(AllIgnored, ed)
    ensures find != "" ==> (r.outcome == NoOccurrence <==> IndexOf(ed.value, find, 0) == -1)
    ensures find != "" ==> r.editor.value == ReplaceAll(ed.value, find, repl)
    ensures r.outcome == NoOccurrence ==> r.editor == ed
  {
    if find == "" then AllResult(AllIgnored, ed)
    else if IndexOf(ed.value, find, 0) == -1 then
      ReplaceAllNoMatch(ed.value, find, repl);
      AllResult(NoOccurrence, ed)
    else AllResult(AllReplaced, SetValue(ed, ReplaceAll(ed.value, find, repl)))
  }

  // ---------------------------------------------------------------------
  // The "Replace" button
  // ---------------------------------------------------------------------

  /** What the "Replace" button does. */
  datatype StepOutcome = Ignored | Replaced | Found | EndOfDocument

  datatype StepResult = StepResult(outcome: StepOutcome, editor: Editor)

  /** "Replace": with an empty search text nothing happens. When the
      selection equals the search text under the case mapping `lower`, it
      is replaced and the replacement is selected. Otherwise the next
      occurrence at or after the end of the selection is selected, or, when
      there is none, the end of the document is reported and nothing
      changes. */
  function ReplaceStep(ed: Editor, find: string, repl: string, lower: string -> string): (r: StepResult)
    requires ed.Valid()
    ensures r.editor.Valid()
    ensures find == "" ==> r == StepResult(Ignored, ed)
    ensures r.outcome == Replaced ==>
              && find != "" && lower(ed.Selected()) == lower(find)
              && r.editor.selStart == ed.selStart
              && r.editor.Selected() == repl
              && r.editor.value == ed.value[..ed.selStart] + repl + ed.value[ed.selEnd..]
    ensures r.outcome == Found ==>
              && find != "" && lower(ed.Selected()) != lower(find)
              && r.editor.value == ed.value
              && ed.selEnd <= r.editor.selStart
              && r.editor.Selected() == find
              && forall j :: ed.selEnd <= j < r.editor.selStart ==> !OccursAt(ed.value, find, j)
    ensures r.outcome == EndOfDocument ==>
              && find != "" && lower(ed.Selected()) != lower(find)
              && r.editor == ed
              && forall j :: ed.selEnd <= j ==> !OccursAt(ed.value, find, j)
    ensures find != "" ==> r.outcome != Ignored
    ensures find != "" ==> (r.outcome == Replaced <==> lower(ed.Selected()) == lower(find))
    ensures r.outcome == EndOfDocument <==>
              find != "" && lower(ed.Selected()) != lower(find) && IndexOf(ed.value, find, ed.selEnd) == -1
    ensures r.outcome == Found ==> r.editor.selStart == IndexOf(ed.value, find, ed.selEnd)
  {
    if find == "" then StepResult(Ignored, ed)
    else if lower(ed.Selected()) == lower(find) then
      StepResult(Replaced, SetRangeText(ed, repl, ed.selStart, ed.selEnd))
    else
      var next := IndexOf(ed.value, find, ed.selEnd);
      if next != -1 then
        var moved := SetSelectionRange(ed, next, next + |find|);
        OccursAtIff(ed.value, find, next);
        assert moved.selStart == next && moved.selEnd == next + |find|;
        StepResult(Found, moved)
      else StepResult(EndOfDocument, ed)
  }

  /** After "Replace" has found an occurrence, pressing it again replaces
      that occurrence, whatever the case mapping. */
  lemma FoundThenReplaced(ed: Editor, find: string, repl: string, lower: string -> string)
    requires ed.Valid()
    ensures var first := ReplaceStep(ed, find, repl, lower);
            first.outcome == Found ==>
              var second := ReplaceStep(first.editor, find, repl, lower);
              var i := first.editor.selStart;
              && second.outcome == Replaced
              && i + |find| <= |ed.value|
              && second.editor.value == ed.value[..i] + repl + ed.value[i + |find|..]
  {
  }
}
