/** The editing shortcuts of the keyboard handler that rewrite the buffer:
    duplicate the selected lines (Ctrl+Shift+D), move them up or down
    (Alt+Shift+ArrowUp / ArrowDown) and upper-case the selection (Ctrl+U).
    Each is a function from the textarea's state to its new state; `None`
    is a handler that returns without touching the buffer. */
module LineOps {
  import opened Wrappers
  import opened Text
  import opened TextArea

  // ---------------------------------------------------------------------
  // Duplicate line(s)
  // ---------------------------------------------------------------------

  /** Ctrl+Shift+D: the lines the selection touches are inserted again
      right after the last of them, and the caret moves into the copy, to
      the place that corresponds to the old end of the selection. */
  function DuplicateLines(ed: Editor): (r: Editor)
    requires ed.Valid()
    ensures r.Valid()
    ensures var v := ed.value;
            var B, E := LineStart(v, ed.selStart), LineEnd(v, ed.selEnd);
            && B <= ed.selEnd <= E
            && r.value == v[..E] + [NL] + v[B..E] + v[E..]
            && r.selStart == r.selEnd == E + 1 + (ed.selEnd - B)
  {
    var v := ed.value;
    var lines := Split(v, NL);
    var startLine := LineOf(v, ed.selStart);
    var endLine := LineOf(v, ed.selEnd);
    DuplicatedText(v, ed.selStart, ed.selEnd, startLine, endLine);
    var duplicated := Join(lines[startLine..endLine + 1], NL);
    var newLines := lines[..endLine + 1] + [duplicated] + lines[endLine + 1..];
    var cursor := ed.selEnd + |duplicated| + 1;
    SetSelectionRange(SetValue(ed, Join(newLines, NL)), cursor, cursor)
  }

  lemma DuplicatedText(v: string, p: nat, q: nat, s: nat, e: nat)
    requires p <= q <= |v|
    requires s == Count(v[..p], NL) && e == Count(v[..q], NL)
    ensures s <= e < |Split(v, NL)| && LineStart(v, p) <= LineEnd(v, q)
    ensures Join(Split(v, NL)[s..e + 1], NL) == v[LineStart(v, p)..LineEnd(v, q)]
    ensures Join(Split(v, NL)[..e + 1] + [v[LineStart(v, p)..LineEnd(v, q)]] + Split(v, NL)[e + 1..], NL)
            == v[..LineEnd(v, q)] + [NL] + v[LineStart(v, p)..LineEnd(v, q)] + v[LineEnd(v, q)..]
  {
    BlockText(v, p, q);
    ThroughLine(v, q);
    AfterLine(v, q);
    InsertAfter(Split(v, NL)[..e + 1], v[LineStart(v, p)..LineEnd(v, q)], Split(v, NL)[e + 1..],
                v[..LineEnd(v, q)], v[LineEnd(v, q)..]);
  }

  /** Joining with an extra line `blk` after the lines `a`. */
  lemma InsertAfter(a: seq<string>, blk: string, c: seq<string>, pre: string, post: string)
    requires |a| >= 1 && Join(a, NL) == pre && Trailing(c, NL) == post
    ensures Join(a + [blk] + c, NL) == pre + [NL] + blk + post
  {
    JoinAround(a, [blk], c, NL);
  }

  /** Seen as lines, duplicating inserts a copy of lines `startLine` to
      `endLine` right after line `endLine`. */
  lemma DuplicateLinesCopiesBlock(ed: Editor)
    requires ed.Valid()
    ensures var v := ed.value;
            var lines := Split(v, NL);
            var s, e := LineOf(v, ed.selStart), LineOf(v, ed.selEnd);
            && s <= e < |lines|
            && Split(DuplicateLines(ed).value, NL) == lines[..e + 1] + lines[s..e + 1] + lines[e + 1..]
  {
    DuplicateSplit(ed.value, ed.selStart, ed.selEnd, LineOf(ed.value, ed.selStart), LineOf(ed.value, ed.selEnd));
  }

  /** After duplicating, the caret is on the copy of line `endLine`: the
      copied block starts at line `endLine + 1` and has
      `endLine - startLine + 1` lines. */
  lemma DuplicateCaretLine(ed: Editor)
    requires ed.Valid()
    ensures var v, r := ed.value, DuplicateLines(ed);
            var s, e := LineOf(v, ed.selStart), LineOf(v, ed.selEnd);
            LineOf(r.value, r.selEnd) == e + 1 + (e - s)
  {
    var v, ss, se := ed.value, ed.selStart, ed.selEnd;
    var r := DuplicateLines(ed);
    CaretCount(v, ss, se, LineStart(v, ss), LineEnd(v, se), r.value, r.selEnd);
  }

  /** The newlines before offset `c` of the duplicated text `x`: those up
      to the end of the block, the one before the copy, and those of the
      copy before the caret. */
  lemma CaretCount(v: string, ss: nat, se: nat, B: nat, E: nat, x: string, c: nat)
    requires B <= ss <= se <= E <= |v|
    requires forall i :: B <= i < ss ==> v[i] != NL
    requires forall i :: se <= i < E ==> v[i] != NL
    requires x == v[..E] + [NL] + v[B..E] + v[E..] && c == E + 1 + (se - B)
    ensures Count(x[..c], NL) == Count(v[..se], NL) + 1 + (Count(v[..se], NL) - Count(v[..ss], NL))
  {
    CopyPrefix(v[..E], v[B..E], v[E..], se - B);
    assert v[B..E][..se - B] == v[B..se];
    CountConcat(v[..E] + [NL], v[B..se], NL);
    CountConcat(v[..E], [NL], NL);
    CountAcross(v, se, E);
    CountAcross(v, B, ss);
    assert v[..se] == v[..B] + v[B..se];
    CountConcat(v[..B], v[B..se], NL);
  }

  /** The text up to `k` characters into a copy inserted after a newline. */
  lemma CopyPrefix(a: string, b: string, c: string, k: nat)
    requires k <= |b|
    ensures (a + [NL] + b + c)[..|a| + 1 + k] == a + [NL] + b[..k]
  {
  }

  /** The text with the block of lines from `p`'s to `q`'s inserted again
      after it, split into lines. */
  lemma DuplicateSplit(v: string, p: nat, q: nat, s: nat, e: nat)
    requires p <= q <= |v|
    requires s == Count(v[..p], NL) && e == Count(v[..q], NL)
    ensures s <= e < |Split(v, NL)| && LineStart(v, p) <= LineEnd(v, q)
    ensures Split(v[..LineEnd(v, q)] + [NL] + v[LineStart(v, p)..LineEnd(v, q)] + v[LineEnd(v, q)..], NL)
            == Split(v, NL)[..e + 1] + Split(v, NL)[s..e + 1] + Split(v, NL)[e + 1..]
  {
    DuplicatedText(v, p, q, s, e);
    SplitPiecesFree(v, NL);
    InsertCopy(Split(v, NL), s, e, v[LineStart(v, p)..LineEnd(v, q)],
               v[..LineEnd(v, q)] + [NL] + v[LineStart(v, p)..LineEnd(v, q)] + v[LineEnd(v, q)..]);
  }

  /** Inserting the block `blk` of lines `s..e`, joined, after line `e` of
      newline-free lines and splitting again gives the lines with the copy
      in place. */
  lemma InsertCopy(lines: seq<string>, s: nat, e: nat, blk: string, x: string)
    requires s <= e < |lines|
    requires FreeAll(lines, NL)
    requires Join(lines[s..e + 1], NL) == blk
    requires Join(lines[..e + 1] + [blk] + lines[e + 1..], NL) == x
    ensures Split(x, NL) == lines[..e + 1] + lines[s..e + 1] + lines[e + 1..]
  {
    JoinAround(lines[..e + 1], lines[s..e + 1], lines[e + 1..], NL);
    JoinAround(lines[..e + 1], [blk], lines[e + 1..], NL);
    FreeSlice(lines, NL, 0, e + 1);
    FreeSlice(lines, NL, s, e + 1);
    FreeSlice(lines, NL, e + 1, |lines|);
    FreeConcat(lines[..e + 1], lines[s..e + 1], NL);
    FreeConcat(lines[..e + 1] + lines[s..e + 1], lines[e + 1..], NL);
    SplitJoin(lines[..e + 1] + lines[s..e + 1] + lines[e + 1..], NL);
  }

  // ---------------------------------------------------------------------
  // Move line block up / down
  // ---------------------------------------------------------------------

  /** The line index the move handler takes for the end of the selection:
      the line holding `selEnd`, one less when `selEnd` directly follows a
      newline. */
  function EndLine(v: string, se: nat): int
    requires se <= |v|
  {
    var e := LineOf(v, se);
    if se > 0 && v[se - 1] == NL then e - 1 else e
  }

  /** The same correction, applied only to a selection that is not empty. */
  function EndLineFixed(v: string, ss: nat, se: nat): int
    requires ss <= se <= |v|
  {
    var e := LineOf(v, se);
    if se > ss && v[se - 1] == NL then e - 1 else e
  }

  /** An offset on the last line of the block a move takes. */
  function BlockLast(v: string, ss: nat, se: nat): (r: nat)
    requires ss <= se <= |v|
    ensures ss <= r <= se && Count(v[..r], NL) == EndLineFixed(v, ss, se)
  {
    if se > ss && v[se - 1] == NL then
      assert v[..se] == v[..se - 1] + [NL];
      CountConcat(v[..se - 1], [NL], NL);
      se - 1
    else se
  }

  /** An empty selection just after a newline: the caret at the start of a
      line other than the first. */
  predicate CaretAtLineStart(ed: Editor)
    requires ed.Valid()
  {
    ed.selStart == ed.selEnd > 0 && ed.value[ed.selEnd - 1] == NL
  }

  /** Where the handler for ArrowUp puts the new selection start: just after
      the last newline at or before offset `selStart - 2` of the text before
      the old selection start. */
  function UpCaret(ed: Editor): (r: nat)
    requires ed.Valid()
  {
    LastIndexOf(ed.value[..ed.selStart], [NL], ed.selStart - 2) + 1
  }

  /** Where the handler for ArrowDown puts the new selection start: just
      after the first newline at or after the old selection start. */
  function DownCaret(ed: Editor): (r: nat)
    requires ed.Valid()
  {
    IndexOf(ed.value, [NL], ed.selStart) + 1
  }

  /** The splice steps of the handler for ArrowUp: lines `s..e` are cut out
      and put back one place earlier, and the selection, keeping its length,
      is put at `UpCaret`. */
  function MoveBlockUp(ed: Editor, s: nat, e: int): (r: Option<Editor>)
    requires ed.Valid() && s <= e + 1 <= |Split(ed.value, NL)|
    ensures r.None? <==> s == 0
    ensures r.Some? ==>
              var lines := Split(ed.value, NL);
              && Split(r.value.value, NL) == LinesUp(lines, s, e)
              && r.value.Valid()
              && (UpCaret(ed) <= |r.value.value| ==>
                    && r.value.selStart == UpCaret(ed)
                    && r.value.selEnd == Min(UpCaret(ed) + (ed.selEnd - ed.selStart), |r.value.value|))
  {
    var v := ed.value;
    if s == 0 then None
    else
      var lines := Split(v, NL);
      var block := lines[s..e + 1];
      var rest := lines[..s] + lines[e + 1..];
      var newLines := rest[..s - 1] + block + rest[s - 1..];
      var newStart := UpCaret(ed);
      SpliceUp(lines, s, e);
      SplitPiecesFree(v, NL);
      FreeUp(lines, s, e);
      SplitJoin(newLines, NL);
      Some(SetSelectionRange(SetValue(ed, Join(newLines, NL)), newStart, newStart + (ed.selEnd - ed.selStart)))
  }

  /** The splice steps of the handler for ArrowDown: lines `s..e` are cut
      out and put back one place later, and the selection, keeping its
      length up to the end of the buffer, is put at `DownCaret`. */
  function MoveBlockDown(ed: Editor, s: nat, e: int): (r: Option<Editor>)
    requires ed.Valid() && s <= e + 1 <= |Split(ed.value, NL)|
    ensures r.None? <==> e >= |Split(ed.value, NL)| - 1
    ensures r.Some? ==>
              var lines := Split(ed.value, NL);
              && e + 1 < |lines|
              && Split(r.value.value, NL) == LinesDown(lines, s, e)
              && r.value.Valid()
              && (DownCaret(ed) <= |r.value.value| ==>
                    && r.value.selStart == DownCaret(ed)
                    && r.value.selEnd == Min(DownCaret(ed) + (ed.selEnd - ed.selStart), |r.value.value|))
  {
    var v := ed.value;
    var lines := Split(v, NL);
    if e >= |lines| - 1 then None
    else
      var block := lines[s..e + 1];
      var rest := lines[..s] + lines[e + 1..];
      var newLines := rest[..s + 1] + block + rest[s + 1..];
      var newStart := DownCaret(ed);
      SpliceDown(lines, s, e);
      SplitPiecesFree(v, NL);
      FreeDown(lines, s, e);
      SplitJoin(newLines, NL);
      Some(SetSelectionRange(SetValue(ed, Join(newLines, NL)), newStart, newStart + (ed.selEnd - ed.selStart)))
  }

  /** Lines `s..e` moved one place earlier, above line `s - 1`. */
  function LinesUp<T>(lines: seq<T>, s: nat, e: int): seq<T>
    requires 0 < s <= e + 1 <= |lines|
  {
    lines[..s - 1] + lines[s..e + 1] + [lines[s - 1]] + lines[e + 1..]
  }

  /** Lines `s..e` moved one place later, below line `e + 1`. */
  function LinesDown<T>(lines: seq<T>, s: nat, e: int): seq<T>
    requires s <= e + 1 < |lines|
  {
    lines[..s] + [lines[e + 1]] + lines[s..e + 1] + lines[e + 2..]
  }

  /** The text `v[B..E]`, which starts a line, exchanged with the line
      above it, which starts at `P`: the line above and its newline go
      after the block, which gains a newline of its own. */
  function TextUp(v: string, B: nat, E: nat): string
    requires 0 < B <= E <= |v|
  {
    var P := LineStart(v, B - 1);
    v[..P] + v[B..E] + [NL] + v[P..B - 1] + v[E..]
  }

  /** The text `v[B..E]`, which ends before a newline, exchanged with the
      line below it, which ends at `N`. */
  function TextDown(v: string, B: nat, E: nat): string
    requires B <= E < |v|
  {
    var N := LineEnd(v, E + 1);
    v[..B] + v[E + 1..N] + [NL] + v[B..E] + v[N..]
  }

  /** The two `splice` calls of ArrowUp, as one rearrangement. */
  lemma SpliceUp<T>(lines: seq<T>, s: nat, e: int)
    requires 0 < s <= e + 1 <= |lines|
    ensures var rest := lines[..s] + lines[e + 1..];
            rest[..s - 1] + lines[s..e + 1] + rest[s - 1..]
            == LinesUp(lines, s, e)
  {
    var rest := lines[..s] + lines[e + 1..];
    assert rest[..s - 1] == lines[..s - 1];
    assert rest[s - 1..] == [lines[s - 1]] + lines[e + 1..];
  }

  /** The two `splice` calls of ArrowDown, as one rearrangement. */
  lemma SpliceDown<T>(lines: seq<T>, s: nat, e: int)
    requires s <= e + 1 < |lines|
    ensures var rest := lines[..s] + lines[e + 1..];
            rest[..s + 1] + lines[s..e + 1] + rest[s + 1..]
            == LinesDown(lines, s, e)
  {
    var rest := lines[..s] + lines[e + 1..];
    assert rest[..s + 1] == lines[..s] + [lines[e + 1]];
    assert rest[s + 1..] == lines[e + 2..];
  }

  lemma FreeUp(lines: seq<string>, s: nat, e: int)
    requires 0 < s <= e + 1 <= |lines| && FreeAll(lines, NL)
    ensures FreeAll(LinesUp(lines, s, e), NL)
  {
    FreeSlice(lines, NL, 0, s - 1);
    FreeSlice(lines, NL, s, e + 1);
    FreeSlice(lines, NL, s - 1, s);
    FreeSlice(lines, NL, e + 1, |lines|);
    assert lines[s - 1..s] == [lines[s - 1]];
    FreeConcat(lines[..s - 1], lines[s..e + 1], NL);
    FreeConcat(lines[..s - 1] + lines[s..e + 1], [lines[s - 1]], NL);
    FreeConcat(lines[..s - 1] + lines[s..e + 1] + [lines[s - 1]], lines[e + 1..], NL);
  }

  lemma FreeDown(lines: seq<string>, s: nat, e: int)
    requires s <= e + 1 < |lines| && FreeAll(lines, NL)
    ensures FreeAll(LinesDown(lines, s, e), NL)
  {
    FreeSlice(lines, NL, 0, s);
    FreeSlice(lines, NL, e + 1, e + 2);
    FreeSlice(lines, NL, s, e + 1);
    FreeSlice(lines, NL, e + 2, |lines|);
    assert lines[e + 1..e + 2] == [lines[e + 1]];
    FreeConcat(lines[..s], [lines[e + 1]], NL);
    FreeConcat(lines[..s] + [lines[e + 1]], lines[s..e + 1], NL);
    FreeConcat(lines[..s] + [lines[e + 1]] + lines[s..e + 1], lines[e + 2..], NL);
  }

  /** Exchanging two adjacent parts keeps the multiset of elements. */
  lemma SwapKeepsMultiset<T>(a: seq<T>, m: seq<T>, x: seq<T>, c: seq<T>)
    ensures multiset(a + m + x + c) == multiset(a + x + m + c)
  {
    calc {
      multiset(a + m + x + c);
      multiset(a) + multiset(m) + multiset(x) + multiset(c);
      multiset(a + x + m + c);
    }
  }

  /** A move keeps the buffer's lines: the same number, the same multiset. */
  lemma MovePreservesLines(ed: Editor, s: nat, e: int)
    requires ed.Valid() && s <= e + 1 <= |Split(ed.value, NL)|
    ensures var lines := Split(ed.value, NL);
            var up, down := MoveBlockUp(ed, s, e), MoveBlockDown(ed, s, e);
            && (up.Some? ==> multiset(Split(up.value.value, NL)) == multiset(lines)
                             && |Split(up.value.value, NL)| == |lines|)
            && (down.Some? ==> multiset(Split(down.value.value, NL)) == multiset(lines)
                               && |Split(down.value.value, NL)| == |lines|)
  {
    if s > 0 {
      LinesUpKeeps(Split(ed.value, NL), s, e);
    }
    if e + 1 < |Split(ed.value, NL)| {
      LinesDownKeeps(Split(ed.value, NL), s, e);
    }
  }

  lemma LinesUpKeeps<T>(lines: seq<T>, s: nat, e: int)
    requires 0 < s <= e + 1 <= |lines|
    ensures multiset(LinesUp(lines, s, e)) == multiset(lines) && |LinesUp(lines, s, e)| == |lines|
  {
    assert lines == lines[..s - 1] + [lines[s - 1]] + lines[s..e + 1] + lines[e + 1..];
    SwapKeepsMultiset(lines[..s - 1], lines[s..e + 1], [lines[s - 1]], lines[e + 1..]);
  }

  lemma LinesDownKeeps<T>(lines: seq<T>, s: nat, e: int)
    requires s <= e + 1 < |lines|
    ensures multiset(LinesDown(lines, s, e)) == multiset(lines) && |LinesDown(lines, s, e)| == |lines|
  {
    assert lines == lines[..s] + lines[s..e + 1] + [lines[e + 1]] + lines[e + 2..];
    SwapKeepsMultiset(lines[..s], [lines[e + 1]], lines[s..e + 1], lines[e + 2..]);
  }

  /** Moving an empty block leaves the lines as they are. */
  lemma EmptyMoves<T>(lines: seq<T>, s: nat)
    ensures 0 < s <= |lines| ==> LinesUp(lines, s, s - 1) == lines
    ensures s < |lines| ==> LinesDown(lines, s, s - 1) == lines
  {
    if 0 < s <= |lines| {
      assert lines == lines[..s - 1] + [lines[s - 1]] + lines[s..];
    }
    if s < |lines| {
      assert lines == lines[..s] + [lines[s]] + lines[s + 1..];
    }
  }

  /** Two buffers with the same lines are the same buffer. */
  lemma SameLines(x: string, y: string)
    requires Split(x, NL) == Split(y, NL)
    ensures x == y
  {
    JoinSplit(x, NL);
    JoinSplit(y, NL);
  }

  /** A caret just after a newline: the corrected end line falls on the line
      above, and that line exists. */
  lemma CaretEndLine(ed: Editor)
    requires ed.Valid() && CaretAtLineStart(ed)
    ensures var v, s := ed.value, LineOf(ed.value, ed.selStart);
            0 < s < |Split(v, NL)| && EndLine(v, ed.selEnd) == s - 1
  {
    CountStep(ed.value, ed.selEnd - 1, NL);
    MoveBounds(ed.value, ed.selStart, ed.selEnd);
  }

  /** Alt+Shift+ArrowUp, corrected so that an empty selection at the start
      of a line moves that line: the lines from the one holding `selStart`
      to the last line of the selection change places with the line above
      (see `MovedUp`). A selection that starts on the first line leaves the
      buffer alone. */
  function MoveUpFixed(ed: Editor): (r: Option<Editor>)
    requires ed.Valid()
    ensures r.None? <==> LineStart(ed.value, ed.selStart) == 0
    ensures r.Some? ==> MovedUp(ed, r.value)
  {
    var v, ss, se := ed.value, ed.selStart, ed.selEnd;
    MoveBounds(v, ss, se);
    FirstLine(v, ss);
    var r := MoveBlockUp(ed, LineOf(v, ss), EndLineFixed(v, ss, se));
    if r.Some? then UpResult(ed, r.value); r else r
  }

  /** `moved` is `ed` after the lines from `B`, the start of the line
      holding `selStart`, to `E`, the end of the last line of the
      selection, have changed places with the line above, which starts at
      `P`. When `selStart >= 2`, the new selection starts where the moved
      lines now begin if it started at a line start, and at the old start of
      its line otherwise; it keeps its length. */
  predicate MovedUp(ed: Editor, moved: Editor)
    requires ed.Valid() && LineStart(ed.value, ed.selStart) > 0
  {
    var v, ss, se := ed.value, ed.selStart, ed.selEnd;
    var B := LineStart(v, ss);
    var E := LineEnd(v, BlockLast(v, ss, se));
    && moved.value == TextUp(v, B, E)
    && (ss >= 2 ==>
          && moved.selStart == (if B < ss then B else LineStart(v, B - 1))
          && moved.selEnd == moved.selStart + (se - ss))
  }

  /** The buffer and selection that the splice steps of ArrowUp leave. */
  lemma UpResult(ed: Editor, moved: Editor)
    requires ed.Valid() && moved.Valid()
    requires var v, ss, se := ed.value, ed.selStart, ed.selEnd;
             var lines := Split(v, NL);
             var s, e := LineOf(v, ss), EndLineFixed(v, ss, se);
             && 0 < s <= e < |lines|
             && Split(moved.value, NL) == LinesUp(lines, s, e)
             && (UpCaret(ed) <= |moved.value| ==>
                   && moved.selStart == UpCaret(ed)
                   && moved.selEnd == Min(UpCaret(ed) + (se - ss), |moved.value|))
    ensures LineStart(ed.value, ed.selStart) > 0 && MovedUp(ed, moved)
  {
    UpValue(ed.value, ed.selStart, ed.selEnd, moved.value);
    if ed.selStart >= 2 {
      UpCaretAt(ed);
    }
  }

  /** The buffer that the splice steps of ArrowUp leave, in terms of the
      old buffer's offsets. */
  lemma UpValue(v: string, ss: nat, se: nat, x: string)
    requires ss <= se <= |v|
    requires var lines := Split(v, NL);
             var s, e := LineOf(v, ss), EndLineFixed(v, ss, se);
             && 0 < s <= e < |lines|
             && Split(x, NL) == LinesUp(lines, s, e)
    ensures var B, E := LineStart(v, ss), LineEnd(v, BlockLast(v, ss, se));
            0 < B <= E && x == TextUp(v, B, E)
    ensures |x| == |v|
  {
    FirstLine(v, ss);
    UpAt(v, ss, BlockLast(v, ss, se), LineOf(v, ss), EndLineFixed(v, ss, se), x);
  }

  /** `UpText` read back through the lines of the new buffer `x`. */
  lemma UpAt(v: string, p: nat, q: nat, s: nat, e: nat, x: string)
    requires p <= q <= |v| && LineStart(v, p) > 0
    requires s == Count(v[..p], NL) && e == Count(v[..q], NL)
    requires var lines := Split(v, NL);
             && 0 < s <= e < |lines|
             && Split(x, NL) == LinesUp(lines, s, e)
    ensures var B, E := LineStart(v, p), LineEnd(v, q);
            0 < B <= E && x == TextUp(v, B, E)
    ensures |x| == |v|
  {
    UpText(v, p, q, s, e);
    JoinSplit(x, NL);
  }

  /** A later offset lies on the same line or a later one. */
  lemma LineEndMono(v: string, p: nat, q: nat)
    requires p <= q <= |v|
    ensures LineEnd(v, p) <= LineEnd(v, q)
  {
  }

  lemma MoveBounds(v: string, ss: nat, se: nat)
    requires ss <= se <= |v|
    ensures LineOf(v, ss) <= EndLineFixed(v, ss, se) < |Split(v, NL)|
    ensures LineOf(v, ss) <= EndLine(v, se) + 1
    ensures EndLine(v, se) < |Split(v, NL)|
  {
    CountMono(v, ss, BlockLast(v, ss, se));
    CountMono(v, BlockLast(v, ss, se), |v|);
    assert v[..|v|] == v;
    CountMono(v, ss, se);
    CountMono(v, se, |v|);
    if se > 0 && v[se - 1] == NL {
      assert v[..se] == v[..se - 1] + [NL];
      CountConcat(v[..se - 1], [NL], NL);
      CountMono(v, se - 1, |v|);
      if ss < se {
        CountMono(v, ss, se - 1);
      }
    }
  }

  /** The pieces of the buffer that ArrowUp rearranges when it moves the
      lines from the one holding `p` to the one holding `q`: the line above
      the block, the text before it, the block and the text after it. */
  lemma UpPieces(v: string, p: nat, q: nat, s: nat, e: nat)
    requires p <= q <= |v| && LineStart(v, p) > 0
    requires s == Count(v[..p], NL) && e == Count(v[..q], NL)
    ensures 0 < s <= e < |Split(v, NL)| && 0 < LineStart(v, p) <= LineEnd(v, q)
    ensures Split(v, NL)[s - 1] == v[LineStart(v, LineStart(v, p) - 1)..LineStart(v, p) - 1]
    ensures v[..LineStart(v, LineStart(v, p) - 1)] == Leading(Split(v, NL)[..s - 1], NL)
    ensures Join(Split(v, NL)[s..e + 1], NL) == v[LineStart(v, p)..LineEnd(v, q)]
    ensures v[LineEnd(v, q)..] == Trailing(Split(v, NL)[e + 1..], NL)
  {
    CountAcross(v, LineStart(v, p), p);
    PrevLine(v, LineStart(v, p), Count(v[..p], NL));
    BlockText(v, p, q);
    AfterLine(v, q);
  }

  /** ArrowUp's new text, in terms of the buffer's offsets, for the lines
      `s` to `e` holding offsets `p` and `q`. */
  lemma UpText(v: string, p: nat, q: nat, s: nat, e: nat)
    requires p <= q <= |v| && LineStart(v, p) > 0
    requires s == Count(v[..p], NL) && e == Count(v[..q], NL)
    ensures var lines := Split(v, NL);
            var B, E := LineStart(v, p), LineEnd(v, q);
            && 0 < s <= e < |lines| && 0 < B <= E
            && Join(LinesUp(lines, s, e), NL) == TextUp(v, B, E)
  {
    UpPieces(v, p, q, s, e);
    UpJoin(Split(v, NL), s, e, v, LineStart(v, p), LineEnd(v, q));
  }

  /** Lines `s..e` moved above line `s - 1`, joined, for a buffer whose
      pieces are those lines. */
  lemma UpJoin(lines: seq<string>, s: nat, e: nat, v: string, B: nat, E: nat)
    requires 0 < s <= e < |lines| && 0 < B <= E <= |v|
    requires lines[s - 1] == v[LineStart(v, B - 1)..B - 1]
    requires v[..LineStart(v, B - 1)] == Leading(lines[..s - 1], NL)
    requires Join(lines[s..e + 1], NL) == v[B..E]
    requires v[E..] == Trailing(lines[e + 1..], NL)
    ensures Join(LinesUp(lines, s, e), NL) == TextUp(v, B, E)
  {
    BlockAbove(lines[..s - 1], lines[s..e + 1], lines[s - 1], lines[e + 1..],
               v[..LineStart(v, B - 1)], v[B..E], v[LineStart(v, B - 1)..B - 1], v[E..]);
  }

  /** Joining lines with a block `m` moved above line `x`. */
  lemma BlockAbove(a: seq<string>, m: seq<string>, x: string, c: seq<string>, pre: string, blk: string, mid: string, post: string)
    requires |m| >= 1 && Leading(a, NL) == pre && Join(m, NL) == blk && x == mid && Trailing(c, NL) == post
    ensures Join(a + m + [x] + c, NL) == pre + blk + [NL] + mid + post
  {
    var mx := m + [x];
    Middle(a, m, [x], c);
    JoinConcat(m, [x], NL);
    JoinAround(a, mx, c, NL);
    Regroup(pre, blk, [NL], x, post);
  }

  /** Regrouping the middle pieces of a list of lines. */
  lemma Middle(a: seq<string>, x: seq<string>, y: seq<string>, c: seq<string>)
    ensures a + x + y + c == a + (x + y) + c
  {
  }

  lemma Regroup(p: string, x: string, y: string, z: string, q: string)
    ensures p + (x + y + z) + q == p + x + y + z + q
  {
  }

  /** Joining lines with line `x` moved above a block `m`. */
  lemma LineAbove(a: seq<string>, x: string, m: seq<string>, c: seq<string>, pre: string, mid: string, blk: string, post: string)
    requires |m| >= 1 && Leading(a, NL) == pre && x == mid && Join(m, NL) == blk && Trailing(c, NL) == post
    ensures Join(a + [x] + m + c, NL) == pre + mid + [NL] + blk + post
  {
    var xm := [x] + m;
    Middle(a, [x], m, c);
    JoinConcat([x], m, NL);
    JoinAround(a, xm, c, NL);
    Regroup(pre, x, [NL], blk, post);
  }

  /** For `selStart >= 2`, `UpCaret` is the start of the moved lines when the
      selection starts a line, and the old start of its line otherwise. */
  lemma UpCaretAt(ed: Editor)
    requires ed.Valid() && ed.selStart >= 2 && LineStart(ed.value, ed.selStart) > 0
    ensures var v, ss := ed.value, ed.selStart;
            var B := LineStart(v, ss);
            UpCaret(ed) == if B < ss then B else LineStart(v, B - 1)
  {
    var v, ss := ed.value, ed.selStart;
    var B := LineStart(v, ss);
    var t := if B < ss then B else LineStart(v, B - 1);
    LastNewlineBefore(v, ss, t);
  }

  /** `lastIndexOf('\n', ss - 2)` in `v[..ss]`, plus one, is the offset
      `t` when the newline-free stretch `[t, ss - 1)` follows a newline or
      the start of the buffer. */
  lemma LastNewlineBefore(v: string, ss: nat, t: nat)
    requires 2 <= ss <= |v| && t <= ss - 1
    requires t == 0 || v[t - 1] == NL
    requires forall i :: t <= i < ss - 1 ==> v[i] != NL
    ensures LastIndexOf(v[..ss], [NL], ss - 2) + 1 == t
  {
    var w := v[..ss];
    var r := LastIndexOf(w, [NL], ss - 2);
    assert Clamp(ss - 2, |w|) == ss - 2;
    if t > 0 {
      OccursNL(w, t - 1);
      assert OccursAt(w, [NL], t - 1);
    }
    if r != -1 {
      OccursNL(w, r);
      assert w[r] == NL;
    }
    if r + 1 != t {
      if r + 1 < t {
        OccursNL(w, t - 1);
      }
    }
  }

  /** `indexOf('\n', p)` finds the newline that ends the line holding `p`. */
  lemma FirstNewlineFrom(v: string, p: nat)
    requires p <= |v| && LineEnd(v, p) < |v|
    ensures IndexOf(v, [NL], p) == LineEnd(v, p)
  {
    var E := LineEnd(v, p);
    var r := IndexOf(v, [NL], p);
    OccursNL(v, E);
    if r != -1 {
      OccursNL(v, r);
    }
  }

  /** Alt+Shift+ArrowDown, corrected like `MoveUpFixed`: the lines from the
      one holding `selStart` to the last line of the selection change places
      with the line below (see `MovedDown`); a selection whose last line is
      the buffer's last line leaves the buffer alone. */
  function MoveDownFixed(ed: Editor): (r: Option<Editor>)
    requires ed.Valid()
    ensures r.None? <==> LineEnd(ed.value, BlockLast(ed.value, ed.selStart, ed.selEnd)) == |ed.value|
    ensures r.Some? ==> MovedDown(ed, r.value)
  {
    var v, ss, se := ed.value, ed.selStart, ed.selEnd;
    MoveBounds(v, ss, se);
    MoveDownGuard(v, ss, se);
    var r := MoveBlockDown(ed, LineOf(v, ss), EndLineFixed(v, ss, se));
    if r.Some? then DownResult(ed, r.value); r else r
  }

  /** `moved` is `ed` after the lines from `B`, the start of the line
      holding `selStart`, to `E`, the end of the last line of the
      selection, have changed places with the line below, which ends at `N`.
      The new selection starts just after the newline that ended the line
      holding `selStart`, and keeps its length up to the end of the buffer. */
  predicate MovedDown(ed: Editor, moved: Editor)
    requires ed.Valid() && LineEnd(ed.value, BlockLast(ed.value, ed.selStart, ed.selEnd)) < |ed.value|
  {
    var v, ss, se := ed.value, ed.selStart, ed.selEnd;
    var B := LineStart(v, ss);
    var E := LineEnd(v, BlockLast(v, ss, se));
    && moved.value == TextDown(v, B, E)
    && moved.selStart == LineEnd(v, ss) + 1
    && moved.selEnd == Min(moved.selStart + (se - ss), |v|)
  }

  /** The buffer and selection that the splice steps of ArrowDown leave. */
  lemma DownResult(ed: Editor, moved: Editor)
    requires ed.Valid() && moved.Valid()
    requires var v, ss, se := ed.value, ed.selStart, ed.selEnd;
             var lines := Split(v, NL);
             var s, e := LineOf(v, ss), EndLineFixed(v, ss, se);
             && s <= e && e + 1 < |lines|
             && Split(moved.value, NL) == LinesDown(lines, s, e)
             && (DownCaret(ed) <= |moved.value| ==>
                   && moved.selStart == DownCaret(ed)
                   && moved.selEnd == Min(DownCaret(ed) + (se - ss), |moved.value|))
    ensures LineEnd(ed.value, BlockLast(ed.value, ed.selStart, ed.selEnd)) < |ed.value|
    ensures MovedDown(ed, moved)
  {
    BelowLast(ed.value, ed.selStart, ed.selEnd);
    DownValue(ed.value, ed.selStart, ed.selEnd, moved.value);
    DownSelection(ed, moved);
  }

  /** The selection ArrowDown leaves, given that the buffer keeps its length. */
  lemma DownSelection(ed: Editor, moved: Editor)
    requires ed.Valid() && |moved.value| == |ed.value|
    requires LineEnd(ed.value, BlockLast(ed.value, ed.selStart, ed.selEnd)) < |ed.value|
    requires DownCaret(ed) <= |moved.value| ==>
               && moved.selStart == DownCaret(ed)
               && moved.selEnd == Min(DownCaret(ed) + (ed.selEnd - ed.selStart), |moved.value|)
    ensures moved.selStart == LineEnd(ed.value, ed.selStart) + 1
    ensures moved.selEnd == Min(moved.selStart + (ed.selEnd - ed.selStart), |ed.value|)
  {
    LineEndMono(ed.value, ed.selStart, BlockLast(ed.value, ed.selStart, ed.selEnd));
    DownCaretAt(ed);
  }

  /** The buffer that the splice steps of ArrowDown leave, in terms of the
      old buffer's offsets. */
  lemma DownValue(v: string, ss: nat, se: nat, x: string)
    requires ss <= se <= |v| && LineEnd(v, BlockLast(v, ss, se)) < |v|
    requires var lines := Split(v, NL);
             var s, e := LineOf(v, ss), EndLineFixed(v, ss, se);
             && s <= e && e + 1 < |lines|
             && Split(x, NL) == LinesDown(lines, s, e)
    ensures var B, E := LineStart(v, ss), LineEnd(v, BlockLast(v, ss, se));
            B <= E < |v| && x == TextDown(v, B, E)
    ensures |x| == |v|
  {
    DownAt(v, ss, BlockLast(v, ss, se), LineOf(v, ss), EndLineFixed(v, ss, se), x);
  }

  /** `DownText` read back through the lines of the new buffer `x`. */
  lemma DownAt(v: string, p: nat, q: nat, s: nat, e: nat, x: string)
    requires p <= q <= |v| && LineEnd(v, q) < |v|
    requires s == Count(v[..p], NL) && e == Count(v[..q], NL)
    requires var lines := Split(v, NL);
             && s <= e && e + 1 < |lines|
             && Split(x, NL) == LinesDown(lines, s, e)
    ensures var B, E := LineStart(v, p), LineEnd(v, q);
            B <= E < |v| && x == TextDown(v, B, E)
    ensures |x| == |v|
  {
    DownText(v, p, q, s, e);
    JoinSplit(x, NL);
  }

  /** A block that ends before the last line ends in a newline. */
  lemma BelowLast(v: string, ss: nat, se: nat)
    requires ss <= se <= |v| && EndLineFixed(v, ss, se) + 1 < |Split(v, NL)|
    ensures LineEnd(v, BlockLast(v, ss, se)) < |v|
  {
    MoveDownGuard(v, ss, se);
  }

  lemma MoveDownGuard(v: string, ss: nat, se: nat)
    requires ss <= se <= |v|
    ensures EndLineFixed(v, ss, se) >= |Split(v, NL)| - 1 <==> LineEnd(v, BlockLast(v, ss, se)) == |v|
  {
    LineAt(v, BlockLast(v, ss, se));
    MoveBounds(v, ss, se);
  }

  /** The pieces of the buffer before the line below the block that
      ArrowDown moves, when it moves the lines from the one holding `p` to
      the one holding `q`: the text before the block and the block, which
      ends in a newline. */
  lemma DownPieces(v: string, p: nat, q: nat, s: nat, e: nat)
    requires p <= q <= |v| && LineEnd(v, q) < |v|
    requires s == Count(v[..p], NL) && e == Count(v[..q], NL)
    ensures s <= e < |Split(v, NL)| && LineStart(v, p) <= LineEnd(v, q) < |v|
    ensures v[LineEnd(v, q)] == NL && Count(v[..LineEnd(v, q) + 1], NL) == e + 1
    ensures v[..LineStart(v, p)] == Leading(Split(v, NL)[..s], NL)
    ensures Join(Split(v, NL)[s..e + 1], NL) == v[LineStart(v, p)..LineEnd(v, q)]
  {
    CountAcross(v, q, LineEnd(v, q));
    CountStep(v, LineEnd(v, q), NL);
    BeforeLine(v, p);
    BlockText(v, p, q);
  }

  /** ArrowDown's new text, in terms of the buffer's offsets, for the lines
      `s` to `e` holding offsets `p` and `q`. */
  lemma DownText(v: string, p: nat, q: nat, s: nat, e: nat)
    requires p <= q <= |v| && LineEnd(v, q) < |v|
    requires s == Count(v[..p], NL) && e == Count(v[..q], NL)
    ensures var lines := Split(v, NL);
            var B, E := LineStart(v, p), LineEnd(v, q);
            && s <= e && e + 1 < |lines| && B <= E < |v|
            && Join(LinesDown(lines, s, e), NL) == TextDown(v, B, E)
  {
    DownParts(v, p, q, s, e);
    var lines, B, E := Split(v, NL), LineStart(v, p), LineEnd(v, q);
    DownJoin(lines, s, e, v, B, E);
    DownJoin(lines, s, e, v, B, E);
  }

  /** The pieces `DownJoin` puts together: those of `DownPieces` and the
      line below the block with the text after it. */
  lemma DownParts(v: string, p: nat, q: nat, s: nat, e: nat)
    requires p <= q <= |v| && LineEnd(v, q) < |v|
    requires s == Count(v[..p], NL) && e == Count(v[..q], NL)
    ensures DownShape(Split(v, NL), s, e, v, LineStart(v, p), LineEnd(v, q))
  {
    DownPieces(v, p, q, s, e);
    NextLine(v, LineEnd(v, q), e + 1);
  }

  /** The buffer `v` is made of the lines `lines`, with lines `s..e`
      filling the offsets `B` to `E` and line `e + 1` following them. */
  ghost predicate DownShape(lines: seq<string>, s: nat, e: nat, v: string, B: nat, E: nat)
  {
    && s <= e && e + 1 < |lines| && B <= E < |v| && E < LineEnd(v, E + 1)
    && v[..B] == Leading(lines[..s], NL)
    && Join(lines[s..e + 1], NL) == v[B..E]
    && lines[e + 1] == v[E + 1..LineEnd(v, E + 1)]
    && v[LineEnd(v, E + 1)..] == Trailing(lines[e + 2..], NL)
  }

  /** Lines `s..e` moved below line `e + 1`, joined, for a buffer whose
      pieces are those lines. */
  lemma DownJoin(lines: seq<string>, s: nat, e: nat, v: string, B: nat, E: nat)
    requires DownShape(lines, s, e, v, B, E)
    ensures Join(LinesDown(lines, s, e), NL) == TextDown(v, B, E)
  {
    LineAbove(lines[..s], lines[e + 1], lines[s..e + 1], lines[e + 2..],
              v[..B], v[E + 1..LineEnd(v, E + 1)], v[B..E], v[LineEnd(v, E + 1)..]);
  }

  /** `DownCaret` is just after the newline that ends the line holding
      `selStart`, whenever that line is not the last one. */
  lemma DownCaretAt(ed: Editor)
    requires ed.Valid() && LineEnd(ed.value, ed.selStart) < |ed.value|
    ensures DownCaret(ed) == LineEnd(ed.value, ed.selStart) + 1
  {
    FirstNewlineFrom(ed.value, ed.selStart);
  }

  /** Alt+Shift+ArrowUp as written. It agrees with `MoveUpFixed` except for
      a caret at the start of a line: there the end line is corrected below
      the start line, the block to move is empty, and the buffer keeps its
      text while the caret still jumps. */
  function MoveUp(ed: Editor): (r: Option<Editor>)
    requires ed.Valid()
    ensures r.None? <==> LineStart(ed.value, ed.selStart) == 0
    ensures !CaretAtLineStart(ed) ==> r == MoveUpFixed(ed)
    ensures CaretAtLineStart(ed) && r.Some? ==> r.value.value == ed.value
  {
    var v := ed.value;
    MoveBounds(v, ed.selStart, ed.selEnd);
    FirstLine(v, ed.selStart);
    var r := MoveBlockUp(ed, LineOf(v, ed.selStart), EndLine(v, ed.selEnd));
    if r.Some? && CaretAtLineStart(ed) then EmptyBlockUp(ed); r else r
  }

  lemma EmptyBlockUp(ed: Editor)
    requires ed.Valid() && CaretAtLineStart(ed)
    ensures var v := ed.value;
            var s := LineOf(v, ed.selStart);
            && EndLine(v, ed.selEnd) == s - 1
            && s <= |Split(v, NL)|
            && var r := MoveBlockUp(ed, s, s - 1);
            && (r.Some? ==> r.value.value == v)
  {
    CaretEndLine(ed);
    EmptyMoves(Split(ed.value, NL), LineOf(ed.value, ed.selStart));
    if MoveBlockUp(ed, LineOf(ed.value, ed.selStart), LineOf(ed.value, ed.selStart) - 1).Some? {
      SameLines(MoveBlockUp(ed, LineOf(ed.value, ed.selStart), LineOf(ed.value, ed.selStart) - 1).value.value, ed.value);
    }
  }

  /** Alt+Shift+ArrowDown as written: like `MoveUp`, it agrees with
      `MoveDownFixed` except for a caret at the start of a line, where the
      buffer keeps its text. */
  function MoveDown(ed: Editor): (r: Option<Editor>)
    requires ed.Valid()
    ensures !CaretAtLineStart(ed) ==> r == MoveDownFixed(ed)
    ensures CaretAtLineStart(ed) ==> r.Some? && r.value.value == ed.value
  {
    var v := ed.value;
    MoveBounds(v, ed.selStart, ed.selEnd);
    var r := MoveBlockDown(ed, LineOf(v, ed.selStart), EndLine(v, ed.selEnd));
    if CaretAtLineStart(ed) then EmptyBlockDown(ed); r else r
  }

  lemma EmptyBlockDown(ed: Editor)
    requires ed.Valid() && CaretAtLineStart(ed)
    ensures var v := ed.value;
            var s := LineOf(v, ed.selStart);
            && EndLine(v, ed.selEnd) == s - 1
            && s <= |Split(v, NL)|
            && var r := MoveBlockDown(ed, s, s - 1);
            && r.Some? && r.value.value == v
  {
    CaretEndLine(ed);
    EmptyMoves(Split(ed.value, NL), LineOf(ed.value, ed.selStart));
    SameLines(MoveBlockDown(ed, LineOf(ed.value, ed.selStart), LineOf(ed.value, ed.selStart) - 1).value.value, ed.value);
  }

  /** The caret at the start of the second line of "a\nb": as written,
      Alt+Shift+ArrowUp leaves the text as it is and only moves the caret to
      offset 0; the corrected handler moves line "b" above line "a". */
  lemma CaretAtLineStartDoesNotMove()
    ensures MoveUp(Editor("a\nb", 2, 2)) == Some(Editor("a\nb", 0, 0))
    ensures MoveUpFixed(Editor("a\nb", 2, 2)) == Some(Editor("b\na", 0, 0))
  {
    var ed := Editor("a\nb", 2, 2);
    var v := ed.value;
    assert LineStart(v, 2) == 2;
    assert LineStart(v, 1) == 0;
    assert LineEnd(v, 2) == 3;
    assert BlockLast(v, 2, 2) == 2;
    var r := MoveUpFixed(ed);
    assert r.Some?;
    assert v[..0] + v[2..3] + [NL] + v[0..1] + v[3..] == "b\na";
    assert r.value.selStart == 0;
    assert MoveUp(ed).value.value == v;
    assert v[..2] == "a\n";
    assert LastIndexOf(v[..2], [NL], 0) == -1 by {
      LastNewlineBefore(v, 2, 0);
    }
  }

  // ---------------------------------------------------------------------
  // Upper-case the selection
  // ---------------------------------------------------------------------

  /** Ctrl+U: the selected text is replaced by its upper-case form, which
      becomes the new selection; an empty selection makes the handler
      return. `upper` is `String.prototype.toUpperCase`, which may change the
      length of the text. */
  function UpperCaseSelection(ed: Editor, upper: string -> string): (r: Option<Editor>)
    requires ed.Valid()
    ensures r.None? <==> ed.selStart == ed.selEnd
    ensures r.Some? ==>
              && r.value.Valid()
              && r.value.selStart == ed.selStart
              && r.value.Selected() == upper(ed.Selected())
              && r.value.value[..ed.selStart] == ed.value[..ed.selStart]
              && r.value.value[r.value.selEnd..] == ed.value[ed.selEnd..]
  {
    if ed.selStart == ed.selEnd then None
    else Some(SetRangeText(ed, upper(ed.Selected()), ed.selStart, ed.selEnd))
  }

  /** A case mapping that is idempotent on its own results. */
  ghost predicate Idempotent(f: string -> string)
  {
    forall x :: f(f(x)) == f(x)
  }

  /** With an idempotent `upper`, pressing Ctrl+U a second time changes
      nothing: either the new selection is empty and the handler returns,
      or it rewrites the selection to itself. */
  lemma UpperCaseTwice(ed: Editor, upper: string -> string)
    requires ed.Valid() && Idempotent(upper)
    ensures var once := UpperCaseSelection(ed, upper);
            once.Some? ==>
              var twice := UpperCaseSelection(once.value, upper);
              twice.None? || twice == once
  {
    var once := UpperCaseSelection(ed, upper);
    if once.Some? {
      var e1 := once.value;
      var u := e1.Selected();
      assert upper(u) == u;
      assert e1.value[..e1.selStart] + u + e1.value[e1.selEnd..] == e1.value;
    }
  }
}
