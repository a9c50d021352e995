/** Dispatching the editing shortcuts. `handleKeyboardShortcuts` is
    registered for `keydown` both on the textarea and on the document, and
    a key pressed in the textarea reaches both, so each shortcut runs twice
    in a row. */
module Shortcuts {
  import opened Wrappers
  import opened Text
  import opened TextArea
  import opened LineOps

  datatype Key = CtrlU | CtrlShiftD | AltShiftUp | AltShiftDown

  /** One run of the handler for `key`: the new textarea state, or `None`
      when the handler returns without changing anything. */
  function Handle(ed: Editor, key: Key, upper: string -> string): (r: Option<Editor>)
    requires ed.Valid()
    ensures r.Some? ==> r.value.Valid()
    ensures key == CtrlShiftD ==> r == Some(DuplicateLines(ed))
    ensures key == CtrlU ==> r == UpperCaseSelection(ed, upper)
    ensures key == AltShiftUp ==> r == MoveUp(ed)
    ensures key == AltShiftDown ==> r == MoveDown(ed)
  {
    match key
    case CtrlU => UpperCaseSelection(ed, upper)
    case CtrlShiftD => Some(DuplicateLines(ed))
    case AltShiftUp => MoveUp(ed)
    case AltShiftDown => MoveDown(ed)
  }

  /** The state after one run of the handler. */
  function Apply(ed: Editor, key: Key, upper: string -> string): (r: Editor)
    requires ed.Valid()
    ensures r.Valid()
    ensures Handle(ed, key, upper).None? ==> r == ed
    ensures Handle(ed, key, upper).Some? ==> r == Handle(ed, key, upper).value
  {
    Handle(ed, key, upper).GetOr(ed)
  }

  /** A key press in the textarea as written: the textarea's listener runs
      the handler, then the document's listener runs it again on the
      result. A handler that returns early does so twice. Ctrl+Shift+D
      first copies the touched lines `startLine..endLine` and leaves the
      caret on the copy of line `endLine`, so the second run copies that
      one line again: the block ends up twice, followed by a third copy of
      line `endLine`, which holds the caret. */
  function KeyPress(ed: Editor, key: Key, upper: string -> string): (r: Editor)
    requires ed.Valid()
    ensures r.Valid() && r == Apply(Apply(ed, key, upper), key, upper)
    ensures Handle(ed, key, upper).None? ==> r == ed
    ensures key == CtrlShiftD ==>
              var lines := Split(ed.value, NL);
              var s, e := LineOf(ed.value, ed.selStart), LineOf(ed.value, ed.selEnd);
              && s <= e < |lines|
              && Split(r.value, NL) == lines[..e + 1] + lines[s..e + 1] + [lines[e]] + lines[e + 1..]
              && r.selStart == r.selEnd
              && LineOf(r.value, r.selEnd) == e + 1 + (e - s) + 1
  {
    DuplicateTwice(ed);
    Apply(Apply(ed, key, upper), key, upper)
  }

  /** Ctrl+Shift+D run twice, seen as lines. */
  lemma DuplicateTwice(ed: Editor)
    requires ed.Valid()
    ensures var lines := Split(ed.value, NL);
            var s, e := LineOf(ed.value, ed.selStart), LineOf(ed.value, ed.selEnd);
            var r := DuplicateLines(DuplicateLines(ed));
            && s <= e < |lines|
            && Split(r.value, NL) == lines[..e + 1] + lines[s..e + 1] + [lines[e]] + lines[e + 1..]
            && r.selStart == r.selEnd
            && LineOf(r.value, r.selEnd) == e + 1 + (e - s) + 1
  {
    var lines := Split(ed.value, NL);
    var s, e := LineOf(ed.value, ed.selStart), LineOf(ed.value, ed.selEnd);
    var once := DuplicateLines(ed);
    DuplicateLinesCopiesBlock(ed);
    DuplicateCaretLine(ed);
    var l1, k := Split(once.value, NL), LineOf(once.value, once.selEnd);
    assert l1 == lines[..e + 1] + lines[s..e + 1] + lines[e + 1..];
    assert k == e + 1 + (e - s);
    DuplicateLineAgain(once);
    var l2 := Split(DuplicateLines(once).value, NL);
    assert l2 == l1[..k + 1] + l1[k..k + 1] + l1[k + 1..];
    LastCopiedAgain(lines, s, e, l1, l2, k);
  }

  /** Ctrl+Shift+D with a caret and no selection copies the caret's line. */
  lemma DuplicateLineAgain(ed: Editor)
    requires ed.Valid() && ed.selStart == ed.selEnd
    ensures var lines, k := Split(ed.value, NL), LineOf(ed.value, ed.selEnd);
            && k < |lines|
            && Split(DuplicateLines(ed).value, NL) == lines[..k + 1] + lines[k..k + 1] + lines[k + 1..]
            && LineOf(DuplicateLines(ed).value, DuplicateLines(ed).selEnd) == k + 1
  {
    DuplicateLinesCopiesBlock(ed);
    DuplicateCaretLine(ed);
  }

  /** Copying line `k`, the copy of line `e` that ends the inserted block,
      once more right after it. */
  lemma LastCopiedAgain<T>(lines: seq<T>, s: nat, e: nat, l1: seq<T>, l2: seq<T>, k: nat)
    requires s <= e < |lines| && k == e + 1 + (e - s)
    requires l1 == lines[..e + 1] + lines[s..e + 1] + lines[e + 1..]
    requires l2 == l1[..k + 1] + l1[k..k + 1] + l1[k + 1..]
    ensures l2 == lines[..e + 1] + lines[s..e + 1] + [lines[e]] + lines[e + 1..]
  {
    assert l1[..k + 1] == lines[..e + 1] + lines[s..e + 1];
    assert l1[k] == lines[e];
    assert l1[k + 1..] == lines[e + 1..];
  }

  /** A key press as evidently intended: the handler runs once, and
      Ctrl+Shift+D inserts one copy of the touched lines right after them,
      with the caret on the copy of line `endLine`. */
  function KeyPressFixed(ed: Editor, key: Key, upper: string -> string): (r: Editor)
    requires ed.Valid()
    ensures r.Valid() && r == Apply(ed, key, upper)
    ensures Handle(ed, key, upper).None? ==> r == ed
    ensures key == CtrlShiftD ==>
              var lines := Split(ed.value, NL);
              var s, e := LineOf(ed.value, ed.selStart), LineOf(ed.value, ed.selEnd);
              && s <= e < |lines|
              && Split(r.value, NL) == lines[..e + 1] + lines[s..e + 1] + lines[e + 1..]
              && r.selStart == r.selEnd
              && LineOf(r.value, r.selEnd) == e + 1 + (e - s)
  {
    DuplicateLinesCopiesBlock(ed);
    DuplicateCaretLine(ed);
    Apply(ed, key, upper)
  }

  /** Running the handler twice is harmless for Ctrl+U when the case
      mapping is idempotent. */
  lemma UpperCaseKeyOnce(ed: Editor, upper: string -> string)
    requires ed.Valid() && Idempotent(upper)
    ensures KeyPress(ed, CtrlU, upper) == KeyPressFixed(ed, CtrlU, upper)
  {
    UpperCaseTwice(ed, upper);
  }

  /** Ctrl+Shift+D with the caret in the one-line text "a": as written the
      line ends up three times, as intended twice. */
  lemma DuplicateKeyTriples(upper: string -> string)
    ensures KeyPress(Editor("a", 0, 0), CtrlShiftD, upper).value == "a\na\na"
    ensures KeyPressFixed(Editor("a", 0, 0), CtrlShiftD, upper).value == "a\na"
  {
    FirstCopy();
    SecondCopy();
  }

  lemma FirstCopy()
    ensures DuplicateLines(Editor("a", 0, 0)) == Editor("a\na", 2, 2)
  {
    assert LineStart("a", 0) == 0;
    assert LineEnd("a", 0) == 1;
  }

  lemma SecondCopy()
    ensures DuplicateLines(Editor("a\na", 2, 2)).value == "a\na\na"
  {
    assert LineStart("a\na", 2) == 2 by {
      assert "a\na"[1] == NL;
    }
    assert LineEnd("a\na", 2) == 3;
    assert "a\na"[..3] + [NL] + "a\na"[2..3] + "a\na"[3..] == "a\na\na";
  }
}
