/** The part of the browser's textarea that the handlers rely on: its value,
    its selection, and the three ways a handler changes them (assigning
    `value`, `setRangeText(..., 'select')` and `setSelectionRange`), as the
    HTML standard defines them. */
module TextArea {

  /** The value of the textarea and its selection `[selStart, selEnd)`. */
  datatype Editor = Editor(value: string, selStart: nat, selEnd: nat) {

    /** The browser keeps the selection ordered and inside the value. */
    predicate Valid() {
      selStart <= selEnd <= |value|
    }

    /** The selected text. */
    function Selected(): string
      requires Valid()
    {
      value[selStart..selEnd]
    }
  }

  function Min(a: int, b: int): int {
    if a <= b then a else b
  }

  /** Assigning `value`: when the text changes, the caret moves to its end;
      assigning the text it already holds changes nothing. */
  function SetValue(ed: Editor, v: string): (r: Editor)
    requires ed.Valid()
    ensures r.Valid() && r.value == v
    ensures v == ed.value ==> r == ed
    ensures v != ed.value ==> r.selStart == r.selEnd == |v|
  {
    if v == ed.value then ed else Editor(v, |v|, |v|)
  }

  /** `setRangeText(text, start, end, 'select')`: `text` replaces
      `value[start..end]` and becomes the selection. */
  function SetRangeText(ed: Editor, text: string, start: nat, end: nat): (r: Editor)
    requires start <= end <= |ed.value|
    ensures r.Valid() && r.selStart == start && r.selEnd == start + |text|
    ensures r.Selected() == text
    ensures r.value[..start] == ed.value[..start]
    ensures r.value[start + |text|..] == ed.value[end..]
  {
    Editor(ed.value[..start] + text + ed.value[end..], start, start + |text|)
  }

  /** `setSelectionRange(a, b)`: both ends are clamped to the value, and an
      end at or before the start collapses the selection onto the end. */
  function SetSelectionRange(ed: Editor, a: nat, b: nat): (r: Editor)
    ensures r.Valid() && r.value == ed.value
    ensures a <= b && a <= |ed.value| ==> r.selStart == a && r.selEnd == Min(b, |ed.value|)
  {
    var hi := Min(b, |ed.value|);
    var lo := Min(a, |ed.value|);
    if hi <= lo then Editor(ed.value, hi, hi) else Editor(ed.value, lo, hi)
  }
}
