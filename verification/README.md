# editor-texto in Dafny

A model of the browser text editor in `src/script.js`. The editor keeps
several documents in an IndexedDB object store. It lists them in a
selector, most recently updated first, and autosaves the open one 1.5 s
after the last edit. It offers editing shortcuts, a find-and-replace
dialog, a status bar with word and character counts, and a
"download as .txt" button.

The model has two parts.

* **The text transforms**, as pure functions on the textarea's state (`TextArea.Editor`: value, selection start, selection end):
  * duplicate lines (Ctrl+Shift+D);
  * move lines up or down (Alt+Shift+ArrowUp / ArrowDown);
  * upper-case the selection (Ctrl+U);
  * the "Replace" and "Replace all" buttons, with `String.prototype.replaceAll` for a string pattern as the ECMAScript Language Specification defines it, with its abstract operations `StringIndexOf` and `GetSubstitution`;
  * the status bar counts;
  * the download file name.
* **The session**, as a state machine over `Session.Session`:
  * the store;
  * `currentDocId` and the remembered `lastDocId`;
  * the buffer;
  * the flags `editorReady` and `isSaving`;
  * whether a save timeout is pending;
  * which save is in flight.

  `loadDocumentsList`, `switchDocument`, `createNewDocument`, `deleteCurrentDocument` and `debounceSave` are functions on it. The save timer firing and the save finishing are separate events.

Modules:

* `Wrappers`: `Option`.
* `Text`: `split` and `join` on one character, line geometry, `indexOf` and `lastIndexOf`.
* `TextArea`: assigning `value`, `setRangeText(..., 'select')` and `setSelectionRange`, as the HTML standard defines them.
* `LineOps`: the editing shortcuts.
* `FindReplace`: the find-and-replace dialog.
* `StatusBar`: the counts.
* `Export`: the file name.
* `Documents`: records, the sort, the captions and the chosen entry.
* `Session`: the session.
* `Shortcuts`: the key dispatch.

An edit made while a save is running arms no new save, because `debounceSave` returns early (src/script.js:164; `Session.EditDuringSaveArmsNothing`). A replacement made in the find-and-replace dialog arms none either, because the dialog's buttons fire no `input` event and do not call `debounceSave` (src/script.js:279, 297; `Session.DialogEditNotSaved`).

## Model

| member | source | states |
|---|---|---|
| Text.Split | src/script.js:349 | `value.split('\n')` yields one piece more than there are newlines |
| Text.SplitPiecesFree | src/script.js:349 | no piece of a split holds the separator |
| Text.JoinSplit | src/script.js:349-357 | joining the pieces of a split gives back the text |
| Text.SplitJoin | src/script.js:356-357 | splitting the join of separator-free pieces gives back the pieces |
| Text.SplitAtSep | src/script.js:349 | splitting at a separator splits both sides independently |
| Text.LineOf | src/script.js:350-351 | `value.substring(0, p).split('\n').length - 1` is the number of newlines before `p` |
| Text.LineStart | src/script.js:350 | the start of the line holding `p`: at or before `p`, after a newline or at 0, with no newline in between |
| Text.LineEnd | src/script.js:351 | the end of the line holding `p`: at or after `p`, at a newline or at the end, with no newline in between |
| Text.LineAt | src/script.js:349-351 | line number `LineOf(v, p)` of the split is exactly the text between `LineStart` and `LineEnd` of `p`, and the lines before and after it are the text before and after it |
| Text.BlockText | src/script.js:353-354 | the lines from the one holding `p` to the one holding `q`, joined, are the text from `p`'s line start to `q`'s line end |
| Text.OccursAtIff | src/script.js:281 | the character-wise occurrence test agrees with comparing the slice of the text against the pattern |
| Text.IndexOf | src/script.js:281 | `indexOf(pat, from)` is -1 or an occurrence at or after the clamped `from`, and no occurrence lies before it |
| Text.LastIndexOf | src/script.js:385 | `lastIndexOf(pat, from)` is -1 or an occurrence at or before the clamped `from`, and no occurrence lies after it |
| TextArea.SetValue | src/script.js:358 | assigning a new value puts the caret at its end; assigning the same value changes nothing |
| TextArea.SetRangeText | src/script.js:279 | `setRangeText(t, a, b, 'select')` replaces `value[a..b]` by `t`, keeps the rest and selects `t` |
| TextArea.SetSelectionRange | src/script.js:283 | `setSelectionRange(a, b)` keeps the value and selects `[a, min(b, length)]` for ordered in-range ends |
| LineOps.DuplicateLines | src/script.js:346-363 | the text becomes `v[..E] + "\n" + v[B..E] + v[E..]`, where `B` is the first touched line's start and `E` the last one's end; the caret lands in the copy at the old selection end's place |
| LineOps.DuplicateLinesCopiesBlock | src/script.js:349-357 | as lines, the copy of lines `startLine..endLine` is inserted right after `endLine` and the rest is untouched |
| LineOps.DuplicateCaretLine | src/script.js:360-361 | the new caret lies on line `endLine + 1 + (endLine - startLine)`, the copy of line `endLine` |
| LineOps.MoveBlockUp | src/script.js:379-386 | the two `splice` calls move lines `s..e` above line `s - 1`, and nothing happens at line 0; the new selection starts at `lastIndexOf('\n', selStart - 2) + 1` |
| LineOps.MoveBlockDown | src/script.js:388-395 | the two `splice` calls move lines `s..e` below line `e + 1`, and nothing happens when `e` is the last line; the new selection starts at `indexOf('\n', selStart) + 1` |
| LineOps.MovePreservesLines | src/script.js:381-392 | a move keeps the number of lines and their multiset |
| LineOps.LinesUpKeeps | src/script.js:381-382 | moving lines up is a permutation of the lines |
| LineOps.LinesDownKeeps | src/script.js:390-391 | moving lines down is a permutation of the lines |
| LineOps.EmptyMoves | src/script.js:381-382 | moving an empty block leaves the lines as they are |
| LineOps.SameLines | src/script.js:383 | two buffers with the same lines are the same buffer |
| LineOps.MoveDownGuard | src/script.js:389 | `endLine >= lines.length - 1` holds exactly when the block's last line ends the buffer |
| LineOps.UpCaretAt | src/script.js:385 | for `selStart >= 2`, the new start is the start of the line moved into, or the old line start |
| LineOps.LastNewlineBefore | src/script.js:385 | `lastIndexOf('\n', ss - 2) + 1` is the offset after the last newline before `ss - 1` |
| LineOps.FirstNewlineFrom | src/script.js:394 | `indexOf('\n', p)` is the end of `p`'s line |
| LineOps.DownCaretAt | src/script.js:394 | the new selection start is just past the end of the start's line |
| LineOps.MoveUp | src/script.js:367-386 | Alt+Shift+ArrowUp as written: nothing happens on the first line; it agrees with `MoveUpFixed` except for a caret at a line start, where the text is unchanged |
| LineOps.MoveDown | src/script.js:367-395 | Alt+Shift+ArrowDown as written: it agrees with `MoveDownFixed` except for a caret at a line start, where the text is unchanged |
| LineOps.EmptyBlockUp | src/script.js:374-382 | for a caret at a line start, the end-line correction gives `endLine = startLine - 1`, so the block is empty and the text stays |
| LineOps.EmptyBlockDown | src/script.js:374-392 | the same for ArrowDown |
| LineOps.CaretAtLineStartDoesNotMove | src/script.js:374-386 | on `"a\nb"` with the caret at 2, as written the text stays `"a\nb"`; corrected it becomes `"b\na"` |
| LineOps.MoveUpFixed | src/script.js:367-386 | the corrected move up exchanges the block of touched lines with the line above, and nothing happens on the first line |
| LineOps.MoveDownFixed | src/script.js:367-395 | the corrected move down exchanges the block with the line below, and nothing happens when the block reaches the end; the new selection starts at `LineEnd(v, selStart) + 1`, an offset of the old text, and keeps its length, cut at the end of the text |
| LineOps.UpperCaseSelection | src/script.js:333-340 | nothing happens for an empty selection; otherwise the selection is replaced by its upper-case form, stays selected, and the text around it is kept |
| LineOps.UpperCaseTwice | src/script.js:333-340 | with an idempotent case mapping, pressing Ctrl+U again changes nothing |
| FindReplace.StringIndexOf | src/script.js:295 | the abstract `StringIndexOf` returns -1 or an occurrence at or after `from` |
| FindReplace.StringIndexOfFirst | src/script.js:295 | no occurrence lies between `from` and the position found |
| FindReplace.StringIndexOfIsIndexOf | src/script.js:281-295 | inside the text, `StringIndexOf` and `indexOf` agree |
| FindReplace.MatchesSpaced | src/script.js:295 | the positions `replaceAll` collects are occurrences, in increasing order, that do not overlap |
| FindReplace.ReplaceAllIsScan | src/script.js:295 | for a non-empty pattern, `replaceAll` equals the left-to-right scan that replaces each occurrence and skips past it |
| FindReplace.ExpandLiteral | src/script.js:295 | a replacement text without `$` is inserted as it is |
| FindReplace.ReplaceAllNoMatch | src/script.js:295-296 | without an occurrence, `replaceAll` returns the text unchanged |
| FindReplace.ReplaceAllByMatch | src/script.js:295 | replacing every occurrence by `$&` gives the text back |
| FindReplace.ReplaceAllBySelf | src/script.js:295-296 | replacing a pattern without `$` by itself gives the text back |
| FindReplace.ReplaceAllButton | src/script.js:290-302 | "Replace all" as written: it ignores an empty search text; without an occurrence it reports so and changes nothing; for a non-empty search text the value is always `replaceAll`'s result, and the outcome is "replaced" exactly when that result differs from the old text |
| FindReplace.SameTextReportsNoOccurrence | src/script.js:295-300 | on `"ab"`, replacing `"a"` by `"a"` reports no occurrence although one exists; the corrected button reports a replacement |
| FindReplace.ReplaceAllButtonFixed | src/script.js:290-302 | corrected: it reports no occurrence exactly when the search text does not occur |
| FindReplace.ReplaceStep | src/script.js:273-289 | "Replace" ignores an empty search text. A selection equal to it (up to the case mapping) is replaced and the replacement selected. Otherwise the next occurrence after the selection is selected, with none before it, or the end of the document is reported when there is none. A non-empty search text is never ignored; it replaces exactly when the selection matches, and reports the end exactly when `indexOf(find, selectionEnd)` is -1 |
| FindReplace.FoundThenReplaced | src/script.js:277-283 | after "Replace" has selected an occurrence, pressing it again replaces exactly that occurrence |
| StatusBar.TrimStart | src/script.js:187 | `trim` drops a leading run of white space and nothing more |
| StatusBar.TrimEnd | src/script.js:187 | `trim` drops a trailing run of white space and nothing more |
| StatusBar.SplitSpace | src/script.js:187 | `split(/\s+/)` gives at least one piece, none holding white space |
| StatusBar.NonEmpty | src/script.js:187 | `filter(Boolean)` keeps only non-empty strings |
| StatusBar.CharCount | src/script.js:186 | the character count is the buffer's length |
| StatusBar.WordCountIsRuns | src/script.js:187 | the word count equals the number of maximal runs of non-white-space characters |
| StatusBar.NoWordsIffBlank | src/script.js:187 | the word count is 0 exactly when the text is empty or all white space |
| StatusBar.SplitCountsRuns | src/script.js:187 | the non-empty pieces of the split are as many as the runs |
| Export.OptionText | src/script.js:200 | an option's `text` is the caption's words (maximal runs of characters other than ASCII white space, kept in order) joined by single spaces; it has no white space at the ends and no double spaces |
| Export.SplitAscii | src/script.js:200 | the caption cut at every ASCII white-space character; no piece holds white space, and the first piece is empty exactly when the caption is empty or starts with white space |
| Export.SquashIsWords | src/script.js:200 | the stripping and collapsing leaves the caption's words joined by single spaces |
| Export.OptionTextIdempotent | src/script.js:200 | reading an option's text from its own text gives the same text |
| Export.Sanitize | src/script.js:200 | the sanitised title has the same length, only `[a-z0-9_]`, each letter or digit lower-cased in place and `_` for any other character |
| Export.SanitizeFixedIff | src/script.js:200 | sanitising leaves a text unchanged exactly when it is made of `[a-z0-9_]` |
| Export.SanitizeIdempotent | src/script.js:200 | sanitising twice is sanitising once |
| Export.FileName | src/script.js:198-202 | the name is `documento.txt` when nothing is selected, else the sanitised option text plus `.txt` |
| Export.FileNameStable | src/script.js:198-202 | exporting under an already produced name's base gives the same name |
| Documents.SortByRecency | src/script.js:99 | the sort yields the same records, by non-increasing `updatedAt`, a missing one counting as 0 |
| Documents.SortStable | src/script.js:99 | records with equal keys keep their order |
| Documents.FirstIsMostRecent | src/script.js:99 | the first entry is a most recently updated record |
| Documents.SortedLists | src/script.js:98-99 | the sorted list still lists exactly the store's records |
| Documents.EmptyListing | src/script.js:98-101 | an empty listing comes only from an empty store |
| Documents.Caption | src/script.js:108 | the caption is the title, or `Documento ` and the id's first four characters when the title is empty |
| Documents.Chosen | src/script.js:111-114 | the chosen entry is the remembered id when it is listed, else the first entry |
| Documents.ChosenIsLastOrMostRecent | src/script.js:97-115 | the entry opened after a rebuild is in the store and is the remembered one or a most recent one |
| Session.Switch | src/script.js:118-131 | switching to the open id does nothing; otherwise the id is opened and remembered, and the buffer gets its content, or is empty when there is no record |
| Session.SwitchIdempotent | src/script.js:119 | switching twice to the same id is switching once |
| Session.SwitchThrough | src/script.js:118-131 | after switching through `a` to `b`, the buffer holds `b`'s stored content |
| Session.SwitchRemembers | src/script.js:120-121 | the remembered id stays the open one |
| Session.NewRecord | src/script.js:137-143 | a new record has the fresh id, the given title and empty content |
| Session.Show | src/script.js:105-115 | the rebuilt list opens the chosen entry, which is a stored record |
| Session.Create | src/script.js:134-149 | a cancelled or empty answer changes nothing; otherwise the new record is added, opened and remembered, with an empty buffer |
| Session.LoadList | src/script.js:97-116 | an empty store asks for a first document; otherwise the store is unchanged and the chosen entry of the sorted list is opened: the remembered `lastDocId` when it is listed, else the most recent record. With nothing open before, that record is remembered and the buffer gets its content |
| Session.EmptyStoreCreatesFirst | src/script.js:101-103 | loading an empty store with the prompt answered leaves one record, open and empty |
| Session.Delete | src/script.js:151-160 | without an open document or without confirmation nothing happens; otherwise the open record is removed and nothing is open. When other records remain, the list is rebuilt and its chosen entry is opened and remembered, with its content in the buffer; when none remain, the first-document prompt follows as on an empty store. The deleted id is gone from the store unless the fresh id of the new first document is that same id |
| Session.DeleteOpensMostRecent | src/script.js:151-158 | after a delete the most recently updated remaining record is opened |
| Session.Initial | src/script.js:91-94 | at load time nothing is open, the editor is not ready and no save is pending |
| Session.Start | src/script.js:403-410 | after start-up the editor is ready and nothing is saving. When the store was not empty, the store is unchanged and the chosen record is open and remembered: `lastDocId` from local storage when it is listed, else the most recent record. The buffer holds its content |
| Session.DebounceSave | src/script.js:162-165 | after `debounceSave` a timer is pending exactly when the editor is ready and no save runs; nothing else changes |
| Session.DebounceSaveIdempotent | src/script.js:162-165 | calling `debounceSave` twice in a row is calling it once |
| Session.Typed | src/script.js:250-253 | typing sets the buffer and debounces the save only when the editor is ready; nothing but the buffer and the timer changes |
| Session.ShortcutEdit | src/script.js:341 | an editing shortcut sets the buffer and debounces the save; nothing but the buffer and the timer changes |
| Session.DialogEdit | src/script.js:279-297 | a dialog button sets the buffer and leaves the store, the open and remembered documents and the autosave flags alone |
| Session.DialogEditNotSaved | src/script.js:279-297 | with no save pending, a dialog replacement followed by opening another document leaves the store as it was |
| Session.SaveKey | src/script.js:311-316 | Ctrl+S is exactly a call of `debounceSave`; it does not save at once |
| Session.Fire | src/script.js:166-172 | when the timer fires with no open document nothing is written; otherwise a save of the open document starts. Only the timer, `isSaving` and the save in flight change |
| Session.Saved | src/script.js:174-175 | the written record gets the buffer as content and the save time as `updatedAt`, and keeps id, title and creation time |
| Session.SaveComplete | src/script.js:172-179 | a successful save writes the record if it exists and clears `isSaving`; a failed save writes nothing and leaves `isSaving` set. Only the store, `isSaving` and the save in flight change |
| Session.FailureSticks | src/script.js:171-179 | a failed save leaves `isSaving` set with no save running |
| Session.StuckForever | src/script.js:164 | once stuck, no sequence of edits, Ctrl+S, switches or saves arms a timer or changes the store |
| Session.SaveCompleteFixed | src/script.js:171-179 | corrected: `isSaving` is cleared whether or not the save succeeded; a failed save changes nothing else but ending the save in flight |
| Session.FixedRecovers | src/script.js:164-171 | with the correction, an edit after a failed save arms a new save |
| Session.EditDuringSaveArmsNothing | src/script.js:164 | an edit, shortcut or Ctrl+S during a save arms no timer |
| Session.PendingEditLost | src/script.js:118-131 | typing into `a` and switching to `b` before the timeout loses the typed text |
| Session.SwitchFixed | src/script.js:118-124 | corrected: a pending save of the open document is written before the switch and the timer is cleared; no other record changes and the save flags stay. Then the id is opened and remembered, and the buffer gets its stored content, or is empty |
| Session.PendingEditKept | src/script.js:118-124 | with the correction, the typed text is stored in `a` |
| Shortcuts.Handle | src/script.js:305-399 | the handler dispatches Ctrl+U to upper-casing, Ctrl+Shift+D to duplicating and Alt+Shift+ArrowUp/ArrowDown to the moves, and the result is a valid textarea state |
| Shortcuts.Apply | src/script.js:305-399 | a handler that returns early leaves the textarea as it was |
| Shortcuts.KeyPress | src/script.js:257 | a key in the textarea runs the handler twice. A handler that returns early changes nothing. Ctrl+Shift+D on lines `s..e` gives the lines `[..e+1] + [s..e+1] + [e] + [e+1..]`, a third copy of line `e` that holds the caret |
| Shortcuts.KeyPressFixed | src/script.js:303 | the handler runs once: Ctrl+Shift+D gives the lines `[..e+1] + [s..e+1] + [e+1..]`, with the caret on the copy of line `e` |
| Shortcuts.UpperCaseKeyOnce | src/script.js:333-340 | for Ctrl+U with an idempotent case mapping, the double dispatch is harmless |
| Shortcuts.DuplicateKeyTriples | src/script.js:346-363 | Ctrl+Shift+D on `"a"` gives `"a\na\na"` as written and `"a\na"` once corrected |

## Left out

* IndexedDB plumbing is not modelled, apart from what the session needs (src/script.js:1-70, js/db.js): opening the database, the upgrade handler and request callbacks. Reading every record is an input listing each record once, in any order, because the enumeration order is the store's.
* The store operations are assumed to succeed, except in the autosave, where a failure matters because of `isSaving`.
* Asynchronous interleavings are not modelled, apart from the autosave. Each handler runs to completion in one step. The autosave's timer firing and its save finishing are separate events.
* Session.SaveComplete: the value written is the buffer when the save finishes. The code reads `editor.value` after `getDoc` resolves, which may be slightly earlier.
* Theme, ruler, modals, icons, the scroll listener and focus are not modelled: they are DOM presentation. So are the texts and timings of `showMessage`, the save-status texts, and the "Carregando..." text and disabled editor shown while a document loads.
* Ctrl+N and Ctrl+F are not modelled: they only open a prompt or a dialog. The double dispatch of Ctrl+N (two prompts) follows the same pattern as `Shortcuts.KeyPress`.
* The clock, `crypto.randomUUID`, `prompt`, `confirm` and `localStorage` are parameters or fields, not effects.
* `toUpperCase` and `toLowerCase` on arbitrary text are a parameter, because Unicode case mapping is a table outside the model. `Export.LowerCase` only needs ASCII.
* A Dafny `char` stands for one UTF-16 code unit. Text with characters outside the Basic Multilingual Plane, which take two code units, is not modelled.
* LineOps.MoveUpFixed: the selection is stated only for `selStart >= 2`. For `selStart` below 2, `lastIndexOf('\n', -1)` looks at offset 0, and the caret lands one place off when the first line is empty. The model computes that caret as written but states no property about it.
* FindReplace.ReplaceAllIsScan: stated for non-empty patterns only. The button never calls `replaceAll` with an empty one (src/script.js:293).
* FindReplace.Replacements gives the template itself for a position past the end of the text. No match starts there, so this never reaches the result.

## Findings

| source | as written | input that shows it | evidently intended | confidence | as-written member | corrected member |
|---|---|---|---|---|---|---|
| src/script.js:374-377 | the end-line correction also applies to an empty selection, so a caret at the start of a line makes the block empty and Alt+Shift+Arrow does not move the line, although the caret jumps | `"a\nb"`, caret at 2, Alt+Shift+ArrowUp: text stays `"a\nb"`, caret goes to 0 | apply the correction only to a non-empty selection, so the caret's line moves: `"b\na"` | not executed | LineOps.MoveUp, LineOps.MoveDown, LineOps.CaretAtLineStartDoesNotMove | LineOps.MoveUpFixed, LineOps.MoveDownFixed |
| src/script.js:171-179 | `isSaving` is reset only after a successful read and write; a rejected `getDoc` or `saveDoc` leaves it set, and every later `debounceSave` returns at once | a save whose `saveDoc` rejects; afterwards, typing never arms a save again | reset `isSaving` whatever the outcome | not executed | Session.SaveComplete, Session.FailureSticks, Session.StuckForever | Session.SaveCompleteFixed, Session.FixedRecovers |
| src/script.js:118-131 | switching documents neither cancels nor flushes the pending timeout; it fires for the new document after the buffer was reloaded, so text typed into the old one in the last 1.5 s is never stored | type into `a`, open `b` within 1.5 s, let the timeout fire: `a` keeps its old content | save the pending edit of the open document before switching | not executed | Session.Switch, Session.PendingEditLost | Session.SwitchFixed, Session.PendingEditKept |
| src/script.js:295-301 | "Replace all" decides between "replaced" and "no occurrence" by comparing the old text with the new, so replacing a text by itself reports that nothing was found | `"ab"`, search `"a"`, replace with `"a"`: reports no occurrence | report "no occurrence" only when the search text does not occur | not executed | FindReplace.ReplaceAllButton, FindReplace.SameTextReportsNoOccurrence | FindReplace.ReplaceAllButtonFixed |
| src/script.js:303 | the shortcut handler listens on the textarea (line 257) and on the document, and a key pressed in the textarea bubbles to both, so each shortcut runs twice | `"a"`, caret at 0, Ctrl+Shift+D: `"a\na\na"` | one listener, one run: `"a\na"` | not executed | Shortcuts.KeyPress, Shortcuts.DuplicateKeyTriples | Shortcuts.KeyPressFixed |
