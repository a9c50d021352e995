/** The editor session: which document is open, what the buffer holds, and
    the autosave machinery (`debounceSave`, its timer and the save it
    starts). Each handler is a function from the session before to the
    session after; the answers of `prompt` and `confirm`, the fresh id and
    the clock readings are parameters. An asynchronous handler runs to its
    end in one step, except the autosave, whose timer firing and whose
    save finishing are separate events. */
module Session {
  import opened Wrappers
  import opened Documents

  /** `current` is `currentDocId`, `lastDocId` the value kept in local
      storage, `value` the buffer, `timerArmed` whether a save timeout is
      pending and `inFlight` the document a started save is writing. */
  datatype Session = Session(
    store: Store,
    current: Option<string>,
    lastDocId: Option<string>,
    value: string,
    editorReady: bool,
    isSaving: bool,
    timerArmed: bool,
    inFlight: Option<string>)

  /** The flags the autosave works with, and nothing else. */
  predicate SameFlags(a: Session, b: Session)
  {
    a.editorReady == b.editorReady && a.isSaving == b.isSaving && a.timerArmed == b.timerArmed && a.inFlight == b.inFlight
  }

  // ---------------------------------------------------------------------
  // Opening, creating and deleting documents
  // ---------------------------------------------------------------------

  /** `switchDocument(id)`: nothing happens when `id` is already open;
      otherwise `id` becomes the open document and the one remembered in
      local storage, and the buffer gets its stored content, or the empty
      text when there is no such record. */
  function Switch(st: Session, id: string): (r: Session)
    ensures st.current == Some(id) ==> r == st
    ensures st.current != Some(id) ==>
              && r.current == Some(id) && r.lastDocId == Some(id)
              && (id in st.store ==> r.value == st.store[id].content)
              && (id !in st.store ==> r.value == "")
    ensures r.store == st.store && SameFlags(r, st)
  {
    if st.current == Some(id) then st
    else st.(current := Some(id), lastDocId := Some(id),
             value := if id in st.store then st.store[id].content else "")
  }

  /** Opening the same document twice is opening it once. */
  lemma SwitchIdempotent(st: Session, id: string)
    ensures Switch(Switch(st, id), id) == Switch(st, id)
  {
  }

  /** Opening `b` after `a` leaves the buffer as opening `b` directly,
      unless `b` was open before and `a` was not: then `b` is reloaded
      from the store and unsaved text in the buffer is gone. */
  lemma SwitchThrough(st: Session, a: string, b: string)
    requires a != b
    ensures Switch(Switch(st, a), b).current == Some(b)
    ensures Switch(Switch(st, a), b).value
            == (if b in st.store then st.store[b].content else "")
  {
  }

  /** A prompt answer the handler goes on with: neither cancelled nor
      empty. */
  predicate Answered(answer: Option<string>)
  {
    answer.Some? && answer.value != ""
  }

  /** The record `createNewDocument` saves. */
  function NewRecord(id: string, title: string, created: int, updated: int): (d: Doc)
    ensures d.id == id && d.title == title && d.content == ""
  {
    Doc(id, title, "", created, Some(updated))
  }

  /** What the list shows and opens when the store is not empty: the
      records, most recent first, and the chosen entry opened. */
  function Show(st: Session, listing: seq<Doc>): (r: Session)
    requires Lists(st.store, listing) && |listing| > 0
    ensures |SortByRecency(listing)| > 0
    ensures r == Switch(st, Chosen(SortByRecency(listing), st.lastDocId))
    ensures r.current.Some? && r.current.value in r.store
  {
    SortedLists(st.store, listing);
    Switch(st, Chosen(SortByRecency(listing), st.lastDocId))
  }

  /** `createNewDocument(suggested)`: the user is asked for a title with
      `suggested` prefilled; without an answer nothing happens. Otherwise
      a record with that title and empty content is saved under the fresh
      id, the list is rebuilt from `listing` (what the store then reads
      as), and the new record is opened. */
  function Create(st: Session, prompt: string -> Option<string>, suggested: string,
                  freshId: string, created: int, updated: int, listing: seq<Doc>): (r: Session)
    requires Answered(prompt(suggested)) ==>
               IsListing(st.store[freshId := NewRecord(freshId, prompt(suggested).value, created, updated)], listing)
    ensures !Answered(prompt(suggested)) ==> r == st
    ensures Answered(prompt(suggested)) ==>
              && r.store == st.store[freshId := NewRecord(freshId, prompt(suggested).value, created, updated)]
              && r.current == Some(freshId)
    ensures Answered(prompt(suggested)) && st.current != Some(freshId) ==>
              r.lastDocId == Some(freshId) && r.value == ""
    ensures SameFlags(r, st)
  {
    if !Answered(prompt(suggested)) then st
    else
      var rec := NewRecord(freshId, prompt(suggested).value, created, updated);
      var saved := st.(store := st.store[freshId := rec]);
      assert saved.store[freshId] == rec;
      assert rec in listing;
      var shown := Show(saved, listing);
      assert shown.store == saved.store;
      Switch(shown, freshId)
  }

  /** The title the first-document prompt suggests. */
  const FirstTitle: string := "Primeiro Documento"

  /** `loadDocumentsList()`, given what the store reads as: an empty store
      asks for a first document (which, once saved, is the only record);
      otherwise the chosen entry of the rebuilt list is opened. */
  function LoadList(st: Session, listing: seq<Doc>, prompt: string -> Option<string>,
                    freshId: string, created: int, updated: int): (r: Session)
    requires IsListing(st.store, listing)
    ensures |listing| == 0 ==>
              r == Create(st, prompt, FirstTitle, freshId, created, updated,
                          [NewRecord(freshId, prompt(FirstTitle).GetOr(""), created, updated)])
    ensures |listing| > 0 ==> r.store == st.store && r.current.Some? && r.current.value in r.store
    ensures |listing| > 0 ==> r == Show(st, listing)
    ensures |listing| > 0 && st.current.None? ==>
              && r.current == Some(Chosen(SortByRecency(listing), st.lastDocId))
              && r.lastDocId == r.current && r.value == st.store[r.current.value].content
    ensures SameFlags(r, st)
  {
    if |listing| == 0 then
      EmptyListing(st.store);
      SingleListing(NewRecord(freshId, prompt(FirstTitle).GetOr(""), created, updated));
      Create(st, prompt, FirstTitle, freshId, created, updated,
             [NewRecord(freshId, prompt(FirstTitle).GetOr(""), created, updated)])
    else Show(st, listing)
  }

  /** Loading the page on an empty store with the first prompt answered
      leaves exactly one document, which is open and empty. */
  lemma EmptyStoreCreatesFirst(lastDocId: Option<string>, prompt: string -> Option<string>,
                               freshId: string, created: int, updated: int)
    requires Answered(prompt(FirstTitle))
    ensures var r := LoadList(Initial(map[], lastDocId), [], prompt, freshId, created, updated);
            && r.store.Keys == {freshId}
            && r.store[freshId].title == prompt(FirstTitle).value
            && r.current == Some(freshId) && r.value == ""
  {
  }

  /** The session once the open record is removed and nothing is open. */
  function Removed(st: Session): (r: Session)
    requires st.current.Some?
    ensures r.store == st.store - {st.current.value} && r.current.None?
    ensures r.lastDocId == st.lastDocId && r.value == st.value && SameFlags(r, st)
  {
    st.(store := st.store - {st.current.value}, current := None)
  }

  /** `deleteCurrentDocument()`, given the user's answer to the
      confirmation and what the store reads as afterwards: without an open
      document or without confirmation nothing happens; otherwise the open
      record is removed, no document is open, and the list is rebuilt. */
  function Delete(st: Session, confirmed: bool, listing: seq<Doc>, prompt: string -> Option<string>,
                  freshId: string, created: int, updated: int): (r: Session)
    requires st.current.Some? && confirmed ==> IsListing(st.store - {st.current.value}, listing)
    ensures st.current.None? || !confirmed ==> r == st
    ensures st.current.Some? && confirmed && |listing| > 0 ==>
              && r.store == st.store - {st.current.value}
              && r.current.Some? && r.current.value in r.store && r.current != st.current
    ensures st.current.Some? && confirmed && |listing| > 0 ==>
              && r == Show(Removed(st), listing)
              && r.lastDocId == r.current && r.value == r.store[r.current.value].content
    ensures st.current.Some? && confirmed && |listing| == 0 ==>
              r == Create(Removed(st), prompt, FirstTitle, freshId, created, updated,
                          [NewRecord(freshId, prompt(FirstTitle).GetOr(""), created, updated)])
    ensures st.current.Some? && confirmed && (|listing| > 0 || freshId != st.current.value) ==>
              st.current.value !in r.store
    ensures SameFlags(r, st)
  {
    if st.current.None? || !confirmed then st
    else LoadList(Removed(st), listing, prompt, freshId, created, updated)
  }

  /** The remembered document is the open one, which switching keeps
      true. */
  predicate Remembered(st: Session)
  {
    st.current.Some? ==> st.lastDocId == st.current
  }

  /** After the open document is deleted, the most recently updated of the
      remaining ones is opened, since the remembered id is the deleted
      one. */
  lemma DeleteOpensMostRecent(st: Session, listing: seq<Doc>, prompt: string -> Option<string>,
                              freshId: string, created: int, updated: int)
    requires st.current.Some? && Remembered(st)
    requires IsListing(st.store - {st.current.value}, listing) && |listing| > 0
    ensures |SortByRecency(listing)| > 0
    ensures Delete(st, true, listing, prompt, freshId, created, updated).current
            == Some(SortByRecency(listing)[0].id)
  {
    var rest := st.store - {st.current.value};
    SortedLists(rest, listing);
    assert !Listed(SortByRecency(listing), st.current.value) by {
      forall i | 0 <= i < |SortByRecency(listing)|
        ensures SortByRecency(listing)[i].id != st.current.value
      {
        assert SortByRecency(listing)[i] in SortByRecency(listing);
      }
    }
  }

  /** Switching keeps the remembered document the open one. */
  lemma SwitchRemembers(st: Session, id: string)
    requires Remembered(st)
    ensures Remembered(Switch(st, id))
  {
  }

  /** The session when the page loads: nothing open, buffer empty, the
      editor not yet ready and no save pending. */
  function Initial(store: Store, lastDocId: Option<string>): (r: Session)
    ensures !r.editorReady && !r.isSaving && !r.timerArmed && r.inFlight.None? && r.current.None?
  {
    Session(store, None, lastDocId, "", false, false, false, None)
  }

  /** Page load: the list is built (creating a first document when the
      store is empty), then the editor becomes ready; no save is pending. */
  function Start(store: Store, lastDocId: Option<string>, listing: seq<Doc>,
                 prompt: string -> Option<string>, freshId: string, created: int, updated: int): (r: Session)
    requires IsListing(store, listing)
    ensures r.editorReady && !r.isSaving && !r.timerArmed && r.inFlight.None?
    ensures |listing| > 0 ==> r.store == store && r.current.Some? && r.current.value in store
    ensures |listing| > 0 ==>
              && |SortByRecency(listing)| > 0
              && r.current == Some(Chosen(SortByRecency(listing), lastDocId))
              && r.lastDocId == r.current && r.value == store[r.current.value].content
  {
    LoadList(Initial(store, lastDocId), listing, prompt, freshId, created, updated).(editorReady := true)
  }

  // ---------------------------------------------------------------------
  // Autosave
  // ---------------------------------------------------------------------

  /** `debounceSave()`: the pending timeout is always cleared, and a new
      one is set only when the editor is ready and no save is running. */
  function DebounceSave(st: Session): (r: Session)
    ensures r.timerArmed <==> st.editorReady && !st.isSaving
    ensures r.(timerArmed := st.timerArmed) == st
  {
    var cleared := st.(timerArmed := false);
    if !st.editorReady || st.isSaving then cleared else cleared.(timerArmed := true)
  }

  /** Calling `debounceSave` again at once changes nothing. */
  lemma DebounceSaveIdempotent(st: Session)
    ensures DebounceSave(DebounceSave(st)) == DebounceSave(st)
  {
  }

  /** Typing: the buffer becomes `v`, and when the editor is ready the
      save is debounced. */
  function Typed(st: Session, v: string): (r: Session)
    ensures r.value == v && r.store == st.store && r.isSaving == st.isSaving && r.inFlight == st.inFlight
    ensures st.editorReady ==> (r.timerArmed <==> !st.isSaving)
    ensures !st.editorReady ==> r.timerArmed == st.timerArmed
    ensures r.(timerArmed := st.timerArmed) == st.(value := v)
  {
    if st.editorReady then DebounceSave(st.(value := v)) else st.(value := v)
  }

  /** An editing shortcut that rewrote the buffer to `v`: it calls
      `debounceSave` directly. */
  function ShortcutEdit(st: Session, v: string): (r: Session)
    ensures r.value == v && r.store == st.store && r.isSaving == st.isSaving && r.inFlight == st.inFlight
    ensures r.timerArmed <==> st.editorReady && !st.isSaving
    ensures r.(timerArmed := st.timerArmed) == st.(value := v)
  {
    DebounceSave(st.(value := v))
  }

  /** A button of the find-and-replace dialog that rewrote the buffer to
      `v`: the new text is set through `setRangeText` or by assigning
      `value`, which fire no `input` event, and the handler does not call
      `debounceSave`, so no save is armed or cleared. */
  function DialogEdit(st: Session, v: string): (r: Session)
    ensures r.value == v && r.store == st.store && r.current == st.current && SameFlags(r, st)
    ensures r.lastDocId == st.lastDocId
  {
    st.(value := v)
  }

  /** Ctrl+S: the timeout is cleared and the save debounced again; it does
      not save at once. */
  function SaveKey(st: Session): (r: Session)
    ensures r == DebounceSave(st)
  {
    DebounceSave(st.(timerArmed := false))
  }

  /** The save timeout fires: with no open document nothing is written
      and nothing else changes; otherwise a save of the open document
      starts. */
  function Fire(st: Session): (r: Session)
    ensures !r.timerArmed && r.store == st.store && r.value == st.value && r.current == st.current
    ensures !st.timerArmed ==> r == st
    ensures st.timerArmed && st.current.None? ==> r == st.(timerArmed := false)
    ensures st.timerArmed && st.current.Some? ==> r.isSaving && r.inFlight == st.current
    ensures r.(timerArmed := st.timerArmed, isSaving := st.isSaving, inFlight := st.inFlight) == st
  {
    if !st.timerArmed then st
    else if st.current.None? then st.(timerArmed := false)
    else st.(timerArmed := false, isSaving := true, inFlight := st.current)
  }

  /** The record as the autosave writes it back: the buffer as content and
      the save time as `updatedAt`, everything else as read. */
  function Saved(d: Doc, content: string, now: int): (r: Doc)
    ensures r.id == d.id && r.title == d.title && r.createdAt == d.createdAt
    ensures r.content == content && r.updatedAt == Some(now)
  {
    d.(content := content, updatedAt := Some(now))
  }

  /** The started save finishes at time `now`, `ok` telling whether reading
      and writing the record succeeded. On success an existing record gets
      the buffer as content and `now` as update time, an absent one is not
      recreated, and `isSaving` is cleared. On failure nothing is written
      and `isSaving` stays set: the code resets it only on the success
      path. */
  function SaveComplete(st: Session, ok: bool, now: int): (r: Session)
    ensures st.inFlight.None? ==> r == st
    ensures r.inFlight.None? && r.value == st.value && r.current == st.current && r.timerArmed == st.timerArmed
    ensures st.inFlight.Some? && ok ==> !r.isSaving
    ensures st.inFlight.Some? && !ok ==> r.isSaving == st.isSaving && r.store == st.store
    ensures st.inFlight.Some? && ok && st.inFlight.value !in st.store ==> r.store == st.store
    ensures st.inFlight.Some? && ok && st.inFlight.value in st.store ==>
              var id := st.inFlight.value;
              && r.store.Keys == st.store.Keys
              && r.store[id] == Saved(st.store[id], st.value, now)
              && (forall k :: k in st.store && k != id ==> r.store[k] == st.store[k])
    ensures r.(store := st.store, isSaving := st.isSaving, inFlight := st.inFlight) == st
  {
    if st.inFlight.None? then st
    else if !ok then st.(inFlight := None)
    else
      var id := st.inFlight.value;
      var written := if id in st.store then st.store[id := Saved(st.store[id], st.value, now)] else st.store;
      st.(store := written, isSaving := false, inFlight := None)
  }

  /** The save finishing as it evidently should: `isSaving` is cleared
      whether or not the save succeeded. */
  function SaveCompleteFixed(st: Session, ok: bool, now: int): (r: Session)
    ensures st.inFlight.Some? ==> !r.isSaving
    ensures ok ==> r == SaveComplete(st, ok, now)
    ensures st.inFlight.Some? && !ok ==> r.store == st.store
    ensures !ok ==> r.inFlight.None? && r.(isSaving := st.isSaving, inFlight := st.inFlight) == st
  {
    if st.inFlight.Some? && !ok then st.(inFlight := None, isSaving := false)
    else SaveComplete(st, ok, now)
  }

  /** The events of a session once it is running. */
  datatype Event =
    | Type(v: string)
    | Shortcut(v: string)
    | Dialog(v: string)
    | CtrlS
    | Timeout
    | Finished(ok: bool, now: int)
    | Select(id: string)

  function Step(st: Session, e: Event): Session
  {
    match e
    case Type(v) => Typed(st, v)
    case Shortcut(v) => ShortcutEdit(st, v)
    case Dialog(v) => DialogEdit(st, v)
    case CtrlS => SaveKey(st)
    case Timeout => Fire(st)
    case Finished(ok, now) => SaveComplete(st, ok, now)
    case Select(id) => Switch(st, id)
  }

  function Run(st: Session, events: seq<Event>): Session
    decreases |events|
  {
    if |events| == 0 then st else Run(Step(st, events[0]), events[1..])
  }

  /** A save that fails leaves `isSaving` set with no save running. */
  predicate Stuck(st: Session)
  {
    st.isSaving && st.inFlight.None?
  }

  /** Once stuck, the session stays stuck: whatever is typed, saved with
      Ctrl+S or opened, no timer is armed and autosave never writes the
      store again. */
  lemma {:induction false} StuckForever(st: Session, events: seq<Event>)
    requires Stuck(st) && !st.timerArmed
    ensures Stuck(Run(st, events)) && !Run(st, events).timerArmed
    ensures Run(st, events).store == st.store
    decreases |events|
  {
    if |events| > 0 {
      StuckForever(Step(st, events[0]), events[1..]);
    }
  }

  /** A failed save leaves the session stuck. */
  lemma FailureSticks(st: Session, now: int)
    requires st.inFlight.Some? && st.isSaving
    ensures Stuck(SaveComplete(st, false, now))
  {
  }

  /** With the fix, an edit after a failed save arms a new save. */
  lemma FixedRecovers(st: Session, now: int, v: string)
    requires st.inFlight.Some? && st.editorReady
    ensures Typed(SaveCompleteFixed(st, false, now), v).timerArmed
    ensures !Typed(SaveComplete(st, false, now), v).timerArmed || !st.isSaving
  {
  }

  /** An edit made while a save runs arms no new save, and clears one that
      was pending. */
  lemma EditDuringSaveArmsNothing(st: Session, v: string)
    requires st.isSaving && st.editorReady
    ensures !Typed(st, v).timerArmed && !ShortcutEdit(st, v).timerArmed && !SaveKey(st).timerArmed
  {
  }

  /** A replacement made in the find-and-replace dialog while no save is
      pending is not stored by opening another document: the store is as
      before and the buffer holds the other document's text. */
  lemma DialogEditNotSaved(st: Session, v: string, id: string)
    requires !st.timerArmed && st.current != Some(id)
    ensures var r := Run(st, [Dialog(v), Select(id)]);
            && r.store == st.store && !r.timerArmed
            && r.value == (if id in st.store then st.store[id].content else "")
  {
    var s1 := DialogEdit(st, v);
    var s2 := Switch(s1, id);
    assert Run(st, [Dialog(v), Select(id)]) == Run(s1, [Select(id)]);
    assert Run(s1, [Select(id)]) == Run(s2, []);
  }

  // ---------------------------------------------------------------------
  // Switching with a save pending
  // ---------------------------------------------------------------------

  /** A concrete run: `a` is open with text typed but not yet saved; the
      user opens `b` before the timeout fires; the save that follows
      writes `b`'s own text back into `b`, and what was typed into `a` is
      never stored. */
  lemma PendingEditLost()
    ensures var a := Doc("a", "A", "old", 0, Some(1));
            var b := Doc("b", "B", "other", 0, Some(2));
            var st := Session(map["a" := a, "b" := b], Some("a"), Some("a"), "typed", true, false, true, None);
            var r := Run(st, [Select("b"), Timeout, Finished(true, 9)]);
            && r.store["a"] == a
            && r.store["b"].content == "other"
            && r.current == Some("b") && r.value == "other"
  {
    var a := Doc("a", "A", "old", 0, Some(1));
    var b := Doc("b", "B", "other", 0, Some(2));
    var st := Session(map["a" := a, "b" := b], Some("a"), Some("a"), "typed", true, false, true, None);
    var s1 := Switch(st, "b");
    var s2 := Fire(s1);
    var s3 := SaveComplete(s2, true, 9);
    assert Run(st, [Select("b"), Timeout, Finished(true, 9)]) == Run(s1, [Timeout, Finished(true, 9)]);
    assert Run(s1, [Timeout, Finished(true, 9)]) == Run(s2, [Finished(true, 9)]);
    assert Run(s2, [Finished(true, 9)]) == Run(s3, []);
  }

  /** Opening another document as it evidently should work: a pending save
      of the open document is carried out at once, before the switch. */
  function SwitchFixed(st: Session, id: string, now: int): (r: Session)
    ensures st.current == Some(id) ==> r == st
    ensures st.current != Some(id) && st.timerArmed && st.current.Some? && st.current.value in st.store ==>
              st.current.value in r.store && r.store[st.current.value] == Saved(st.store[st.current.value], st.value, now)
    ensures !st.timerArmed ==> r == Switch(st, id)
    ensures st.current != Some(id) ==>
              && r.current == Some(id) && r.lastDocId == Some(id)
              && (id in st.store ==> r.value == st.store[id].content)
              && (id !in st.store ==> r.value == "")
    ensures r.store.Keys == st.store.Keys
    ensures forall k :: k in st.store && Some(k) != st.current ==> r.store[k] == st.store[k]
    ensures st.current.Some? && st.current.value !in st.store ==> r.store == st.store
    ensures st.current.Some? && st.current != Some(id) ==> !r.timerArmed
    ensures r.editorReady == st.editorReady && r.isSaving == st.isSaving && r.inFlight == st.inFlight
  {
    if st.current == Some(id) || !st.timerArmed || st.current.None? then Switch(st, id)
    else
      var c := st.current.value;
      var flushed := if c in st.store then st.store[c := Saved(st.store[c], st.value, now)] else st.store;
      Switch(st.(store := flushed, timerArmed := false), id)
  }

  /** With the fix, the text typed into `a` is stored before `b` opens. */
  lemma PendingEditKept()
    ensures var a := Doc("a", "A", "old", 0, Some(1));
            var b := Doc("b", "B", "other", 0, Some(2));
            var st := Session(map["a" := a, "b" := b], Some("a"), Some("a"), "typed", true, false, true, None);
            SwitchFixed(st, "b", 9).store["a"].content == "typed"
  {
  }
}
