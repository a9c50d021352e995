/** The saved documents and the document selector: the records the store
    holds, the order the selector lists them in, the caption of each entry
    and the entry chosen when the list is (re)built. */
module Documents {
  import opened Wrappers

  /** A stored record. A missing `updatedAt` is `None`; a missing title or
      content is the empty string, which the code treats the same way. */
  datatype Doc = Doc(id: string, title: string, content: string, createdAt: int, updatedAt: Option<int>)

  /** The object store, keyed by `id`. */
  type Store = map<string, Doc>

  /** `listing` is what reading every record of `store` returns: each
      record once, in some order. */
  predicate IsListing(store: Store, listing: seq<Doc>)
  {
    Lists(store, listing) && (forall i, j :: 0 <= i < j < |listing| ==> listing[i].id != listing[j].id)
  }

  /** Every entry of `docs` is a record of `store` and every record is an
      entry. */
  predicate Lists(store: Store, docs: seq<Doc>)
  {
    && (forall d :: d in docs ==> d.id in store && store[d.id] == d)
    && (forall k :: k in store ==> store[k] in docs)
  }

  /** An empty listing comes only from an empty store. */
  lemma EmptyListing(store: Store)
    requires IsListing(store, [])
    ensures store == map[]
  {
    assert store.Keys == {};
  }

  /** A store holding one record is listed as that record alone. */
  lemma SingleListing(d: Doc)
    ensures IsListing(map[d.id := d], [d])
  {
  }

  // ---------------------------------------------------------------------
  // Ordering: most recently updated first
  // ---------------------------------------------------------------------

  /** The sort key, `updatedAt || 0`. */
  function Recency(d: Doc): int
  {
    d.updatedAt.GetOr(0)
  }

  predicate Descending(docs: seq<Doc>)
  {
    forall i, j :: 0 <= i < j < |docs| ==> Recency(docs[i]) >= Recency(docs[j])
  }

  /** The records of `docs` with sort key `k`, in the order of `docs`. */
  function WithRecency(docs: seq<Doc>, k: int): (r: seq<Doc>)
    ensures |r| <= |docs|
  {
    if |docs| == 0 then []
    else (if Recency(docs[0]) == k then [docs[0]] else []) + WithRecency(docs[1..], k)
  }

  lemma WithRecencyCons(d: Doc, docs: seq<Doc>, k: int)
    ensures WithRecency([d] + docs, k) == (if Recency(d) == k then [d] else []) + WithRecency(docs, k)
  {
    assert ([d] + docs)[1..] == docs;
  }

  /** `d` placed before the first record that is not more recent than it. */
  function Insert(d: Doc, docs: seq<Doc>): (r: seq<Doc>)
    ensures multiset(r) == multiset(docs) + multiset{d}
  {
    if |docs| == 0 || Recency(docs[0]) <= Recency(d) then [d] + docs
    else
      assert docs == [docs[0]] + docs[1..];
      [docs[0]] + Insert(d, docs[1..])
  }

  lemma {:induction false} InsertDescending(d: Doc, docs: seq<Doc>)
    requires Descending(docs)
    ensures Descending(Insert(d, docs))
  {
    if |docs| > 0 && Recency(docs[0]) > Recency(d) {
      InsertDescending(d, docs[1..]);
      var r := Insert(d, docs);
      forall j | 0 < j < |r|
        ensures Recency(r[0]) >= Recency(r[j])
      {
        assert r[j] in multiset(Insert(d, docs[1..])) by {
          assert r[j] == Insert(d, docs[1..])[j - 1];
        }
        if r[j] != d {
          assert r[j] in docs[1..];
        }
      }
    }
  }

  /** Inserting `d` adds it in front of the records with its key and
      leaves the order of every other key's records alone. */
  lemma {:induction false} InsertStable(d: Doc, docs: seq<Doc>, k: int)
    ensures WithRecency(Insert(d, docs), k) == (if Recency(d) == k then [d] else []) + WithRecency(docs, k)
  {
    if |docs| == 0 || Recency(docs[0]) <= Recency(d) {
      WithRecencyCons(d, docs, k);
    } else {
      InsertStable(d, docs[1..], k);
      WithRecencyCons(docs[0], Insert(d, docs[1..]), k);
      WithRecencyCons(docs[0], docs[1..], k);
      assert docs == [docs[0]] + docs[1..];
    }
  }

  /** `docs.sort((a, b) => (b.updatedAt || 0) - (a.updatedAt || 0))`: the
      same records, most recently updated first. */
  function SortByRecency(docs: seq<Doc>): (r: seq<Doc>)
    ensures Descending(r)
    ensures multiset(r) == multiset(docs)
  {
    if |docs| == 0 then []
    else
      assert docs == [docs[0]] + docs[1..];
      InsertDescending(docs[0], SortByRecency(docs[1..]));
      Insert(docs[0], SortByRecency(docs[1..]))
  }

  /** The sort is stable: the records sharing a key keep their order. */
  lemma {:induction false} SortStable(docs: seq<Doc>, k: int)
    ensures WithRecency(SortByRecency(docs), k) == WithRecency(docs, k)
  {
    if |docs| > 0 {
      SortStable(docs[1..], k);
      InsertStable(docs[0], SortByRecency(docs[1..]), k);
      WithRecencyCons(docs[0], docs[1..], k);
      assert docs == [docs[0]] + docs[1..];
    }
  }

  /** The first entry of the sorted list is a most recently updated
      record. */
  lemma FirstIsMostRecent(docs: seq<Doc>, d: Doc)
    requires d in docs
    ensures |SortByRecency(docs)| > 0
    ensures Recency(SortByRecency(docs)[0]) >= Recency(d)
  {
    assert d in multiset(SortByRecency(docs));
  }

  /** The sorted list holds the same records as the listing. */
  lemma SortedLists(store: Store, docs: seq<Doc>)
    requires Lists(store, docs)
    ensures Lists(store, SortByRecency(docs))
  {
    var r := SortByRecency(docs);
    assert forall d :: d in r <==> d in docs by {
      assert forall d :: d in r <==> d in multiset(r);
      assert forall d :: d in docs <==> d in multiset(docs);
    }
  }

  // ---------------------------------------------------------------------
  // The selector
  // ---------------------------------------------------------------------

  /** The caption of a record's entry: its title, or `Documento ` and the
      first four characters of its id (fewer when the id is shorter). */
  function Caption(d: Doc): (r: string)
    ensures |r| > 0
    ensures d.title != "" ==> r == d.title
    ensures d.title == "" ==> r == "Documento " + d.id[..if |d.id| < 4 then |d.id| else 4]
  {
    if d.title != "" then d.title
    else "Documento " + d.id[..if |d.id| < 4 then |d.id| else 4]
  }

  predicate Listed(docs: seq<Doc>, id: string)
  {
    exists i :: 0 <= i < |docs| && docs[i].id == id
  }

  /** The entry the selector ends on when the list is rebuilt: the stored
      last document (`localStorage.getItem('lastDocId') || docs[0].id`)
      when it is listed, otherwise the first entry, which a freshly filled
      selector selects by itself. */
  function Chosen(docs: seq<Doc>, lastDocId: Option<string>): (r: string)
    requires |docs| > 0
    ensures Listed(docs, r)
    ensures lastDocId.Some? && lastDocId.value != "" && Listed(docs, lastDocId.value) ==> r == lastDocId.value
    ensures !(lastDocId.Some? && lastDocId.value != "" && Listed(docs, lastDocId.value)) ==> r == docs[0].id
  {
    var last := if lastDocId.Some? && lastDocId.value != "" then lastDocId.value else docs[0].id;
    if Listed(docs, last) then last else docs[0].id
  }

  /** The entry chosen after the list is rebuilt from the store is either
      the stored last document or one of the most recently updated. */
  lemma ChosenIsLastOrMostRecent(store: Store, listing: seq<Doc>, lastDocId: Option<string>)
    requires IsListing(store, listing) && |listing| > 0
    ensures |SortByRecency(listing)| > 0
    ensures var c := Chosen(SortByRecency(listing), lastDocId);
            && c in store
            && (c == lastDocId.GetOr("") || forall k :: k in store ==> Recency(store[c]) >= Recency(store[k]))
  {
    var docs := SortByRecency(listing);
    SortedLists(store, listing);
    forall k | k in store
      ensures Recency(docs[0]) >= Recency(store[k])
    {
      FirstIsMostRecent(listing, store[k]);
    }
  }
}
