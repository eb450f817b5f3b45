/** `DocumentManager`: the in-memory store, a list of documents updated in place. */
module Manager {
  import opened Wrappers
  import opened Sequences
  import opened Records
  import opened Lookup
  import opened Upsert
  import opened Search

  class DocumentManager {
    /** `documentStorage`, in insertion order. */
    var storage: seq<Document>

    /** Every stored document has a non-empty id and a creation time. */
    ghost predicate Valid()
      reads this
    {
      forall d :: d in storage ==> Complete(d)
    }

    constructor ()
      ensures Valid() && storage == []
    {
      storage := [];
    }

    /**
     * `save(Document)`: fills in a missing id with `freshId` and a missing
     * creation time with `now`; drops the stored documents with the same id
     * only when the caller supplied a creation time; appends the document.
     */
    method Save(document: Document, freshId: string, now: Instant) returns (saved: Document)
      requires Valid() && freshId != []
      modifies this
      ensures Valid()
      ensures saved == Prepare(document, freshId, now)
      ensures storage == Upserted(old(storage), document, freshId, now)
      ensures document.created.Some? ==> storage == RemoveWithId(old(storage), saved.id.value) + [saved]
      ensures document.created.None? ==> storage == old(storage) + [saved]
    {
      var doc := document;
      if Blank(doc.id) {
        doc := doc.(id := Some(freshId));
      }
      if doc.created.None? {
        doc := doc.(created := Some(now));
      } else {
        storage := RemoveWithId(storage, doc.id.value);
      }
      storage := storage + [doc];
      saved := doc;
    }

    /**
     * `save(SearchRequest)`: a null request returns the whole storage;
     * otherwise the stored documents that match every group, in storage order.
     */
    function Search(request: Option<SearchRequest>): (r: seq<Document>)
      reads this
      ensures request.None? ==> r == storage
      ensures IsSubsequence(r, storage)
      ensures forall d :: d in r <==> d in storage && (request.None? || Matches(request.value, d))
      ensures request.Some? ==> forall d :: multiset(r)[d] == if Matches(request.value, d) then multiset(storage)[d] else 0
    {
      if request.None? then
        SubsequenceOfItself(storage);
        storage
      else
        FilterIsSubsequence(storage, request.value);
        assert forall d :: d in Filter(storage, request.value) <==> multiset(Filter(storage, request.value))[d] > 0;
        Filter(storage, request.value)
    }

    /**
     * `findById`: "not found" for a null or empty id; otherwise the first
     * stored document with that id, "not found" exactly when there is none.
     */
    function FindById(id: Option<string>): (r: Option<Document>)
      reads this
      ensures Blank(id) ==> r.None?
      ensures r.Some? ==> r.value in storage && r.value.id == id
      ensures !Blank(id) ==> (r.None? <==> forall d :: d in storage ==> d.id != id)
      ensures forall k ::
                (!Blank(id) && 0 <= k < |storage| && storage[k].id == id && forall j :: 0 <= j < k ==> storage[j].id != id)
                ==> r == Some(storage[k])
    {
      if Blank(id) then None
      else
        FindFirstIsFirstEverywhere(storage, id.value);
        FindFirst(storage, id.value)
    }
  }

  /**
   * A document saved with no id is given a fresh one under which `findById`
   * returns exactly the saved document.
   */
  method SaveThenFind(m: DocumentManager, document: Document, freshId: string, now: Instant)
    returns (saved: Document, found: Option<Document>)
    requires m.Valid() && freshId != [] && Blank(document.id)
    requires forall d :: d in m.storage ==> d.id != Some(freshId)
    modifies m
    ensures !Blank(saved.id) && found == Some(saved)
  {
    FindAfterSave(m.storage, document, freshId, now);
    saved := m.Save(document, freshId, now);
    found := m.FindById(saved.id);
  }

  /**
   * In a valid store every stored id is present and non-empty, so in this
   * model the `removeIf` predicate of `save` never meets a null id (in Java a
   * caller holding a stored object can still null its id).
   */
  lemma ValidStorageHasIds(m: DocumentManager, id: string)
    requires m.Valid()
    ensures forall d :: d in m.storage ==> d.id.Some? && |d.id.value| > 0
    ensures forall d :: d in RemoveWithId(m.storage, id) ==> d.id.Some?
  {
  }
}
