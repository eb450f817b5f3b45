/**
 * The upsert policy of `save(Document)`: fill in a missing id and creation
 * time, remove earlier entries with the same id only when the caller supplied
 * a creation time, then append the document.
 */
module Upsert {
  import opened Wrappers
  import opened Sequences
  import opened Records
  import opened Lookup

  /** A document as the store keeps it: a non-empty id and a creation time. */
  predicate Complete(d: Document) {
    !Blank(d.id) && d.created.Some?
  }

  /**
   * The document `save` stores and returns. `freshId` stands for
   * `UUID.randomUUID().toString()` and `now` for `Instant.now()`.
   */
  function Prepare(document: Document, freshId: string, now: Instant): (d: Document)
    requires freshId != []
    ensures Complete(d)
    ensures !Blank(document.id) ==> d.id == document.id
    ensures Blank(document.id) ==> d.id == Some(freshId)
    ensures document.created.Some? ==> d.created == document.created
    ensures document.created.None? ==> d.created == Some(now)
    ensures d.title == document.title && d.content == document.content && d.author == document.author
  {
    var named := if Blank(document.id) then document.(id := Some(freshId)) else document;
    if named.created.None? then named.(created := Some(now)) else named
  }

  /** `documentStorage.removeIf(doc -> doc.getId().equals(id))`. */
  function RemoveWithId(s: seq<Document>, id: string): (r: seq<Document>)
    ensures forall d :: d in r ==> d in s && d.id != Some(id)
    ensures forall d: Document :: d.id != Some(id) ==> multiset(r)[d] == multiset(s)[d]
  {
    if s == [] then []
    else
      assert s == [s[0]] + s[1..];
      if s[0].id == Some(id) then RemoveWithId(s[1..], id)
      else [s[0]] + RemoveWithId(s[1..], id)
  }

  /** The storage after `save(document)`. */
  function Upserted(s: seq<Document>, document: Document, freshId: string, now: Instant): (r: seq<Document>)
    requires freshId != []
    ensures |r| > 0 && r[|r| - 1] == Prepare(document, freshId, now)
  {
    var d := Prepare(document, freshId, now);
    if document.created.None? then s + [d] else RemoveWithId(s, d.id.value) + [d]
  }

  /** The number of documents of `s` with id `id`. */
  function CountId(s: seq<Document>, id: string): (n: nat)
    ensures n <= |s|
    ensures n == 0 <==> forall d :: d in s ==> d.id != Some(id)
  {
    if s == [] then 0
    else (if s[0].id == Some(id) then 1 else 0) + CountId(s[1..], id)
  }

  /** No two positions of `s` hold documents with the same id. */
  predicate UniqueIds(s: seq<Document>) {
    forall i, j :: 0 <= i < j < |s| ==> s[i].id != s[j].id
  }

  lemma {:induction false} CountIdAppend(s: seq<Document>, d: Document, id: string)
    ensures CountId(s + [d], id) == CountId(s, id) + (if d.id == Some(id) then 1 else 0)
  {
    if s != [] {
      assert (s + [d])[1..] == s[1..] + [d];
      CountIdAppend(s[1..], d, id);
    }
  }

  /** `removeIf` keeps the surviving documents in their original order. */
  lemma {:induction false} RemoveWithIdIsSubsequence(s: seq<Document>, id: string)
    ensures IsSubsequence(RemoveWithId(s, id), s)
  {
    if s != [] {
      RemoveWithIdIsSubsequence(s[1..], id);
    }
  }

  /** A unique sequence splits into a head whose id does not recur and a unique tail. */
  lemma UniqueTail(s: seq<Document>)
    requires s != [] && UniqueIds(s)
    ensures UniqueIds(s[1..])
    ensures forall d :: d in s[1..] ==> d.id != s[0].id
  {
    var t := s[1..];
    forall i, j | 0 <= i < j < |t| ensures t[i].id != t[j].id {
      assert t[i] == s[i + 1] && t[j] == s[j + 1];
    }
    forall d | d in t ensures d.id != s[0].id {
      var k :| 0 <= k < |t| && t[k] == d;
      assert s[k + 1] == d;
    }
  }

  /** A head whose id is not in a unique tail gives a unique sequence. */
  lemma UniqueCons(x: Document, t: seq<Document>)
    requires UniqueIds(t) && forall d :: d in t ==> d.id != x.id
    ensures UniqueIds([x] + t)
  {
    var r := [x] + t;
    forall i, j | 0 <= i < j < |r| ensures r[i].id != r[j].id {
      assert r[j] == t[j - 1] && t[j - 1] in t;
      if i > 0 {
        assert r[i] == t[i - 1];
      }
    }
  }

  /** `removeIf` cannot make ids collide. */
  lemma {:induction false} RemoveWithIdKeepsUnique(s: seq<Document>, id: string)
    requires UniqueIds(s)
    ensures UniqueIds(RemoveWithId(s, id))
  {
    if s != [] {
      UniqueTail(s);
      RemoveWithIdKeepsUnique(s[1..], id);
      if s[0].id != Some(id) {
        UniqueCons(s[0], RemoveWithId(s[1..], id));
      }
    }
  }

  /**
   * A save with a non-null `created`: the saved document is the last entry and
   * the only one with its id; the earlier entries are the old ones with that
   * id dropped, in their old order, every other document kept as often as before.
   */
  lemma SaveWithCreatedReplaces(s: seq<Document>, document: Document, freshId: string, now: Instant)
    requires freshId != [] && document.created.Some?
    ensures var d := Prepare(document, freshId, now);
            var r := Upserted(s, document, freshId, now);
            && r[|r| - 1] == d
            && CountId(r, d.id.value) == 1
            && IsSubsequence(r[..|r| - 1], s)
            && (forall k :: 0 <= k < |r| - 1 ==> r[k].id != d.id)
            && (forall x: Document :: x.id != d.id ==> multiset(r)[x] == multiset(s)[x])
  {
    var d := Prepare(document, freshId, now);
    var rest := RemoveWithId(s, d.id.value);
    var r := rest + [d];
    assert r[..|r| - 1] == rest;
    RemoveWithIdIsSubsequence(s, d.id.value);
    CountIdAppend(rest, d, d.id.value);
    forall k | 0 <= k < |r| - 1 ensures r[k].id != d.id {
      assert r[k] == rest[k] && rest[k] in rest;
    }
  }

  /**
   * A save with a null `created` removes nothing: the old storage is kept as
   * a prefix and one more document with the saved id is appended.
   */
  lemma SaveWithoutCreatedAppends(s: seq<Document>, document: Document, freshId: string, now: Instant)
    requires freshId != [] && document.created.None?
    ensures var d := Prepare(document, freshId, now);
            var r := Upserted(s, document, freshId, now);
            && |r| == |s| + 1
            && r[..|s|] == s
            && CountId(r, d.id.value) == CountId(s, d.id.value) + 1
  {
    var d := Prepare(document, freshId, now);
    CountIdAppend(s, d, d.id.value);
    assert (s + [d])[..|s|] == s;
  }

  /** Re-saving a stored id with a null `created` leaves two documents with that id. */
  lemma SaveWithoutCreatedDuplicates(s: seq<Document>, document: Document, freshId: string, now: Instant, k: nat)
    requires freshId != [] && document.created.None?
    requires !Blank(document.id) && k < |s| && s[k].id == document.id
    ensures !UniqueIds(Upserted(s, document, freshId, now))
    ensures CountId(Upserted(s, document, freshId, now), document.id.value) >= 2
  {
    var r := Upserted(s, document, freshId, now);
    assert r[k] == s[k];
    SaveWithoutCreatedAppends(s, document, freshId, now);
    assert CountId(s, document.id.value) > 0 by {
      assert s[k] in s;
    }
  }

  /** In the non-null `created` branch, distinct ids stay distinct. */
  lemma SaveWithCreatedKeepsUnique(s: seq<Document>, document: Document, freshId: string, now: Instant)
    requires freshId != [] && document.created.Some? && UniqueIds(s)
    ensures UniqueIds(Upserted(s, document, freshId, now))
  {
    var d := Prepare(document, freshId, now);
    var rest := RemoveWithId(s, d.id.value);
    var r := rest + [d];
    RemoveWithIdKeepsUnique(s, d.id.value);
    forall i, j | 0 <= i < j < |r| ensures r[i].id != r[j].id {
      assert r[i] == rest[i];
      if j < |r| - 1 {
        assert r[j] == rest[j];
      } else {
        assert rest[i] in rest;
      }
    }
  }

  /** Every document stored by `save` has an id and a creation time. */
  lemma SaveKeepsComplete(s: seq<Document>, document: Document, freshId: string, now: Instant)
    requires freshId != [] && forall x :: x in s ==> Complete(x)
    ensures forall x :: x in Upserted(s, document, freshId, now) ==> Complete(x)
  {
  }

  /**
   * `findById` on the saved id returns the saved document, whenever the save
   * removed the old entries or no entry had that id (a generated, fresh id).
   */
  lemma FindAfterSave(s: seq<Document>, document: Document, freshId: string, now: Instant)
    requires freshId != []
    requires document.created.Some? || forall x :: x in s ==> x.id != Prepare(document, freshId, now).id
    ensures var d := Prepare(document, freshId, now);
            FindFirst(Upserted(s, document, freshId, now), d.id.value) == Some(d)
  {
    var d := Prepare(document, freshId, now);
    if document.created.Some? {
      FindFirstAfterAppend(RemoveWithId(s, d.id.value), d, d.id.value);
    } else {
      FindFirstAfterAppend(s, d, d.id.value);
    }
  }

  /**
   * Re-saving a stored id with a null `created`: `findById` still returns the
   * older entry, not the one just saved.
   */
  lemma SaveWithoutCreatedIsShadowed(s: seq<Document>, document: Document, freshId: string, now: Instant)
    requires freshId != [] && document.created.None? && !Blank(document.id)
    requires FindFirst(s, document.id.value).Some?
    ensures FindFirst(Upserted(s, document, freshId, now), document.id.value) == FindFirst(s, document.id.value)
  {
    FindFirstAfterAppend(s, Prepare(document, freshId, now), document.id.value);
  }

  /**
   * Re-saving a stored id with a non-null `created` replaces the stored
   * creation time by the caller's: `created` is not preserved.
   */
  lemma SaveWithCreatedOverwritesCreated(s: seq<Document>, document: Document, freshId: string, now: Instant, k: nat)
    requires freshId != [] && document.created.Some? && !Blank(document.id)
    requires k < |s| && s[k].id == document.id && s[k].created != document.created
    ensures var found := FindFirst(Upserted(s, document, freshId, now), document.id.value);
            found.Some? && found.value.created == document.created && found.value.created != s[k].created
  {
    FindAfterSave(s, document, freshId, now);
  }

  /**
   * Saving the same document object twice. Java's first `save` fills in the
   * object's id and `created` in place, so the second `save` of that object,
   * whatever title, content or author the caller set in between, always takes
   * the removing branch: one entry with the id remains, showing the new fields
   * and the first save's `created`.
   */
  lemma SaveSameDocumentTwice(s: seq<Document>, document: Document, freshId1: string, now1: Instant,
                              title: Option<string>, content: Option<string>, author: Option<Author>,
                              freshId2: string, now2: Instant)
    requires freshId1 != [] && freshId2 != []
    ensures var d1 := Prepare(document, freshId1, now1);
            var again := d1.(title := title, content := content, author := author);
            var s2 := Upserted(Upserted(s, document, freshId1, now1), again, freshId2, now2);
            && Prepare(again, freshId2, now2) == again
            && CountId(s2, d1.id.value) == 1
            && FindFirst(s2, d1.id.value) == Some(again)
            && again.created == d1.created
  {
    var d1 := Prepare(document, freshId1, now1);
    var again := d1.(title := title, content := content, author := author);
    SaveWithCreatedReplaces(Upserted(s, document, freshId1, now1), again, freshId2, now2);
    FindAfterSave(Upserted(s, document, freshId1, now1), again, freshId2, now2);
  }
}
