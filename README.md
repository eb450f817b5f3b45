# DocumentManager, modelled in Dafny

A model of `DocumentManager`, an in-memory document store. It keeps one list
of documents in insertion order and offers three operations:

- `save(Document)` is an upsert. A null or empty id is replaced by a generated
  UUID. A null `created` is set to the current instant. Only when the caller
  supplied a `created` are the stored documents with the same id removed. The
  document is then appended.
- `save(SearchRequest)` is the search. It is named `Search` here. A null
  request returns every stored document. Otherwise a document is returned
  when it passes all five constraint groups: title prefixes, content
  substrings, author ids, and the lower and upper bounds on `created`. Within a
  group, one matching value is enough. A null or empty list imposes no
  constraint, and both date bounds are inclusive.
- `findById` returns the first stored document with the given id. A null or
  empty id gives "not found".

Java `null` becomes `Option.None`. `Instant` becomes an integer, since the
store only compares instants with `isBefore` and `isAfter`. The generated UUID
and `Instant.now()` are parameters of `Save` (`freshId`, `now`). Lemmas that
rely on a generated id being unused ask for that explicitly.

Files:
- `records.dfy` holds the records.
- `strings.dfy` holds `startsWith`, `indexOf`/`contains` and `anyMatch`.
- `sequences.dfy` holds order-preserving subsequences.
- `lookup.dfy` holds the `findById` stream.
- `upsert.dfy` holds the save policy and its lemmas.
- `search.dfy` holds the filter and its lemmas.
- `manager.dfy` holds the `DocumentManager` class. Its `storage` field is a
  sequence that `Save` reassigns. `Search` and `FindById` are functions that
  only read it, so neither can change the store.

The model follows the code where the class's doc comment promises otherwise.
The doc comment on `save` (DocumentManager.java:27-28) calls it an upsert,
asks for a unique id, and says "don't change [created] field". An upsert
suggests one document per id. The code guarantees neither that nor an
unchanged `created`:

- A re-save that carries a non-null `created` replaces the stored creation
  time with the caller's (`SaveWithCreatedOverwritesCreated`).
- A re-save with a null `created` removes nothing. It appends a second
  document with the same id (`SaveWithoutCreatedDuplicates`), and `findById`
  keeps returning the older one (`SaveWithoutCreatedIsShadowed`).
- Id uniqueness is proved only for the branch that removes
  (`SaveWithCreatedKeepsUnique`).

The predicates that make up the filter and the string helpers carry no
contract of their own; each is characterised by a lemma in the table below:
`StartsWith` (line 69) by `TitleGroup`; `Contains` (line 73) by `ContainsIff`;
`AnyMatch` (lines 68-77) by `AnyMatchIff`; `TitleMatches` (lines 68-69) by
`TitleGroup`; `ContentMatches` (lines 71-73) by `ContentGroup`;
`AuthorMatches` (lines 75-77) by `AuthorGroup`; `FromMatches` and `ToMatches`
(lines 79-83) by `DateBoundsInclusive`; `Matches`, the filter lambda (lines
67-86), by `FilterMembership`; and `Blank`, Java's `s == null || s.isEmpty()`
(lines 35 and 100), by `Prepare` and `DocumentManager.FindById`.

## Model

| member | source | states |
|---|---|---|
| `Strings.IndexOf` | src/main/java/org/example/DocumentManager.java:73 | the position returned by `indexOf`, when not -1, is at or after the start and holds an occurrence of the searched string |
| `Strings.IndexOfIsFirst` | src/main/java/org/example/DocumentManager.java:73 | `indexOf` returns -1 exactly when there is no occurrence, and otherwise no earlier position holds one |
| `Strings.ContainsIff` | src/main/java/org/example/DocumentManager.java:73 | `contains` holds iff the string occurs at some position; the empty string is contained in every string |
| `Strings.AnyMatchIff` | src/main/java/org/example/DocumentManager.java:68-77 | `anyMatch` holds iff some listed value satisfies the predicate |
| `Lookup.FindFirst` | src/main/java/org/example/DocumentManager.java:104-106 | a found document is stored and has the id; "not found" iff no stored document has the id |
| `Lookup.FindFirstIsFirst` | src/main/java/org/example/DocumentManager.java:104-106 | the found document is the one at the first position holding the id |
| `Lookup.FindFirstAfterAppend` | src/main/java/org/example/DocumentManager.java:104-106 | after an append, the lookup still returns an earlier match if there is one; otherwise it returns the appended document when its id matches |
| `Upsert.Prepare` | src/main/java/org/example/DocumentManager.java:35-42 | the saved document has a non-empty id and a creation time; a non-empty id and a non-null `created` are kept as given; a null or empty id becomes the fresh id and a null `created` becomes now; title, content and author are unchanged |
| `Upsert.RemoveWithId` | src/main/java/org/example/DocumentManager.java:44 | `removeIf` leaves only stored documents without the id, and keeps every other document as many times as before |
| `Upsert.Upserted` | src/main/java/org/example/DocumentManager.java:39-48 | after `save`, the saved document is the last entry of the storage |
| `Upsert.RemoveWithIdIsSubsequence` | src/main/java/org/example/DocumentManager.java:44 | `removeIf` keeps the remaining documents in their original order |
| `Upsert.RemoveWithIdKeepsUnique` | src/main/java/org/example/DocumentManager.java:44 | `removeIf` on storage with distinct ids leaves distinct ids |
| `Upsert.SaveWithCreatedReplaces` | src/main/java/org/example/DocumentManager.java:43-47 | with a non-null `created`, the saved document is the last entry and the only one with its id; the entries before it are a subsequence of the old storage, holding every document with another id exactly as often as before |
| `Upsert.SaveWithoutCreatedAppends` | src/main/java/org/example/DocumentManager.java:39-48 | with a null `created`, the storage grows by exactly one, the old storage stays as its prefix, and the count of the saved id rises by one |
| `Upsert.SaveWithoutCreatedDuplicates` | src/main/java/org/example/DocumentManager.java:39-48 | re-saving a stored id with a null `created` leaves at least two documents with that id, so ids are no longer unique |
| `Upsert.SaveWithCreatedKeepsUnique` | src/main/java/org/example/DocumentManager.java:43-47 | with a non-null `created`, storage with distinct ids keeps distinct ids |
| `Upsert.SaveKeepsComplete` | src/main/java/org/example/DocumentManager.java:35-47 | if every stored document has an id and a creation time, this still holds after `save` |
| `Upsert.FindAfterSave` | src/main/java/org/example/DocumentManager.java:33-48 | after `save`, a lookup of the saved id returns the saved document, whenever `created` was given or the id was not stored before |
| `Upsert.SaveWithoutCreatedIsShadowed` | src/main/java/org/example/DocumentManager.java:39-47 | after re-saving a stored id with a null `created`, a lookup still returns the older stored document |
| `Upsert.SaveWithCreatedOverwritesCreated` | src/main/java/org/example/DocumentManager.java:43-47 | re-saving a stored id with a different non-null `created` makes the lookup return the caller's `created`, not the stored one |
| `Upsert.SaveSameDocumentTwice` | src/main/java/org/example/DocumentManager.java:33-49 | saving a document, then saving the same (now completed) object again with new title, content or author takes the removing branch: exactly one entry with the id remains, the lookup returns it with the new fields, and `created` is the first save's |
| `Search.Filter` | src/main/java/org/example/DocumentManager.java:66-87 | each document appears in the result as often as it is stored if it matches the request, and not at all otherwise |
| `Search.FilterIsSubsequence` | src/main/java/org/example/DocumentManager.java:66-87 | the result is an order-preserving subsequence of the storage |
| `Search.FilterMembership` | src/main/java/org/example/DocumentManager.java:66-87 | a document is in the result iff it is stored and passes the title, content, author, from and to groups |
| `Search.TitleGroup` | src/main/java/org/example/DocumentManager.java:68-69 | the title group passes iff the prefix list is null or empty, or the title is non-null and some listed string is a prefix of it |
| `Search.ContentGroup` | src/main/java/org/example/DocumentManager.java:71-73 | the content group passes iff the list is null or empty, or the content is non-null and some listed string occurs in it |
| `Search.AuthorGroup` | src/main/java/org/example/DocumentManager.java:75-77 | the author group passes iff the list is null or empty, or the author and its id are non-null and the id is listed |
| `Search.MissingFieldFailsGroup` | src/main/java/org/example/DocumentManager.java:68-83 | a null title, content or author fails its group when that group's list is non-empty; a null `created` fails whenever a bound is given |
| `Search.DateBoundsInclusive` | src/main/java/org/example/DocumentManager.java:79-83 | the from and to groups pass iff the bound is absent or `from <= created` (resp. `created <= to`), so equality passes |
| `Search.UnconstrainedKeepsAll` | src/main/java/org/example/DocumentManager.java:61-87 | a request with every group null or empty returns the whole storage, as a null request does |
| `Search.TitlePrefixExample` | src/main/java/org/example/DocumentManager.java:68-69 | with titles "Report A", "Report B" and "Notes", prefix "Report" returns the first two in storage order |
| `Search.GroupsAreConjoined` | src/main/java/org/example/DocumentManager.java:85 | a document that passes the title group but fails the author group is not returned |
| `Manager.DocumentManager.constructor` | src/main/java/org/example/DocumentManager.java:24 | a new store is empty and valid |
| `Manager.DocumentManager.Save` | src/main/java/org/example/DocumentManager.java:33-49 | returns the prepared document; with a non-null `created` the new storage is the old one without that id plus the document, otherwise the old one plus the document; every stored document keeps an id and a creation time |
| `Manager.DocumentManager.Search` | src/main/java/org/example/DocumentManager.java:58-91 | a null request returns the storage; the result is always an order-preserving subsequence of the storage; a document is in it iff it is stored and matches; matching documents keep their multiplicity |
| `Manager.DocumentManager.FindById` | src/main/java/org/example/DocumentManager.java:99-107 | null or empty id gives "not found"; a found document is stored and has the id; "not found" iff no stored document has the id; the first position with the id is the one returned |
| `Manager.ValidStorageHasIds` | src/main/java/org/example/DocumentManager.java:44 | in a valid store every stored id is present and non-empty, and so is every id that `removeIf` keeps, so in the model its predicate never meets a null id |
| `Manager.SaveThenFind` | src/main/java/org/example/DocumentManager.java:33-107 | a document saved without an id gets a non-empty id, and `findById` on it returns exactly the saved document |

## Left out

- Logging through SLF4J: it has no effect on any result.
- `UUID.randomUUID()` and `Instant.now()`: they are the parameters `freshId` (assumed non-empty) and `now` of `Save`. The freshness of a generated id is a precondition only of the lemmas that need it.
- Reference aliasing: Java mutates the caller's `Document` in place, stores that same object, and the search result is a new `ArrayList`. Here documents are values: `Save` returns the completed document, and the sequences are immutable. Re-saving the same Java object is modelled by saving that returned document again (`SaveSameDocumentTwice`).
- Null elements inside the request lists: the lists are sequences of non-null strings, so requests with null elements are not modelled. Java throws a `NullPointerException` only when it actually evaluates such an element: `anyMatch` stops at the first match, and each lambda tests the document's field first. So `startsWith(null)` runs only for a document with a non-null title that no earlier prefix matched (line 69), `contains(null)` only for a non-null content (line 73), and `null.equals(...)` only for a non-null author (line 77). Otherwise, for example on an empty store, Java returns a list normally.
- A stored document with a null id: `removeIf` would throw on it (line 44). In the model the store never holds one, since `Valid` keeps every stored id non-empty (`ValidStorageHasIds`), and `RemoveWithId` simply keeps such a document. In Java this exception can still happen through aliasing: `save`, `findById` and the search hand out the stored objects themselves (lines 47-48, 66-87, 104-106), so a caller can write `manager.save(doc).setId(null)` and the next `save` with a non-null `created` throws. Aliasing is left out (see "Reference aliasing").
- `save(null)`: Java throws a `NullPointerException` at `document.getId()` (line 35). `Save` takes a document value, which cannot be null, so this case is not modelled.
- UTF-16 strings: a Java `String` is a sequence of UTF-16 code units, and `isEmpty`, `startsWith`, `contains` and `equals` compare code units (lines 35, 69, 73, 77, 100, 105). A Dafny `string` holds Unicode scalar values, so Java strings containing a lone surrogate cannot be represented. The two agree on well-formed strings.
- Concurrency: the class is documented as not thread-safe and has no synchronisation.
- Nanosecond structure of `Instant`: instants are integers compared with `<`.
- Lombok-generated builders, accessors, `equals` and `hashCode`: the records are datatypes with structural equality.
