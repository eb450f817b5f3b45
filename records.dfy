/**
 * The records of `DocumentManager`: `Document`, `Author` and `SearchRequest`.
 * Every reference-typed field may be `null` in Java and is an `Option` here.
 */
module Records {
  import opened Wrappers

  /**
   * A `java.time.Instant`, as a count of time units; the store only compares
   * instants, with `isBefore` and `isAfter`.
   */
  type Instant = int

  /** `a.isBefore(b)`. */
  predicate IsBefore(a: Instant, b: Instant) {
    a < b
  }

  /** `a.isAfter(b)`. */
  predicate IsAfter(a: Instant, b: Instant) {
    a > b
  }

  datatype Author = Author(id: Option<string>, name: Option<string>)

  datatype Document = Document(
    id: Option<string>,
    title: Option<string>,
    content: Option<string>,
    author: Option<Author>,
    created: Option<Instant>)

  datatype SearchRequest = SearchRequest(
    titlePrefixes: Option<seq<string>>,
    containsContents: Option<seq<string>>,
    authorIds: Option<seq<string>>,
    createdFrom: Option<Instant>,
    createdTo: Option<Instant>)

  /** `s == null || s.isEmpty()`. */
  predicate Blank(s: Option<string>) {
    s.None? || |s.value| == 0
  }
}
