/**
 * The search filter of `save(SearchRequest)`: five constraint groups, AND-ed
 * together; within a group the listed values are OR-ed.
 */
module Search {
  import opened Wrappers
  import opened Strings
  import opened Sequences
  import opened Records

  /** `values == null || values.isEmpty()`: the group imposes no constraint. */
  predicate NoConstraint(values: Option<seq<string>>) {
    values.None? || |values.value| == 0
  }

  /** Some prefix is a prefix of the (non-null) title. */
  predicate TitleMatches(prefixes: Option<seq<string>>, title: Option<string>) {
    NoConstraint(prefixes) ||
    AnyMatch(prefixes.value, prefix => title.Some? && StartsWith(title.value, prefix))
  }

  /** Some listed string occurs in the (non-null) content. */
  predicate ContentMatches(contents: Option<seq<string>>, content: Option<string>) {
    NoConstraint(contents) ||
    AnyMatch(contents.value, sub => content.Some? && Contains(content.value, sub))
  }

  /** Some listed id equals the id of the (non-null) author. */
  predicate AuthorMatches(authorIds: Option<seq<string>>, author: Option<Author>) {
    NoConstraint(authorIds) ||
    AnyMatch(authorIds.value, authorId => author.Some? && author.value.id == Some(authorId))
  }

  /** The (non-null) creation time is not before the lower bound. */
  predicate FromMatches(createdFrom: Option<Instant>, created: Option<Instant>) {
    createdFrom.None? || (created.Some? && !IsBefore(created.value, createdFrom.value))
  }

  /** The (non-null) creation time is not after the upper bound. */
  predicate ToMatches(createdTo: Option<Instant>, created: Option<Instant>) {
    createdTo.None? || (created.Some? && !IsAfter(created.value, createdTo.value))
  }

  /** The filter lambda of the search stream. */
  predicate Matches(request: SearchRequest, d: Document) {
    && TitleMatches(request.titlePrefixes, d.title)
    && ContentMatches(request.containsContents, d.content)
    && AuthorMatches(request.authorIds, d.author)
    && FromMatches(request.createdFrom, d.created)
    && ToMatches(request.createdTo, d.created)
  }

  /**
   * `storage.stream().filter(...).collect(toList())`: every matching document
   * is kept as often as it is stored, every other one is dropped.
   */
  function Filter(s: seq<Document>, request: SearchRequest): (r: seq<Document>)
    ensures forall d :: multiset(r)[d] == if Matches(request, d) then multiset(s)[d] else 0
  {
    if s == [] then []
    else
      assert s == [s[0]] + s[1..];
      if Matches(request, s[0]) then [s[0]] + Filter(s[1..], request)
      else Filter(s[1..], request)
  }

  /** The filter keeps the storage order. */
  lemma {:induction false} FilterIsSubsequence(s: seq<Document>, request: SearchRequest)
    ensures IsSubsequence(Filter(s, request), s)
  {
    if s != [] {
      FilterIsSubsequence(s[1..], request);
    }
  }

  /** A document is in the result exactly when it is stored and matches every group. */
  lemma FilterMembership(s: seq<Document>, request: SearchRequest, d: Document)
    ensures d in Filter(s, request) <==>
      && d in s
      && TitleMatches(request.titlePrefixes, d.title)
      && ContentMatches(request.containsContents, d.content)
      && AuthorMatches(request.authorIds, d.author)
      && FromMatches(request.createdFrom, d.created)
      && ToMatches(request.createdTo, d.created)
  {
    assert d in Filter(s, request) <==> multiset(Filter(s, request))[d] > 0;
  }

  /** The title group: a non-null title starting with one of the prefixes. */
  lemma TitleGroup(prefixes: Option<seq<string>>, title: Option<string>)
    ensures TitleMatches(prefixes, title) <==>
      NoConstraint(prefixes) || (title.Some? && exists p :: p in prefixes.value && p <= title.value)
  {
    if !NoConstraint(prefixes) {
      AnyMatchIff(prefixes.value, prefix => title.Some? && StartsWith(title.value, prefix));
    }
  }

  /** The content group: a non-null content in which one of the strings occurs. */
  lemma ContentGroup(contents: Option<seq<string>>, content: Option<string>)
    ensures ContentMatches(contents, content) <==>
      NoConstraint(contents) ||
      (content.Some? && exists c, i :: c in contents.value && 0 <= i <= |content.value| && OccursAt(content.value, c, i))
  {
    if !NoConstraint(contents) {
      var p := sub => content.Some? && Contains(content.value, sub);
      AnyMatchIff(contents.value, p);
      if content.Some? {
        forall c | c in contents.value
          ensures p(c) <==> exists i :: 0 <= i <= |content.value| && OccursAt(content.value, c, i)
        {
          ContainsIff(content.value, c);
        }
      }
    }
  }

  /** The author group: a non-null author whose non-null id is one of the ids. */
  lemma AuthorGroup(authorIds: Option<seq<string>>, author: Option<Author>)
    ensures AuthorMatches(authorIds, author) <==>
      NoConstraint(authorIds) || (author.Some? && author.value.id.Some? && author.value.id.value in authorIds.value)
  {
    if !NoConstraint(authorIds) {
      AnyMatchIff(authorIds.value, authorId => author.Some? && author.value.id == Some(authorId));
    }
  }

  /** A document lacking the field a non-empty group tests fails that group. */
  lemma MissingFieldFailsGroup(request: SearchRequest, d: Document)
    ensures !NoConstraint(request.titlePrefixes) && d.title.None? ==> !TitleMatches(request.titlePrefixes, d.title)
    ensures !NoConstraint(request.containsContents) && d.content.None? ==> !ContentMatches(request.containsContents, d.content)
    ensures !NoConstraint(request.authorIds) && d.author.None? ==> !AuthorMatches(request.authorIds, d.author)
    ensures (request.createdFrom.Some? || request.createdTo.Some?) && d.created.None? ==> !Matches(request, d)
  {
    TitleGroup(request.titlePrefixes, d.title);
    ContentGroup(request.containsContents, d.content);
    AuthorGroup(request.authorIds, d.author);
  }

  /** Both date bounds are inclusive. */
  lemma DateBoundsInclusive(createdFrom: Option<Instant>, createdTo: Option<Instant>, created: Option<Instant>)
    ensures FromMatches(createdFrom, created) <==> createdFrom.None? || (created.Some? && createdFrom.value <= created.value)
    ensures ToMatches(createdTo, created) <==> createdTo.None? || (created.Some? && created.value <= createdTo.value)
  {
  }

  /** A request whose groups are all absent or empty. */
  predicate Unconstrained(request: SearchRequest) {
    && NoConstraint(request.titlePrefixes)
    && NoConstraint(request.containsContents)
    && NoConstraint(request.authorIds)
    && request.createdFrom.None?
    && request.createdTo.None?
  }

  /** A request with every group absent or empty returns the whole storage, as a null request does. */
  lemma {:induction false} UnconstrainedKeepsAll(s: seq<Document>, request: SearchRequest)
    requires Unconstrained(request)
    ensures Filter(s, request) == s
  {
    if s != [] {
      UnconstrainedKeepsAll(s[1..], request);
    }
  }

  /**
   * With stored titles "Report A", "Report B" and "Notes", the prefix "Report"
   * selects the first two, in storage order.
   */
  lemma TitlePrefixExample()
    ensures var a := Document(Some("1"), Some("Report A"), None, None, Some(1));
            var b := Document(Some("2"), Some("Report B"), None, None, Some(2));
            var n := Document(Some("3"), Some("Notes"), None, None, Some(3));
            Filter([a, b, n], SearchRequest(Some(["Report"]), None, None, None, None)) == [a, b]
  {
    var a := Document(Some("1"), Some("Report A"), None, None, Some(1));
    var b := Document(Some("2"), Some("Report B"), None, None, Some(2));
    var n := Document(Some("3"), Some("Notes"), None, None, Some(3));
    var request := SearchRequest(Some(["Report"]), None, None, None, None);
    assert [a, b, n][1..] == [b, n] && [b, n][1..] == [n];
    assert Matches(request, a) by {
      assert StartsWith("Report A", "Report");
    }
    assert Matches(request, b) by {
      assert StartsWith("Report B", "Report");
    }
    assert !Matches(request, n) by {
      assert "Notes"[0] != "Report"[0];
      TitleGroup(request.titlePrefixes, n.title);
    }
  }

  /**
   * Groups are AND-ed: a document whose title matches but whose author does
   * not is left out.
   */
  lemma GroupsAreConjoined(s: seq<Document>, request: SearchRequest, d: Document)
    requires TitleMatches(request.titlePrefixes, d.title) && !AuthorMatches(request.authorIds, d.author)
    ensures d !in Filter(s, request)
  {
    FilterMembership(s, request, d);
  }
}
