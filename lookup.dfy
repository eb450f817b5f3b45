/** Point lookup: `documentStorage.stream().filter(doc -> id.equals(doc.getId())).findFirst()`. */
module Lookup {
  import opened Wrappers
  import opened Records

  /** The first document of `s`, in storage order, whose id is `id`. */
  function FindFirst(s: seq<Document>, id: string): (r: Option<Document>)
    ensures r.Some? ==> r.value in s && r.value.id == Some(id)
    ensures r.None? <==> forall d :: d in s ==> d.id != Some(id)
  {
    if s == [] then None
    else if s[0].id == Some(id) then Some(s[0])
    else FindFirst(s[1..], id)
  }

  /** The document found is the one at the first position holding that id. */
  lemma {:induction false} FindFirstIsFirst(s: seq<Document>, id: string, k: nat)
    requires k < |s| && s[k].id == Some(id)
    requires forall j :: 0 <= j < k ==> s[j].id != Some(id)
    ensures FindFirst(s, id) == Some(s[k])
  {
    if k > 0 {
      assert s[0].id != Some(id);
      FindFirstIsFirst(s[1..], id, k - 1);
    }
  }

  /** `FindFirstIsFirst` for every position at once. */
  lemma FindFirstIsFirstEverywhere(s: seq<Document>, id: string)
    ensures forall k :: 0 <= k < |s| && s[k].id == Some(id) && (forall j :: 0 <= j < k ==> s[j].id != Some(id))
              ==> FindFirst(s, id) == Some(s[k])
  {
    forall k | 0 <= k < |s| && s[k].id == Some(id) && (forall j :: 0 <= j < k ==> s[j].id != Some(id))
      ensures FindFirst(s, id) == Some(s[k])
    {
      FindFirstIsFirst(s, id, k);
    }
  }

  /** Appending a document is only seen by the lookup when no earlier document has the id. */
  lemma {:induction false} FindFirstAfterAppend(s: seq<Document>, d: Document, id: string)
    ensures FindFirst(s + [d], id) ==
      if FindFirst(s, id).Some? then FindFirst(s, id)
      else if d.id == Some(id) then Some(d)
      else None
  {
    if s != [] {
      assert (s + [d])[1..] == s[1..] + [d];
      FindFirstAfterAppend(s[1..], d, id);
    }
  }
}
