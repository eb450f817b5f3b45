/**
 * The few pieces of `java.lang.String` and `java.util.stream.Stream` that the
 * search filter relies on: `startsWith`, `contains` (via `indexOf`) and
 * `anyMatch`, each with an independent characterisation.
 */
module Strings {

  /** `s.startsWith(prefix)`. */
  predicate StartsWith(s: string, prefix: string) {
    prefix <= s
  }

  /** `sub` occurs in `s` starting at position `i`. */
  predicate OccursAt(s: string, sub: string, i: nat) {
    i + |sub| <= |s| && s[i..i + |sub|] == sub
  }

  /**
   * `s.indexOf(sub, from)`: the first position at or after `from` where `sub`
   * occurs, or -1 when there is none.
   */
  function IndexOf(s: string, sub: string, from: nat): (r: int)
    requires from <= |s|
    decreases |s| - from
    ensures r == -1 || (from <= r && OccursAt(s, sub, r))
  {
    if from + |sub| > |s| then -1
    else if s[from..from + |sub|] == sub then from
    else IndexOf(s, sub, from + 1)
  }

  /** `s.contains(sub)`, which Java defines as `indexOf(sub) >= 0`. */
  predicate Contains(s: string, sub: string) {
    IndexOf(s, sub, 0) >= 0
  }

  /** `indexOf` finds the first occurrence, and answers -1 exactly when there is none. */
  lemma {:induction false} IndexOfIsFirst(s: string, sub: string, from: nat)
    requires from <= |s|
    ensures IndexOf(s, sub, from) == -1 <==> forall i :: from <= i <= |s| ==> !OccursAt(s, sub, i)
    ensures forall i :: from <= i < IndexOf(s, sub, from) ==> !OccursAt(s, sub, i)
    decreases |s| - from
  {
    if from + |sub| > |s| {
    } else if s[from..from + |sub|] == sub {
    } else {
      IndexOfIsFirst(s, sub, from + 1);
    }
  }

  /** `contains` holds exactly when `sub` occurs somewhere in `s`; the empty string occurs everywhere. */
  lemma ContainsIff(s: string, sub: string)
    ensures Contains(s, sub) <==> exists i :: 0 <= i <= |s| && OccursAt(s, sub, i)
    ensures sub == [] ==> Contains(s, sub)
  {
    IndexOfIsFirst(s, sub, 0);
    if sub == [] {
      assert OccursAt(s, sub, 0);
    }
  }

  /** `values.stream().anyMatch(p)`: scans the values in order until one satisfies `p`. */
  predicate AnyMatch(values: seq<string>, p: string -> bool) {
    |values| > 0 && (p(values[0]) || AnyMatch(values[1..], p))
  }

  /** `anyMatch` holds exactly when some value satisfies the predicate. */
  lemma {:induction false} AnyMatchIff(values: seq<string>, p: string -> bool)
    ensures AnyMatch(values, p) <==> exists v :: v in values && p(v)
  {
    if |values| > 0 {
      AnyMatchIff(values[1..], p);
      assert values == [values[0]] + values[1..];
    }
  }
}
