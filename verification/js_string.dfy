/** JavaScript's `indexOf` and `includes` over strings of Unicode scalar
    values, specified in terms of occurrences of one string in another. */
module JsString {

  datatype Option<+T> = None | Some(value: T)

  /** `r` is a contiguous piece of `s`. */
  ghost predicate IsInfix(r: string, s: string) {
    exists a, b :: 0 <= a <= b <= |s| && r == s[a..b]
  }

  /** `p` occurs in `s` starting at index `i`. */
  ghost predicate OccursAt(s: string, p: string, i: int) {
    0 <= i && i + |p| <= |s| && s[i..i + |p|] == p
  }

  ghost predicate Occurs(s: string, p: string) {
    exists i :: OccursAt(s, p, i)
  }

  /** `i` is where `p` occurs in `s` for the first time. */
  ghost predicate FirstOccurrence(s: string, p: string, i: int) {
    OccursAt(s, p, i) && forall j :: 0 <= j < i ==> !OccursAt(s, p, j)
  }

  /** Leftmost occurrence of `p` in `s` at or after index `k`. */
  function IndexOfFrom(s: string, p: string, k: nat): (r: Option<nat>)
    ensures r.Some? ==> k <= r.value && OccursAt(s, p, r.value)
    ensures r.Some? ==> forall j :: k <= j < r.value ==> !OccursAt(s, p, j)
    ensures r.None? ==> forall j :: k <= j ==> !OccursAt(s, p, j)
    decreases |s| - k
  {
    if |s| < k + |p| then None
    else if s[k..k + |p|] == p then Some(k)
    else IndexOfFrom(s, p, k + 1)
  }

  /** `s.indexOf(p)`, with `None` standing for JavaScript's `-1`. */
  function IndexOf(s: string, p: string): (r: Option<nat>)
    ensures r.Some? <==> Occurs(s, p)
    ensures r.Some? ==> FirstOccurrence(s, p, r.value)
  {
    IndexOfFrom(s, p, 0)
  }

  /** `s.includes(p)`. */
  function Includes(s: string, p: string): (r: bool)
    ensures r <==> Occurs(s, p)
  {
    IndexOf(s, p).Some?
  }

  /** An occurrence inside the piece `s[a..b]` is an occurrence in `s`, shifted by `a`. */
  lemma OccursInSlice(s: string, a: int, b: int, p: string, j: int)
    requires 0 <= a <= b <= |s| && OccursAt(s[a..b], p, j)
    ensures OccursAt(s, p, a + j)
  {
    forall k | 0 <= k < |p| ensures s[a + j..a + j + |p|][k] == p[k] {
      assert s[a..b][j..j + |p|][k] == p[k];
    }
  }

  /** A piece of a string that avoids `p` avoids it too. */
  lemma InfixAvoids(r: string, s: string, p: string)
    requires IsInfix(r, s) && !Occurs(s, p)
    ensures !Occurs(r, p)
  {
    var a, b :| 0 <= a <= b <= |s| && r == s[a..b];
    forall j | OccursAt(r, p, j) ensures OccursAt(s, p, a + j) {
      OccursInSlice(s, a, b, p, j);
    }
  }

  /** The text before the first occurrence of a non-empty `p` does not contain it. */
  lemma PrefixBeforeFirstAvoids(s: string, p: string, i: int)
    requires |p| > 0 && FirstOccurrence(s, p, i)
    ensures !Occurs(s[..i], p)
  {
    forall j | OccursAt(s[..i], p, j) ensures OccursAt(s, p, j) {
      OccursInSlice(s, 0, i, p, j);
    }
  }

  /** A pattern with a character that never appears in `s` does not occur in it. */
  lemma AbsentCharAvoids(s: string, p: string, k: int)
    requires 0 <= k < |p| && p[k] !in s
    ensures !Occurs(s, p)
  {
    forall j | 0 <= j && j + |p| <= |s| ensures !OccursAt(s, p, j) {
      assert s[j..j + |p|][k] == s[j + k];
    }
  }

  /** When the first character of `p` does not recur inside `p`, an occurrence
      cannot straddle the end of `a`: if `a` avoids `p`, the first occurrence of
      `p` in `a + p + rest` is right after `a`. */
  lemma FirstOccurrenceAfterAvoiding(a: string, p: string, rest: string)
    requires |p| > 0 && p[0] !in p[1..] && !Occurs(a, p)
    ensures FirstOccurrence(a + p + rest, p, |a|)
  {
    var s := a + p + rest;
    assert s[|a|..|a| + |p|] == p;
    forall j | 0 <= j < |a| ensures !OccursAt(s, p, j) {
      if j + |p| <= |a| {
        assert s[j..j + |p|] == a[j..j + |p|];
        assert !OccursAt(a, p, j);
      } else {
        var k := |a| - j;
        assert s[j..j + |p|][k] == s[|a|] == p[0];
        assert p[k] == p[1..][k - 1];
        assert s[j..j + |p|][k] != p[k];
      }
    }
  }
}
