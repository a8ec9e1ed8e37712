/** JavaScript's `String.prototype.trim`: the text between the leading and the
    trailing run of whitespace. */
module JsTrim {
  import opened JsString

  /** The characters `trim` strips: ECMAScript's WhiteSpace production (tab,
      vertical tab, form feed, space, no-break space, byte-order mark and every
      other space separator) and its LineTerminator production (LF, CR, line
      and paragraph separators). */
  predicate IsWhitespace(c: char) {
    || c == '\t' || c == '\U{000B}' || c == '\U{000C}' || c == ' '
    || c == '\U{00A0}' || c == '\U{FEFF}' || c == '\U{1680}'
    || ('\U{2000}' <= c <= '\U{200A}')
    || c == '\U{202F}' || c == '\U{205F}' || c == '\U{3000}'
    || c == '\n' || c == '\r' || c == '\U{2028}' || c == '\U{2029}'
  }

  ghost predicate AllWhitespace(s: string) {
    forall k :: 0 <= k < |s| ==> IsWhitespace(s[k])
  }

  /** Where the leading run of whitespace ends. */
  function LeadingEnd(s: string): (n: nat)
    ensures n <= |s|
    ensures forall k :: 0 <= k < n ==> IsWhitespace(s[k])
    ensures n < |s| ==> !IsWhitespace(s[n])
  {
    if |s| > 0 && IsWhitespace(s[0]) then
      var n := LeadingEnd(s[1..]);
      assert forall k :: 1 <= k < n + 1 ==> s[k] == s[1..][k - 1];
      n + 1
    else
      0
  }

  /** Where the trailing run of whitespace starts. */
  function TrailingStart(s: string): (n: nat)
    ensures n <= |s|
    ensures forall k :: n <= k < |s| ==> IsWhitespace(s[k])
    ensures 0 < n ==> !IsWhitespace(s[n - 1])
  {
    if |s| > 0 && IsWhitespace(s[|s| - 1]) then
      var n := TrailingStart(s[..|s| - 1]);
      assert forall k :: n <= k < |s| - 1 ==> s[k] == s[..|s| - 1][k];
      n
    else
      |s|
  }

  /** `s.trim()`: the piece of `s` left after stripping whitespace at both ends. */
  function Trim(s: string): (r: string)
    ensures IsInfix(r, s)
    ensures r == [] || (!IsWhitespace(r[0]) && !IsWhitespace(r[|r| - 1]))
    ensures r == [] <==> AllWhitespace(s)
  {
    var a := LeadingEnd(s);
    var t := s[a..];
    var b := TrailingStart(t);
    TrimFacts(s);
    t[..b]
  }

  lemma TrimFacts(s: string)
    ensures var a := LeadingEnd(s);
            var r := s[a..][..TrailingStart(s[a..])];
            && a + |r| <= |s| && r == s[a..a + |r|]
            && (r == [] || (!IsWhitespace(r[0]) && !IsWhitespace(r[|r| - 1])))
            && (r == [] <==> AllWhitespace(s))
  {
    var a := LeadingEnd(s);
    var t := s[a..];
    var b := TrailingStart(t);
    var r := t[..b];
    assert r == s[a..a + b];
    if r != [] {
      assert r[0] == s[a] && r[|r| - 1] == t[b - 1];
    }
    if a < |s| {
      assert t[0] == s[a];
    }
  }

  /** An occurrence of a pattern with non-whitespace ends survives trimming. */
  lemma TrimKeepsOccurrence(s: string, p: string, j: int)
    requires |p| > 0 && !IsWhitespace(p[0]) && !IsWhitespace(p[|p| - 1])
    requires OccursAt(s, p, j)
    ensures Occurs(Trim(s), p)
  {
    var a := LeadingEnd(s);
    var t := s[a..];
    var b := TrailingStart(t);
    assert s[j] == s[j..j + |p|][0];
    assert a <= j;
    assert t[j - a + |p| - 1] == s[j..j + |p|][|p| - 1];
    assert j - a + |p| <= b;
    assert t[..b][j - a..j - a + |p|] == s[j..j + |p|];
    assert OccursAt(Trim(s), p, j - a);
  }

  /** Trimming keeps a prefix whose first and last characters are not whitespace. */
  lemma TrimKeepsPrefix(p: string, s: string)
    requires |p| > 0 && p <= s
    requires !IsWhitespace(p[0]) && !IsWhitespace(p[|p| - 1])
    ensures p <= Trim(s)
  {
    assert s[..|p|] == p;
    assert s[0] == p[0] && s[|p| - 1] == p[|p| - 1];
    assert LeadingEnd(s) == 0;
    assert s[0..] == s;
    assert |p| <= TrailingStart(s);
  }

  lemma {:induction false} LeadingEndOfPadded(lead: string, rest: string)
    requires AllWhitespace(lead)
    requires rest != [] && !IsWhitespace(rest[0])
    ensures LeadingEnd(lead + rest) == |lead|
  {
    if lead != [] {
      assert (lead + rest)[1..] == lead[1..] + rest;
      LeadingEndOfPadded(lead[1..], rest);
    }
  }

  lemma {:induction false} TrailingStartOfPadded(core: string, trail: string)
    requires AllWhitespace(trail)
    requires core != [] && !IsWhitespace(core[|core| - 1])
    ensures TrailingStart(core + trail) == |core|
  {
    if trail != [] {
      var n := |trail| - 1;
      assert (core + trail)[..|core + trail| - 1] == core + trail[..n];
      TrailingStartOfPadded(core, trail[..n]);
    } else {
      assert core + trail == core;
    }
  }

  /** Trimming whitespace around a core that already has non-whitespace ends gives
      back exactly that core: together with the contract of `Trim`, this pins its
      result down uniquely. */
  lemma {:induction false} TrimOfPadded(lead: string, core: string, trail: string)
    requires AllWhitespace(lead) && AllWhitespace(trail)
    requires core == [] || (!IsWhitespace(core[0]) && !IsWhitespace(core[|core| - 1]))
    ensures Trim(lead + core + trail) == core
  {
    var s := lead + core + trail;
    if core == [] {
      assert s == lead + trail;
      assert forall k :: 0 <= k < |s| ==> s[k] == if k < |lead| then lead[k] else trail[k - |lead|];
    } else {
      assert s == lead + (core + trail);
      LeadingEndOfPadded(lead, core + trail);
      assert s[|lead|..] == core + trail;
      TrailingStartOfPadded(core, trail);
      assert (core + trail)[..|core|] == core;
    }
  }

  /** Trimming twice is trimming once. */
  lemma TrimIdempotent(s: string)
    ensures Trim(Trim(s)) == Trim(s)
  {
    var r := Trim(s);
    assert r == [] + r + [];
    TrimOfPadded([], r, []);
  }
}
