/**
 * The PHP string primitives the importer relies on: `str_starts_with`,
 * `strpos(...) !== false` and `str_replace` with a single search string.
 */
module Text {

  /** PCRE `\s`: space, tab, line feed, vertical tab, form feed, carriage return. */
  predicate IsSpace(c: char) {
    c == ' ' || '\t' <= c <= '\r'
  }

  /** A decimal digit (PCRE `\d` without the `u` modifier). */
  predicate IsDigit(c: char) {
    '0' <= c <= '9'
  }

  /** `str_starts_with(s, p)`. */
  predicate StartsWith(s: string, p: string) {
    |p| <= |s| && s[..|p|] == p
  }

  /** `strpos(s, p) !== false`: `p` occurs somewhere in `s`. */
  predicate Contains(s: string, p: string)
    decreases |s|
  {
    StartsWith(s, p) || (|s| > 0 && Contains(s[1..], p))
  }

  /**
   * `str_replace(p, r, s)`: every non-overlapping occurrence of `p`, found
   * left to right, is replaced by `r`. An empty search string leaves the
   * subject unchanged.
   */
  function ReplaceAll(s: string, p: string, r: string): string
    decreases |s|
  {
    if |p| == 0 || |s| < |p| then s
    else if s[..|p|] == p then r + ReplaceAll(s[|p|..], p, r)
    else [s[0]] + ReplaceAll(s[1..], p, r)
  }

  lemma {:induction false} ShorterDoesNotContain(s: string, p: string)
    requires |s| < |p|
    ensures !Contains(s, p)
    decreases |s|
  {
    if |s| > 0 {
      ShorterDoesNotContain(s[1..], p);
    }
  }

  /** Where the search string does not occur, `str_replace` changes nothing. */
  lemma {:induction false} ReplaceAbsent(s: string, p: string, r: string)
    requires !Contains(s, p)
    ensures ReplaceAll(s, p, r) == s
    decreases |s|
  {
    if |p| == 0 || |s| < |p| {
    } else {
      assert s[..|p|] != p;
      ReplaceAbsent(s[1..], p, r);
      assert [s[0]] + s[1..] == s;
    }
  }

  /**
   * When the first occurrence of `p` in `a + p + b` is the one right after
   * `a`, the text before it is kept verbatim and that occurrence becomes `r`.
   */
  lemma ReplaceFirstOccurrence(a: string, p: string, b: string, r: string)
    requires |p| > 0
    requires !Contains(a + p[..|p| - 1], p)
    ensures ReplaceAll(a + p + b, p, r) == a + (r + ReplaceAll(b, p, r))
  {
    ReplaceKeepsPrefix(a, p + b, p, r);
    ReplaceAtMatch(p + b, p, r);
    assert (p + b)[|p|..] == b;
    assert a + p + b == a + (p + b);
  }

  /** A prefix in which no occurrence of `p` starts is kept verbatim by the scan. */
  lemma {:induction false} ReplaceKeepsPrefix(a: string, s: string, p: string, r: string)
    requires 0 < |p| <= |s| && s[..|p|] == p
    requires !Contains(a + p[..|p| - 1], p)
    ensures ReplaceAll(a + s, p, r) == a + ReplaceAll(s, p, r)
    decreases |a|
  {
    if a == [] {
      assert a + s == s;
    } else {
      NoEarlierMatch(a, p, s);
      ReplaceKeepsPrefix(a[1..], s, p, r);
      ReplaceKeepsFirst(a, s, p, r, ReplaceAll(s, p, r));
    }
  }

  /**
   * When no match starts at the front of `a + rest`, the scan keeps `a[0]`;
   * if the rest of `a` comes through unchanged, all of `a` does.
   */
  lemma ReplaceKeepsFirst(a: string, rest: string, p: string, r: string, tail: string)
    requires 0 < |a| && 0 < |p| <= |a + rest| && (a + rest)[..|p|] != p
    requires ReplaceAll(a[1..] + rest, p, r) == a[1..] + tail
    ensures ReplaceAll(a + rest, p, r) == a + tail
  {
    ReplacePastMismatch(a + rest, p, r);
    assert (a + rest)[1..] == a[1..] + rest;
    assert [a[0]] + (a[1..] + tail) == a + tail;
  }

  /** A match at the front is replaced and the scan goes on after it. */
  lemma ReplaceAtMatch(s: string, p: string, r: string)
    requires 0 < |p| <= |s| && s[..|p|] == p
    ensures ReplaceAll(s, p, r) == r + ReplaceAll(s[|p|..], p, r)
  {
  }

  /** Without a match at the front the first character is kept and the scan moves on by one. */
  lemma ReplacePastMismatch(s: string, p: string, r: string)
    requires 0 < |p| <= |s| && s[..|p|] != p
    ensures ReplaceAll(s, p, r) == [s[0]] + ReplaceAll(s[1..], p, r)
  {
  }

  /** No occurrence starts at the first character of `a + s`, nor later in `a`. */
  lemma NoEarlierMatch(a: string, p: string, s: string)
    requires 0 < |p| <= |s| && s[..|p|] == p && |a| > 0
    requires !Contains(a + p[..|p| - 1], p)
    ensures |p| <= |a + s| && (a + s)[..|p|] != p
    ensures !Contains(a[1..] + p[..|p| - 1], p)
  {
    var pre := a + p[..|p| - 1];
    assert pre[1..] == a[1..] + p[..|p| - 1];
    assert (a + s)[..|p|] == pre[..|p|];
  }

  /** A single occurrence of `p` is replaced and the rest of the text is kept. */
  lemma ReplaceSingleOccurrence(a: string, p: string, b: string, r: string)
    requires |p| > 0
    requires !Contains(a + p[..|p| - 1], p)
    requires !Contains(b, p)
    ensures ReplaceAll(a + p + b, p, r) == a + r + b
  {
    ReplaceFirstOccurrence(a, p, b, r);
    ReplaceAbsent(b, p, r);
    assert a + (r + b) == a + r + b;
  }
}
