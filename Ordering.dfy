/**
 * The sort of line 160: `usort` with `strnatcmp` on the tweet ids. For ids,
 * which are decimal strings without leading zeros, `strnatcmp` ranks a
 * shorter digit run below a longer one and compares runs of equal length
 * digit by digit; that is the order `IdLess` below, and it is numeric order.
 */
module Ordering {
  import opened Text
  import opened Tweets

  /** Character-by-character comparison of two strings. */
  predicate LexLess(a: string, b: string)
    decreases |a|
  {
    |a| > 0 && |b| > 0 && (a[0] < b[0] || (a[0] == b[0] && LexLess(a[1..], b[1..])))
  }

  /** `strnatcmp(a, b) < 0` on ids: shorter first, then digit by digit. */
  predicate IdLess(a: string, b: string) {
    |a| < |b| || (|a| == |b| && LexLess(a, b))
  }

  lemma {:induction false} LexLessAsymmetric(a: string, b: string)
    ensures LexLess(a, b) ==> !LexLess(b, a)
    decreases |a|
  {
    if |a| > 0 && |b| > 0 && a[0] == b[0] {
      LexLessAsymmetric(a[1..], b[1..]);
    }
  }

  lemma {:induction false} LexLessTransitive(a: string, b: string, c: string)
    requires LexLess(a, b) && LexLess(b, c)
    ensures LexLess(a, c)
    decreases |a|
  {
    if a[0] == b[0] && b[0] == c[0] {
      LexLessTransitive(a[1..], b[1..], c[1..]);
    }
  }

  lemma {:induction false} LexLessTotal(a: string, b: string)
    requires |a| == |b| && a != b
    ensures LexLess(a, b) || LexLess(b, a)
    decreases |a|
  {
    if a[0] == b[0] {
      assert a == [a[0]] + a[1..] && b == [b[0]] + b[1..];
      LexLessTotal(a[1..], b[1..]);
    }
  }

  /** The id order is a strict total order, as a sort comparator must be. */
  lemma IdLessStrictTotalOrder(a: string, b: string, c: string)
    ensures !IdLess(a, a)
    ensures IdLess(a, b) ==> !IdLess(b, a)
    ensures IdLess(a, b) && IdLess(b, c) ==> IdLess(a, c)
    ensures a == b || IdLess(a, b) || IdLess(b, a)
  {
    LexLessAsymmetric(a, a);
    LexLessAsymmetric(a, b);
    if IdLess(a, b) && IdLess(b, c) && |a| == |b| == |c| {
      LexLessTransitive(a, b, c);
    }
    if a != b && |a| == |b| {
      LexLessTotal(a, b);
    }
  }

  /** No record has a smaller id than a record before it. */
  predicate SortedById(s: seq<Tweet>) {
    forall i, j :: 0 <= i < j < |s| ==> !IdLess(s[j].id, s[i].id)
  }

  /** Insert `t` in front of the first record whose id is not smaller. */
  function Insert(t: Tweet, s: seq<Tweet>): (r: seq<Tweet>)
    requires SortedById(s)
    ensures SortedById(r)
    ensures multiset(r) == multiset(s) + multiset{t}
    decreases |s|
  {
    if s == [] then [t]
    else if !IdLess(s[0].id, t.id) then
      NotLessChain(t, s);
      [t] + s
    else
      var r' := Insert(t, s[1..]);
      assert s == [s[0]] + s[1..];
      InsertAfterSmaller(s[0], t, s[1..], r');
      [s[0]] + r'
  }

  lemma NotLessChain(t: Tweet, s: seq<Tweet>)
    requires SortedById(s) && s != [] && !IdLess(s[0].id, t.id)
    ensures SortedById([t] + s)
  {
    forall j | 0 <= j < |s|
      ensures !IdLess(s[j].id, t.id)
    {
      IdLessStrictTotalOrder(t.id, s[0].id, s[j].id);
      IdLessStrictTotalOrder(s[j].id, t.id, s[0].id);
      IdLessStrictTotalOrder(s[j].id, s[0].id, t.id);
    }
    var r := [t] + s;
    assert forall i, j :: 0 < i < j < |r| ==> r[i] == s[i - 1] && r[j] == s[j - 1];
  }

  lemma InsertAfterSmaller(h: Tweet, t: Tweet, s: seq<Tweet>, r: seq<Tweet>)
    requires SortedById([h] + s) && SortedById(r) && IdLess(h.id, t.id)
    requires multiset(r) == multiset(s) + multiset{t}
    ensures SortedById([h] + r)
  {
    var hr := [h] + r;
    forall j | 0 < j < |hr|
      ensures !IdLess(hr[j].id, h.id)
    {
      assert hr[j] in multiset(r);
      if hr[j] == t {
        IdLessStrictTotalOrder(h.id, t.id, h.id);
      } else {
        assert hr[j] in multiset(s);
        var k :| 0 <= k < |s| && s[k] == hr[j];
        var hs := [h] + s;
        assert hs[0] == h && hs[k + 1] == s[k];
        assert !IdLess(hs[k + 1].id, hs[0].id);
      }
    }
    assert forall i, j :: 0 < i < j < |hr| ==> hr[i] == r[i - 1] && hr[j] == r[j - 1];
  }

  /**
   * `usort($tweets, fn ($a, $b) => strnatcmp($a->id, $b->id))`: the records
   * sorted by id, as a permutation of the input (insertion keeps records
   * with equal ids in input order, as PHP 8's stable sort does).
   */
  function SortById(s: seq<Tweet>): (r: seq<Tweet>)
    ensures SortedById(r)
    ensures multiset(r) == multiset(s)
    ensures |r| == |s|
  {
    if s == [] then []
    else
      assert s == [s[0]] + s[1..];
      Insert(s[0], SortById(s[1..]))
  }

  /** The id strings `strnatcmp` sees: decimal digits, no leading zero. */
  predicate CanonicalId(s: string) {
    |s| > 0 && (forall i :: 0 <= i < |s| ==> IsDigit(s[i])) && (|s| > 1 ==> s[0] != '0')
  }

  predicate AllDigits(s: string) {
    forall i :: 0 <= i < |s| ==> IsDigit(s[i])
  }

  function Pow10(n: nat): (p: nat)
    ensures p >= 1
  {
    if n == 0 then 1 else 10 * Pow10(n - 1)
  }

  /** The number a string of decimal digits denotes. */
  function Value(s: string): nat
    requires AllDigits(s)
  {
    if s == [] then 0 else (s[0] as int - '0' as int) * Pow10(|s| - 1) + Value(s[1..])
  }

  lemma MulMonotone(x: int, y: int, p: int)
    requires x <= y && p >= 0
    ensures x * p <= y * p
  {
    assert y * p - x * p == (y - x) * p;
  }

  /** A leading digit followed by a smaller number: the leading digit decides. */
  lemma LeadingDigitDecides(da: int, db: int, p: int, ra: int, rb: int)
    requires 0 <= da < db && p >= 1 && 0 <= ra < p && 0 <= rb
    ensures da * p + ra < db * p + rb
  {
    MulMonotone(da + 1, db, p);
    assert (da + 1) * p == da * p + p;
  }

  lemma {:induction false} ValueBelowPow10(s: string)
    requires AllDigits(s)
    ensures Value(s) < Pow10(|s|)
    decreases |s|
  {
    if s != [] {
      ValueBelowPow10(s[1..]);
      var d, p := s[0] as int - '0' as int, Pow10(|s| - 1);
      LeadingDigitDecides(d, 10, p, Value(s[1..]), 0);
      assert 10 * p == Pow10(|s|);
    }
  }

  lemma {:induction false} Pow10Monotone(m: nat, n: nat)
    requires m <= n
    ensures Pow10(m) <= Pow10(n)
    decreases n
  {
    if m < n {
      Pow10Monotone(m, n - 1);
    }
  }

  lemma {:induction false} EqualLengthOrderIsNumeric(a: string, b: string)
    requires AllDigits(a) && AllDigits(b) && |a| == |b|
    ensures LexLess(a, b) <==> Value(a) < Value(b)
    decreases |a|
  {
    if a != [] {
      var da, db, p := a[0] as int - '0' as int, b[0] as int - '0' as int, Pow10(|a| - 1);
      var ra, rb := Value(a[1..]), Value(b[1..]);
      assert Value(a) == da * p + ra && Value(b) == db * p + rb;
      ValueBelowPow10(a[1..]);
      ValueBelowPow10(b[1..]);
      if da < db {
        LeadingDigitDecides(da, db, p, ra, rb);
      } else if db < da {
        LeadingDigitDecides(db, da, p, rb, ra);
      } else {
        EqualLengthOrderIsNumeric(a[1..], b[1..]);
      }
    }
  }

  lemma LongerIsLarger(a: string, b: string)
    requires CanonicalId(a) && CanonicalId(b) && |a| < |b|
    ensures Value(a) < Value(b)
  {
    ValueBelowPow10(a);
    var p := Pow10(|b| - 1);
    Pow10Monotone(|a|, |b| - 1);
    var d := b[0] as int - '0' as int;
    assert Value(b) == d * p + Value(b[1..]);
    MulMonotone(1, d, p);
  }

  /**
   * On canonical ids the sort order is numeric order: "9" < "10" < "100",
   * not the lexical "10" < "100" < "9".
   */
  lemma NaturalOrderIsNumeric(a: string, b: string)
    requires CanonicalId(a) && CanonicalId(b)
    ensures IdLess(a, b) <==> Value(a) < Value(b)
  {
    if |a| < |b| {
      LongerIsLarger(a, b);
    } else if |b| < |a| {
      LongerIsLarger(b, a);
    } else {
      EqualLengthOrderIsNumeric(a, b);
    }
  }

  lemma NaturalOrderExample()
    ensures IdLess("9", "10") && IdLess("10", "100") && !IdLess("10", "9") && !IdLess("100", "10")
    ensures LexLess("10", "9")
  {
  }

  /** Records with ids "100", "9" and "10" are visited as "9", "10", "100". */
  lemma SortExample(a: Tweet, b: Tweet, c: Tweet)
    requires a.id == "100" && b.id == "9" && c.id == "10"
    ensures SortById([a, b, c]) == [b, c, a]
  {
    assert [a, b, c][1..] == [b, c];
    assert [b, c][1..] == [c];
    assert SortById([c]) == [c];
    assert Insert(b, [c]) == [b, c];
    assert Insert(a, [b, c]) == [b] + Insert(a, [c]);
    assert [b, c][1..] == [c];
    assert Insert(a, [c]) == [c] + Insert(a, []);
  }
}
