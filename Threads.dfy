/**
 * Thread merging (`merge_tweet_threads`, `remove_numeric_indicators`): a
 * single left-to-right scan over the sorted records keeps one open record and
 * folds every record that replies to the open record's id into it.
 */
module Threads {
  import opened Wrappers
  import opened Tweets
  import opened Text

  /** Length of the run of digits that starts at position `j`. */
  function DigitsFrom(text: string, j: nat): (n: nat)
    requires j <= |text|
    ensures j + n <= |text|
    ensures forall k :: j <= k < j + n ==> IsDigit(text[k])
    ensures j + n < |text| ==> !IsDigit(text[j + n])
    decreases |text| - j
  {
    if j < |text| && IsDigit(text[j]) then 1 + DigitsFrom(text, j + 1) else 0
  }

  /** Length of the run of digits that ends just before position `e`. */
  function DigitsBefore(text: string, e: nat): (n: nat)
    requires e <= |text|
    ensures n <= e
    ensures forall k :: e - n <= k < e ==> IsDigit(text[k])
    ensures n < e ==> !IsDigit(text[e - n - 1])
  {
    if e > 0 && IsDigit(text[e - 1]) then 1 + DigitsBefore(text, e - 1) else 0
  }

  /** Length of the run of whitespace that ends just before position `e`. */
  function SpacesBefore(text: string, e: nat): (n: nat)
    requires e <= |text|
    ensures n <= e
    ensures forall k :: e - n <= k < e ==> IsSpace(text[k])
    ensures n < e ==> !IsSpace(text[e - n - 1])
  {
    if e > 0 && IsSpace(text[e - 1]) then 1 + SpacesBefore(text, e - 1) else 0
  }

  /**
   * The text from position `i` to its end is, in full, a continuation marker
   * followed by whitespace: the pattern `\(\d+\/\d+\)\s*$` read left to right.
   */
  predicate MarkerAt(text: string, i: nat) {
    && i < |text| && text[i] == '('
    && var d1 := DigitsFrom(text, i + 1);
    && d1 > 0 && i + 1 + d1 < |text| && text[i + 1 + d1] == '/'
    && var d2 := DigitsFrom(text, i + 2 + d1);
    && d2 > 0 && i + 2 + d1 + d2 < |text| && text[i + 2 + d1 + d2] == ')'
    && forall k :: i + 3 + d1 + d2 <= k < |text| ==> IsSpace(text[k])
  }

  /**
   * Where the pattern matches, searched from the end: the marker must be the
   * last non-blank thing in the text, and each digit run is maximal because a
   * non-digit must precede it.
   */
  function MarkerStart(text: string): Option<nat> {
    var u := |text| - SpacesBefore(text, |text|);
    if u == 0 || text[u - 1] != ')' then None
    else
      var d2 := DigitsBefore(text, u - 1);
      var v := u - 1 - d2;
      if d2 == 0 || v == 0 || text[v - 1] != '/' then None
      else
        var d1 := DigitsBefore(text, v - 1);
        var w := v - 1 - d1;
        if d1 == 0 || w == 0 || text[w - 1] != '(' then None
        else Some(w - 1)
  }

  /**
   * `remove_numeric_indicators`: drop a trailing "(n/m)" marker and the
   * whitespace after it. The result is either the text itself or the part of
   * the text in front of a marker that runs to the end.
   */
  function StripPartMarker(text: string): (r: string)
    ensures r == text || (|r| < |text| && r == text[..|r|] && MarkerAt(text, |r|))
  {
    match MarkerStart(text)
    case None => text
    case Some(i) =>
      MarkerStartIsMarker(text, i);
      text[..i]
  }

  lemma DigitsFromExact(text: string, j: nat, k: nat)
    requires j + k <= |text|
    requires forall q :: j <= q < j + k ==> IsDigit(text[q])
    requires j + k < |text| ==> !IsDigit(text[j + k])
    ensures DigitsFrom(text, j) == k
  {
  }

  lemma DigitsBeforeExact(text: string, e: nat, k: nat)
    requires k <= e <= |text|
    requires forall q :: e - k <= q < e ==> IsDigit(text[q])
    requires k < e ==> !IsDigit(text[e - k - 1])
    ensures DigitsBefore(text, e) == k
  {
  }

  lemma SpacesBeforeExact(text: string, e: nat, k: nat)
    requires k <= e <= |text|
    requires forall q :: e - k <= q < e ==> IsSpace(text[q])
    requires k < e ==> !IsSpace(text[e - k - 1])
    ensures SpacesBefore(text, e) == k
  {
  }

  lemma MarkerStartIsMarker(text: string, i: nat)
    requires MarkerStart(text) == Some(i)
    ensures MarkerAt(text, i)
  {
    var u := |text| - SpacesBefore(text, |text|);
    var d2 := DigitsBefore(text, u - 1);
    var v := u - 1 - d2;
    var d1 := DigitsBefore(text, v - 1);
    assert i + 1 + d1 == v - 1 && v + d2 == u - 1;
    DigitsFromExact(text, i + 1, d1);
    DigitsFromExact(text, v, d2);
    MarkerAtFromRuns(text, i, d1, d2);
  }

  /** A `(`, a digit run, a `/`, a digit run and a `)` followed by blanks only make a marker. */
  lemma MarkerAtFromRuns(text: string, i: nat, d1: nat, d2: nat)
    requires 0 < d1 && 0 < d2 && i + 3 + d1 + d2 <= |text|
    requires text[i] == '(' && text[i + 1 + d1] == '/' && text[i + 2 + d1 + d2] == ')'
    requires DigitsFrom(text, i + 1) == d1 && DigitsFrom(text, i + 2 + d1) == d2
    requires forall k :: i + 3 + d1 + d2 <= k < |text| ==> IsSpace(text[k])
    ensures MarkerAt(text, i)
  {
  }

  /** The blank run at the end of a marked text starts right after the `)`. */
  lemma MarkerTrailingSpace(text: string, i: nat)
    requires MarkerAt(text, i)
    ensures var d1 := DigitsFrom(text, i + 1);
      SpacesBefore(text, |text|) == |text| - (i + 3 + d1 + DigitsFrom(text, i + 2 + d1))
  {
    var d1 := DigitsFrom(text, i + 1);
    var e := i + 3 + d1 + DigitsFrom(text, i + 2 + d1);
    SpacesBeforeExact(text, |text|, |text| - e);
  }

  /** Read backwards, the two digit runs of a marker have the lengths read forwards. */
  lemma MarkerDigitRuns(text: string, i: nat)
    requires MarkerAt(text, i)
    ensures var d1 := DigitsFrom(text, i + 1);
      var d2 := DigitsFrom(text, i + 2 + d1);
      DigitsBefore(text, i + 2 + d1 + d2) == d2 && DigitsBefore(text, i + 1 + d1) == d1
  {
    var d1 := DigitsFrom(text, i + 1);
    var d2 := DigitsFrom(text, i + 2 + d1);
    DigitsBeforeExact(text, i + 2 + d1 + d2, d2);
    DigitsBeforeExact(text, i + 1 + d1, d1);
  }

  /** A marker that runs to the end of the text is removed and everything before it is kept. */
  lemma StripPartMarkerRemovesMarker(text: string, i: nat)
    requires MarkerAt(text, i)
    ensures StripPartMarker(text) == text[..i]
  {
    MarkerTrailingSpace(text, i);
    MarkerDigitRuns(text, i);
    var d1 := DigitsFrom(text, i + 1);
    MarkerStartFromRuns(text, i, d1, DigitsFrom(text, i + 2 + d1));
  }

  /** The backward search finds the marker whose parts have the given run lengths. */
  lemma MarkerStartFromRuns(text: string, i: nat, d1: nat, d2: nat)
    requires 0 < d1 && 0 < d2 && i + 3 + d1 + d2 <= |text|
    requires text[i] == '(' && text[i + 1 + d1] == '/' && text[i + 2 + d1 + d2] == ')'
    requires SpacesBefore(text, |text|) == |text| - (i + 3 + d1 + d2)
    requires DigitsBefore(text, i + 2 + d1 + d2) == d2 && DigitsBefore(text, i + 1 + d1) == d1
    ensures MarkerStart(text) == Some(i)
  {
  }

  /** The text is returned unchanged exactly when no marker runs to its end. */
  lemma StripPartMarkerUnchanged(text: string)
    ensures StripPartMarker(text) == text <==> forall i :: 0 <= i < |text| ==> !MarkerAt(text, i)
  {
    if StripPartMarker(text) == text {
      forall i | 0 <= i < |text|
        ensures !MarkerAt(text, i)
      {
        if MarkerAt(text, i) {
          StripPartMarkerRemovesMarker(text, i);
        }
      }
    }
  }

  /**
   * Stripping twice is stripping once, as long as what is left after the
   * first strip holds no closing parenthesis (so it cannot end in a second
   * marker).
   */
  lemma StripPartMarkerIdempotent(text: string)
    requires ')' !in StripPartMarker(text)
    ensures StripPartMarker(StripPartMarker(text)) == StripPartMarker(text)
  {
  }

  /** With two trailing markers, stripping is not idempotent: each strip removes one. */
  lemma StripPartMarkerNotIdempotent(text: string)
    requires text == "a (1/2) (2/2)"
    ensures StripPartMarker(StripPartMarker(text)) != StripPartMarker(text)
  {
    StripOuterMarker();
    StripInnerMarker();
    assert |StripPartMarker(text)| == 8;
  }

  lemma StripOuterMarker()
    ensures StripPartMarker("a (1/2) (2/2)") == "a (1/2) "
  {
    var t := "a (1/2) (2/2)";
    DigitsFromExact(t, 9, 1);
    DigitsFromExact(t, 11, 1);
    assert MarkerAt(t, 8);
    StripPartMarkerRemovesMarker(t, 8);
  }

  lemma StripInnerMarker()
    ensures StripPartMarker("a (1/2) ") == "a "
  {
    var t := "a (1/2) ";
    DigitsFromExact(t, 3, 1);
    DigitsFromExact(t, 5, 1);
    assert MarkerAt(t, 2);
    StripPartMarkerRemovesMarker(t, 2);
  }

  /** `next` is the following part of the open record's thread (line 130). */
  predicate Continues(open: Tweet, next: Tweet) {
    next.replyTo == Some(open.id)
  }

  /**
   * The open record after folding `next` into it (lines 132-135): both texts
   * lose their marker and are joined by a space, the entities are the
   * incoming ones, and the extended entities are the incoming ones when it
   * has any.
   */
  function Joined(open: Tweet, next: Tweet): Tweet {
    open.(
      fullText := StripPartMarker(open.fullText) + " " + StripPartMarker(next.fullText),
      entities := next.entities,
      extendedMedia := if next.extendedMedia.Some? then next.extendedMedia else open.extendedMedia)
  }

  /**
   * The records the scan emits from the point where `open` is the open record
   * and `rest` is still to be read. The first emitted record is the open one,
   * changed at most in its text and entities.
   */
  function MergeFrom(open: Tweet, rest: seq<Tweet>): (r: seq<Tweet>)
    ensures 1 <= |r| <= 1 + |rest|
    ensures r[0] == open.(fullText := r[0].fullText, entities := r[0].entities, extendedMedia := r[0].extendedMedia)
    decreases |rest|
  {
    if rest == [] then [open]
    else if Continues(open, rest[0]) then MergeFrom(Joined(open, rest[0]), rest[1..])
    else [open] + MergeFrom(rest[0], rest[1..])
  }

  /** What `merge_tweet_threads` returns for the sorted records `ts`. */
  function MergeThreads(ts: seq<Tweet>): (r: seq<Tweet>)
    ensures |r| <= |ts|
    ensures r == [] <==> ts == []
    ensures ts != [] ==> r[0].id == ts[0].id
  {
    if ts == [] then [] else MergeFrom(ts[0], ts[1..])
  }

  /** `merge_tweet_threads`, the loop of lines 125-150. */
  method MergeTweetThreads(tweets: seq<Tweet>) returns (merged: seq<Tweet>)
    ensures merged == MergeThreads(tweets)
  {
    merged := [];
    var previous: Option<Tweet> := None;
    for i := 0 to |tweets|
      invariant previous.None? <==> i == 0
      invariant previous.None? ==> merged == []
      invariant previous.Some? ==> merged + MergeFrom(previous.value, tweets[i..]) == MergeThreads(tweets)
    {
      var tweet := tweets[i];
      assert tweets[i..][0] == tweet && tweets[i..][1..] == tweets[i + 1..];
      if previous.Some? && Continues(previous.value, tweet) {
        previous := Some(Joined(previous.value, tweet));
      } else {
        if previous.Some? {
          ghost var rest := MergeFrom(tweet, tweets[i + 1..]);
          assert MergeFrom(previous.value, tweets[i..]) == [previous.value] + rest;
          assert merged + ([previous.value] + rest) == (merged + [previous.value]) + rest;
          merged := merged + [previous.value];
        }
        previous := Some(tweet);
      }
    }
    if previous.Some? {
      merged := merged + [previous.value];
    }
  }

  /** No record in `r` continues the record just before it. */
  predicate NoAdjacentReply(r: seq<Tweet>) {
    forall k :: 0 < k < |r| ==> !Continues(r[k - 1], r[k])
  }

  /** No emitted record continues the record emitted just before it. */
  lemma {:induction false} MergeFromNoAdjacentReply(open: Tweet, rest: seq<Tweet>)
    ensures NoAdjacentReply(MergeFrom(open, rest))
    decreases |rest|
  {
    var r := MergeFrom(open, rest);
    if rest == [] {
    } else if Continues(open, rest[0]) {
      MergeFromNoAdjacentReply(Joined(open, rest[0]), rest[1..]);
      assert r == MergeFrom(Joined(open, rest[0]), rest[1..]);
    } else {
      var z := MergeFrom(rest[0], rest[1..]);
      MergeFromNoAdjacentReply(rest[0], rest[1..]);
      assert r == [open] + z;
      forall k | 0 < k < |r|
        ensures !Continues(r[k - 1], r[k])
      {
        if k == 1 {
          assert r[0] == open && r[1] == z[0] && z[0].replyTo == rest[0].replyTo;
        } else {
          assert r[k - 1] == z[k - 2] && r[k] == z[k - 1];
        }
      }
    }
  }

  lemma MergeThreadsNoAdjacentReply(ts: seq<Tweet>)
    ensures NoAdjacentReply(MergeThreads(ts))
  {
    if ts != [] {
      MergeFromNoAdjacentReply(ts[0], ts[1..]);
    }
  }

  /** `a` is `b` with some elements left out, the rest in the same order. */
  ghost predicate IsSubsequence<T>(a: seq<T>, b: seq<T>)
    decreases |b|
  {
    a == [] || (b != [] && ((a[0] == b[0] && IsSubsequence(a[1..], b[1..])) || IsSubsequence(a, b[1..])))
  }

  lemma {:induction false} MergeFromKeepsOrder(open: Tweet, rest: seq<Tweet>)
    ensures IsSubsequence(Ids(MergeFrom(open, rest))[1..], Ids(rest))
    decreases |rest|
  {
    var r := MergeFrom(open, rest);
    if rest == [] {
    } else if Continues(open, rest[0]) {
      MergeFromKeepsOrder(Joined(open, rest[0]), rest[1..]);
      assert Ids(rest)[1..] == Ids(rest[1..]);
    } else {
      var z := MergeFrom(rest[0], rest[1..]);
      MergeFromKeepsOrder(rest[0], rest[1..]);
      assert Ids(r)[1..] == Ids(z);
      assert Ids(z)[1..] == Ids(z[1..]);
      assert Ids(rest)[1..] == Ids(rest[1..]);
    }
  }

  /** The merged records keep the ids of records of the input, in input order. */
  lemma MergeThreadsKeepsOrder(ts: seq<Tweet>)
    ensures IsSubsequence(Ids(MergeThreads(ts)), Ids(ts))
  {
    if ts != [] {
      var r := MergeThreads(ts);
      MergeFromKeepsOrder(ts[0], ts[1..]);
      assert Ids(r)[1..] == Ids(r[1..]);
      assert Ids(ts)[1..] == Ids(ts[1..]);
    }
  }

  /** Without an adjacent reply the scan emits every record as it is. */
  lemma {:induction false} MergeFromWithoutReplies(open: Tweet, rest: seq<Tweet>)
    requires rest != [] ==> !Continues(open, rest[0])
    requires forall k :: 0 < k < |rest| ==> !Continues(rest[k - 1], rest[k])
    ensures MergeFrom(open, rest) == [open] + rest
    decreases |rest|
  {
    if rest != [] {
      MergeFromWithoutReplies(rest[0], rest[1..]);
      assert [rest[0]] + rest[1..] == rest;
    }
  }

  /** Merging an already merged list changes nothing. */
  lemma MergeThreadsIdempotent(ts: seq<Tweet>)
    ensures MergeThreads(MergeThreads(ts)) == MergeThreads(ts)
  {
    var r := MergeThreads(ts);
    MergeThreadsNoAdjacentReply(ts);
    if r != [] {
      MergeFromWithoutReplies(r[0], r[1..]);
      assert [r[0]] + r[1..] == r;
    }
  }

  /** A two-part thread becomes one record; otherwise both records are kept. */
  lemma MergeTwoRecords(a: Tweet, b: Tweet)
    ensures Continues(a, b) ==> MergeThreads([a, b]) == [Joined(a, b)]
    ensures !Continues(a, b) ==> MergeThreads([a, b]) == [a, b]
  {
    assert [a, b][1..] == [b];
    assert MergeFrom(Joined(a, b), []) == [Joined(a, b)];
    assert MergeFrom(b, []) == [b];
  }

  /**
   * Everything of a record that the merge never rewrites: its id, reply
   * target, date, counts and retweet flag.
   */
  predicate SameHeader(a: Tweet, b: Tweet) {
    && a.id == b.id && a.replyTo == b.replyTo && a.createdAt == b.createdAt
    && a.retweetCount == b.retweetCount && a.favoriteCount == b.favoriteCount
    && a.retweeted == b.retweeted
  }

  /** Some record of `ts` has the header of `x`. */
  predicate HeaderIn(x: Tweet, ts: seq<Tweet>) {
    exists j :: 0 <= j < |ts| && SameHeader(x, ts[j])
  }

  lemma HeaderInCons(x: Tweet, h: Tweet, ts: seq<Tweet>)
    requires HeaderIn(x, ts)
    ensures HeaderIn(x, [h] + ts)
  {
    var j :| 0 <= j < |ts| && SameHeader(x, ts[j]);
    assert ([h] + ts)[j + 1] == ts[j];
  }

  /** A record with the header of `open` stands for it in the input. */
  lemma HeaderInReplaced(x: Tweet, o: Tweet, open: Tweet, rest: seq<Tweet>)
    requires rest != [] && SameHeader(o, open) && HeaderIn(x, [o] + rest[1..])
    ensures HeaderIn(x, [open] + rest)
  {
    var ins := [open] + rest;
    var j :| 0 <= j < |[o] + rest[1..]| && SameHeader(x, ([o] + rest[1..])[j]);
    if j == 0 {
      assert ins[0] == open;
    } else {
      assert ([o] + rest[1..])[j] == ins[j + 1];
    }
  }

  /** Record `i` of a merge from `open` has the header of `open` or of a record of `rest`. */
  lemma {:induction false} MergeFromKeepsHeader(open: Tweet, rest: seq<Tweet>, i: nat)
    requires i < |MergeFrom(open, rest)|
    ensures HeaderIn(MergeFrom(open, rest)[i], [open] + rest)
    decreases |rest|, 1
  {
    if rest == [] || (!Continues(open, rest[0]) && i == 0) {
      assert MergeFrom(open, rest)[0] == open && ([open] + rest)[0] == open;
    } else if Continues(open, rest[0]) {
      JoinedKeepsHeader(open, rest, i);
    } else {
      SplitKeepsHeader(open, rest, i);
    }
  }

  lemma {:induction false} JoinedKeepsHeader(open: Tweet, rest: seq<Tweet>, i: nat)
    requires rest != [] && Continues(open, rest[0]) && i < |MergeFrom(open, rest)|
    ensures HeaderIn(MergeFrom(open, rest)[i], [open] + rest)
    decreases |rest|, 0
  {
    var o := Joined(open, rest[0]);
    assert MergeFrom(open, rest) == MergeFrom(o, rest[1..]);
    MergeFromKeepsHeader(o, rest[1..], i);
    HeaderInReplaced(MergeFrom(open, rest)[i], o, open, rest);
  }

  lemma {:induction false} SplitKeepsHeader(open: Tweet, rest: seq<Tweet>, i: nat)
    requires rest != [] && !Continues(open, rest[0]) && 0 < i < |MergeFrom(open, rest)|
    ensures HeaderIn(MergeFrom(open, rest)[i], [open] + rest)
    decreases |rest|, 0
  {
    var tail := MergeFrom(rest[0], rest[1..]);
    assert MergeFrom(open, rest) == [open] + tail;
    MergeFromKeepsHeader(rest[0], rest[1..], i - 1);
    assert [rest[0]] + rest[1..] == rest;
    HeaderInCons(tail[i - 1], open, rest);
  }

  /**
   * Every merged record carries the id, reply target, date, counts and
   * retweet flag of one of the input records: merging rewrites only text
   * and entities.
   */
  lemma MergeThreadsKeepsHeaders(ts: seq<Tweet>)
    ensures var r := MergeThreads(ts);
      forall i :: 0 <= i < |r| ==> HeaderIn(r[i], ts)
  {
    if ts != [] {
      assert [ts[0]] + ts[1..] == ts;
      forall i | 0 <= i < |MergeThreads(ts)| ensures HeaderIn(MergeThreads(ts)[i], ts) {
        MergeFromKeepsHeader(ts[0], ts[1..], i);
      }
    }
  }

  /**
   * A two-part thread becomes one record with the first part's id, whose
   * text is each part's text in front of its marker, joined by a space: for
   * "part one (1/2)" and "part two (2/2)" that is "part one  part two ", the
   * space before each marker kept.
   */
  lemma TwoPartThreadText(a: Tweet, b: Tweet, x: string, y: string)
    requires a.fullText == x + "(1/2)" && b.fullText == y + "(2/2)"
    requires b.replyTo == Some(a.id)
    ensures MergeThreads([a, b]) == [Joined(a, b)]
    ensures Joined(a, b).id == a.id && Joined(a, b).fullText == x + " " + y
  {
    MergeTwoRecords(a, b);
    StripOneDigitMarker(x, "(1/2)");
    StripOneDigitMarker(y, "(2/2)");
  }

  /** A text ending in a marker with one-digit numbers loses exactly the marker. */
  lemma StripOneDigitMarker(x: string, marker: string)
    requires |marker| == 5 && marker[0] == '(' && IsDigit(marker[1]) && marker[2] == '/' && IsDigit(marker[3]) && marker[4] == ')'
    ensures StripPartMarker(x + marker) == x
  {
    var t := x + marker;
    var i := |x|;
    assert t[i..] == marker;
    DigitsFromExact(t, i + 1, 1);
    DigitsFromExact(t, i + 3, 1);
    assert MarkerAt(t, i);
    StripPartMarkerRemovesMarker(t, i);
    assert t[..i] == x;
  }

  /**
   * A third part replying to the second part does not join: the open record
   * still carries the first part's id.
   */
  lemma ThirdPartDoesNotChain(a: Tweet, b: Tweet, c: Tweet)
    requires Continues(a, b) && c.replyTo == Some(b.id) && b.id != a.id
    ensures MergeThreads([a, b, c]) == [Joined(a, b), c]
  {
    assert [a, b, c][1..] == [b, c];
    assert [b, c][1..] == [c];
    assert MergeFrom(c, []) == [c];
    assert MergeFrom(Joined(a, b), [c]) == [Joined(a, b)] + MergeFrom(c, []);
  }
}
