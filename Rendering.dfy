/**
 * What the importer derives from a record's entities: the text with t.co
 * links turned into anchors, quote-retweet detection, the permalink, the
 * hashtag and ticker term lists, and the media file that belongs to a record.
 */
module Rendering {
  import opened Wrappers
  import opened Text
  import opened Tweets

  /** `<a href="{expanded_url}">{display_url}</a>` (lines 212 and 287). */
  function LinkTag(u: UrlEntity): string {
    "<a href=\"" + u.expandedUrl + "\">" + u.displayUrl + "</a>"
  }

  /** The text after replacing, entity by entity in order, each short URL by its anchor. */
  function LinkUrls(text: string, urls: seq<UrlEntity>): string
    decreases |urls|
  {
    if urls == [] then text else LinkUrls(ReplaceAll(text, urls[0].url, LinkTag(urls[0])), urls[1..])
  }

  /** The loop of lines 210-215 (and 285-290), reassigning the text once per URL entity. */
  method SubstituteUrls(text: string, urls: seq<UrlEntity>) returns (tweetText: string)
    ensures tweetText == LinkUrls(text, urls)
  {
    tweetText := text;
    for i := 0 to |urls|
      invariant LinkUrls(tweetText, urls[i..]) == LinkUrls(text, urls)
    {
      assert urls[i..][1..] == urls[i + 1..];
      tweetText := ReplaceAll(tweetText, urls[i].url, LinkTag(urls[i]));
    }
  }

  /** A text in which no entity's short URL occurs is left as it is. */
  lemma {:induction false} LinkUrlsWithoutOccurrence(text: string, urls: seq<UrlEntity>)
    requires forall i :: 0 <= i < |urls| ==> !Contains(text, urls[i].url)
    ensures LinkUrls(text, urls) == text
    decreases |urls|
  {
    if urls != [] {
      ReplaceAbsent(text, urls[0].url, LinkTag(urls[0]));
      LinkUrlsWithoutOccurrence(text, urls[1..]);
    }
  }

  /**
   * One URL entity whose short URL occurs once: exactly that occurrence
   * becomes the anchor and the surrounding text is untouched.
   */
  lemma LinkSingleUrl(a: string, u: UrlEntity, b: string)
    requires |u.url| > 0
    requires !Contains(a + u.url[..|u.url| - 1], u.url) && !Contains(b, u.url)
    ensures LinkUrls(a + u.url + b, [u]) == a + LinkTag(u) + b
  {
    ReplaceSingleOccurrence(a, u.url, b, LinkTag(u));
  }

  const TwitterPrefix := "https://twitter.com/"

  /**
   * `is_quote_retweet` (lines 259-268): some URL entity expands to an
   * address containing "https://twitter.com/".
   */
  function IsQuoteRetweet(urls: seq<UrlEntity>): (r: bool)
    ensures r <==> exists i :: 0 <= i < |urls| && Contains(urls[i].expandedUrl, TwitterPrefix)
    decreases |urls|
  {
    if urls == [] then false
    else if Contains(urls[0].expandedUrl, TwitterPrefix) then true
    else
      var r := IsQuoteRetweet(urls[1..]);
      assert forall i :: 1 <= i < |urls| ==> urls[i] == urls[1..][i - 1];
      r
  }

  /** `make_tweet_url` (lines 381-383): the record's permalink under the account's username. */
  function TweetUrl(username: string, id: string): string {
    TwitterPrefix + username + "/status/" + id
  }

  /** Different ids under one username give different permalinks. */
  lemma TweetUrlInjective(username: string, a: string, b: string)
    requires TweetUrl(username, a) == TweetUrl(username, b)
    ensures a == b
  {
    var n := |TwitterPrefix + username + "/status/"|;
    assert TweetUrl(username, a)[n..] == a;
    assert TweetUrl(username, b)[n..] == b;
  }

  /**
   * The detection fires on any link to the platform, including a record
   * linking to the account's own post: such a record counts as a retweet.
   */
  lemma SelfLinkIsQuoteRetweet(urls: seq<UrlEntity>, k: nat, username: string, id: string)
    requires k < |urls| && urls[k].expandedUrl == TweetUrl(username, id)
    ensures IsQuoteRetweet(urls)
  {
    var e := urls[k].expandedUrl;
    assert e[..|TwitterPrefix|] == TwitterPrefix;
    assert StartsWith(e, TwitterPrefix);
  }

  /** The list built by `set_hashtags` (lines 417-422): one term per hashtag, in order. */
  function Hashtags(tags: seq<TagEntity>): (terms: seq<string>)
    ensures |terms| == |tags|
    ensures forall i :: 0 <= i < |tags| ==> terms[i] == tags[i].text
    decreases |tags|
  {
    if tags == [] then [] else [tags[0].text] + Hashtags(tags[1..])
  }

  /**
   * The list built by `set_ticker_symbols` (lines 438-443): one term per
   * symbol, in order, each "$" followed by the symbol's text.
   */
  function Tickers(symbols: seq<TagEntity>): (terms: seq<string>)
    ensures |terms| == |symbols|
    ensures forall i :: 0 <= i < |symbols| ==> |terms[i]| > 0 && terms[i][0] == '$' && terms[i][1..] == symbols[i].text
    decreases |symbols|
  {
    if symbols == [] then [] else ["$" + symbols[0].text] + Tickers(symbols[1..])
  }

  /** The image tag that replaces a media link (line 481-482, escaping not modelled). */
  function ImgTag(uploadBaseUrl: string, filename: string): string {
    "<img src=\"" + uploadBaseUrl + "/twitter-archive/tweets_media/" + filename + "\" />"
  }

  /**
   * The first entry from position `k` on in the media listing that starts
   * with `prefix`, or None when there is none.
   */
  function FirstWithPrefix(files: seq<string>, prefix: string, k: nat): (r: Option<nat>)
    requires k <= |files|
    ensures r.Some? ==> k <= r.value < |files| && StartsWith(files[r.value], prefix)
    ensures r.Some? ==> forall j :: k <= j < r.value ==> !StartsWith(files[j], prefix)
    ensures r.None? <==> forall j :: k <= j < |files| ==> !StartsWith(files[j], prefix)
    decreases |files| - k
  {
    if k == |files| then None
    else if StartsWith(files[k], prefix) then Some(k)
    else FirstWithPrefix(files, prefix, k + 1)
  }

  /**
   * The listing entry `process_media` uses, as written at line 471: the first
   * file whose name merely starts with the record id.
   */
  function MediaFileAsWritten(files: seq<string>, id: string): Option<nat> {
    FirstWithPrefix(files, id, 0)
  }

  /**
   * The listing entry that belongs to the record: media files are named
   * `<record id>-<media id>.<ext>`, so the id must be followed by "-".
   */
  function MediaFile(files: seq<string>, id: string): Option<nat> {
    FirstWithPrefix(files, id + "-", 0)
  }

  /** The owning record id of a media file name: everything before the first "-". */
  function OwnerId(filename: string): (owner: string)
    ensures |owner| <= |filename| && owner == filename[..|owner|]
    ensures '-' !in owner
    decreases |filename|
  {
    if filename == [] || filename[0] == '-' then [] else [filename[0]] + OwnerId(filename[1..])
  }

  lemma {:induction false} OwnerIdOfPrefixed(id: string, rest: string)
    requires '-' !in id
    ensures OwnerId(id + "-" + rest) == id
    decreases |id|
  {
    var f := id + "-" + rest;
    if id == [] {
      assert f[0] == '-';
    } else {
      assert f[1..] == id[1..] + "-" + rest;
      OwnerIdOfPrefixed(id[1..], rest);
      assert [id[0]] + id[1..] == id;
    }
  }

  /** The file chosen for a record is one the record owns. */
  lemma MediaFileIsOwned(files: seq<string>, id: string)
    requires '-' !in id
    requires MediaFile(files, id).Some?
    ensures OwnerId(files[MediaFile(files, id).value]) == id
  {
    var f := files[MediaFile(files, id).value];
    assert f == (id + "-") + f[|id| + 1..];
    OwnerIdOfPrefixed(id, f[|id| + 1..]);
  }

  /**
   * Record "12" with no media of its own is handed the media of record
   * "123" by the code as written; the owned lookup finds nothing.
   */
  lemma MediaPrefixOvermatch()
    ensures MediaFileAsWritten(["123-9.jpg"], "12") == Some(0)
    ensures MediaFile(["123-9.jpg"], "12") == None
  {
    assert StartsWith("123-9.jpg", "12");
    assert !StartsWith("123-9.jpg", "12-") by {
      assert "123-9.jpg"[..3] == "123";
    }
  }
}
