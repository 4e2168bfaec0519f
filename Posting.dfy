/**
 * A record that becomes a post of its own: `process_tweet` inserts it, and
 * the post format, `set_postmeta`, `set_hashtags`, `set_ticker_symbols` and
 * `process_media` then write to it, in that order. Each of those is a
 * sequence of writes here; the lemmas say what the finished post holds.
 */
module Posting {
  import opened Wrappers
  import opened Text
  import opened Tweets
  import opened Rendering
  import opened ContentStore

  /** `process_tweet`: the post `wp_insert_post` creates, its links already substituted. */
  function NewPost(author: nat, t: Tweet): (p: Post)
    ensures p.slug == t.id && p.author == author && p.date == t.createdAt
    ensures p.meta == map[] && p.terms == {} && !p.aside
  {
    Post(t.id, author, LinkUrls(t.fullText, t.entities.urls), t.createdAt, false, map[], {})
  }

  /** `set_postmeta`: counts, the parent id when there is one, and the permalink. */
  function MetaWrites(username: string, t: Tweet): seq<Write> {
    var counts := [PutMeta("_retweet_count", MetaNumber(t.retweetCount)),
                   PutMeta("_favorite_count", MetaNumber(t.favoriteCount))];
    var url := [PutMeta("_tweet_url", MetaText(TweetUrl(username, t.id)))];
    if t.replyTo.Some? then counts + [PutMeta("_in_reply_to_status_id_str", MetaText(t.replyTo.value))] + url
    else counts + url
  }

  /** `set_hashtags` then `set_ticker_symbols`, both appending to the post's terms. */
  function TagWrites(t: Tweet): seq<Write> {
    [AddTerms(Hashtags(t.entities.hashtags)), AddTerms(Tickers(t.entities.symbols))]
  }

  /** What `process_media` writes for one media entity once a file is found. */
  function MediaEntityWrites(uploadBaseUrl: string, file: string, tweetId: string, m: MediaEntity): seq<Write> {
    [PutMeta("_tweet_media", MetaText(file)),
     PutMeta("_tweet_media_type", MetaText(m.mediaType)),
     PutMeta("_tweet_id", MetaText(tweetId)),
     ReplaceInContent(m.url, ImgTag(uploadBaseUrl, file))]
  }

  function MediaWritesFor(uploadBaseUrl: string, file: string, tweetId: string, media: seq<MediaEntity>): (ws: seq<Write>)
    ensures forall i :: 0 <= i < |ws| ==> ws[i].PutMeta? || ws[i].ReplaceInContent?
    ensures forall i :: 0 <= i < |ws| && ws[i].PutMeta? ==> ws[i].key in {"_tweet_media", "_tweet_media_type", "_tweet_id"}
    decreases |media|
  {
    if media == [] then []
    else MediaEntityWrites(uploadBaseUrl, file, tweetId, media[0]) + MediaWritesFor(uploadBaseUrl, file, tweetId, media[1..])
  }

  /**
   * `process_media`: every media entity of the record uses the same file,
   * the first listing entry that belongs to the record; none, no writes.
   */
  function MediaWrites(uploadBaseUrl: string, files: seq<string>, t: Tweet): (ws: seq<Write>)
    ensures forall i :: 0 <= i < |ws| ==> ws[i].PutMeta? || ws[i].ReplaceInContent?
    ensures forall i :: 0 <= i < |ws| && ws[i].PutMeta? ==> ws[i].key in {"_tweet_media", "_tweet_media_type", "_tweet_id"}
  {
    match MediaFile(files, t.id)
    case None => []
    case Some(k) => MediaWritesFor(uploadBaseUrl, files[k], t.id, t.entities.media)
  }

  /** What `process_media` has written once the first `m` media entities are handled. */
  function MediaWritesUpTo(uploadBaseUrl: string, files: seq<string>, t: Tweet, m: nat): seq<Write>
    requires m <= |t.entities.media|
  {
    match MediaFile(files, t.id)
    case None => []
    case Some(k) => MediaWritesFor(uploadBaseUrl, files[k], t.id, t.entities.media[..m])
  }

  lemma MediaWritesUpToNext(uploadBaseUrl: string, files: seq<string>, t: Tweet, m: nat, k: nat)
    requires m < |t.entities.media| && MediaFile(files, t.id) == Some(k)
    ensures MediaWritesUpTo(uploadBaseUrl, files, t, m + 1) ==
      MediaWritesUpTo(uploadBaseUrl, files, t, m) + MediaEntityWrites(uploadBaseUrl, files[k], t.id, t.entities.media[m])
  {
    var media := t.entities.media;
    MediaWritesForSnoc(uploadBaseUrl, files[k], t.id, media[..m], media[m]);
    assert media[..m] + [media[m]] == media[..m + 1];
  }

  lemma MediaWritesUpToAll(uploadBaseUrl: string, files: seq<string>, t: Tweet)
    ensures MediaWritesUpTo(uploadBaseUrl, files, t, |t.entities.media|) == MediaWrites(uploadBaseUrl, files, t)
  {
    assert t.entities.media[..|t.entities.media|] == t.entities.media;
  }

  function PostWrites(asideFormat: bool, username: string, uploadBaseUrl: string, files: seq<string>, t: Tweet): seq<Write> {
    (if asideFormat then [MakeAside] else []) + MetaWrites(username, t) + TagWrites(t) + MediaWrites(uploadBaseUrl, files, t)
  }

  /** The post as it stands after the whole top-level path. */
  function ImportedPost(author: nat, asideFormat: bool, username: string, uploadBaseUrl: string, files: seq<string>, t: Tweet): Post {
    ApplyAll(NewPost(author, t), PostWrites(asideFormat, username, uploadBaseUrl, files, t))
  }

  /** Every media link in turn replaced by the image tag of `file`. */
  function ReplaceMedia(text: string, uploadBaseUrl: string, file: string, media: seq<MediaEntity>): string
    decreases |media|
  {
    if media == [] then text
    else ReplaceMedia(ReplaceAll(text, media[0].url, ImgTag(uploadBaseUrl, file)), uploadBaseUrl, file, media[1..])
  }

  /** The media writes for a prefix of the entities, extended by one entity. */
  lemma {:induction false} MediaWritesForSnoc(uploadBaseUrl: string, file: string, tweetId: string, media: seq<MediaEntity>, m: MediaEntity)
    ensures MediaWritesFor(uploadBaseUrl, file, tweetId, media + [m]) ==
      MediaWritesFor(uploadBaseUrl, file, tweetId, media) + MediaEntityWrites(uploadBaseUrl, file, tweetId, m)
    decreases |media|
  {
    if media == [] {
      assert [] + [m] == [m];
      assert [m][1..] == [];
    } else {
      assert (media + [m])[1..] == media[1..] + [m];
      MediaWritesForSnoc(uploadBaseUrl, file, tweetId, media[1..], m);
    }
  }

  lemma ApplyTwo(p: Post, a: Write, b: Write)
    ensures ApplyAll(p, [a, b]) == Apply(Apply(p, a), b)
  {
    assert [a, b][1..] == [b];
    assert [b][1..] == [];
    assert ApplyAll(Apply(p, a), [b]) == ApplyAll(Apply(Apply(p, a), b), []);
  }

  lemma ApplyThree(p: Post, a: Write, b: Write, c: Write)
    ensures ApplyAll(p, [a, b, c]) == Apply(Apply(Apply(p, a), b), c)
  {
    assert [a, b, c][1..] == [b, c];
    ApplyTwo(Apply(p, a), b, c);
  }

  lemma ApplyFour(p: Post, a: Write, b: Write, c: Write, d: Write)
    ensures ApplyAll(p, [a, b, c, d]) == Apply(Apply(Apply(Apply(p, a), b), c), d)
  {
    assert [a, b, c, d][1..] == [b, c, d];
    ApplyThree(Apply(p, a), b, c, d);
  }

  /** The meta `set_postmeta` leaves on a fresh post. */
  function PostMeta(username: string, t: Tweet): map<string, MetaValue> {
    var counts := map["_retweet_count" := MetaNumber(t.retweetCount)]["_favorite_count" := MetaNumber(t.favoriteCount)];
    var withParent := if t.replyTo.Some? then counts["_in_reply_to_status_id_str" := MetaText(t.replyTo.value)] else counts;
    withParent["_tweet_url" := MetaText(TweetUrl(username, t.id))]
  }

  /** The post just before `process_media`. */
  function PreMediaPost(author: nat, asideFormat: bool, username: string, t: Tweet): Post {
    ApplyAll(NewPost(author, t), (if asideFormat then [MakeAside] else []) + MetaWrites(username, t) + TagWrites(t))
  }

  /** `set_postmeta` on any post: its values override the post's meta, nothing else changes. */
  lemma MetaWritesEffect(p: Post, username: string, t: Tweet)
    ensures ApplyAll(p, MetaWrites(username, t)) == p.(meta := p.meta + PostMeta(username, t))
  {
    var r := PutMeta("_retweet_count", MetaNumber(t.retweetCount));
    var f := PutMeta("_favorite_count", MetaNumber(t.favoriteCount));
    var u := PutMeta("_tweet_url", MetaText(TweetUrl(username, t.id)));
    if t.replyTo.Some? {
      var i := PutMeta("_in_reply_to_status_id_str", MetaText(t.replyTo.value));
      assert MetaWrites(username, t) == [r, f, i, u];
      ApplyFour(p, r, f, i, u);
      PutFour(p.meta, r.key, r.value, f.key, f.value, i.key, i.value, u.key, u.value);
    } else {
      assert MetaWrites(username, t) == [r, f, u];
      ApplyThree(p, r, f, u);
      PutThree(p.meta, r.key, r.value, f.key, f.value, u.key, u.value);
    }
  }

  /** Three updates in a row override `base` with the map they build. */
  lemma PutThree<K, V>(base: map<K, V>, k1: K, v1: V, k2: K, v2: V, k3: K, v3: V)
    ensures base[k1 := v1][k2 := v2][k3 := v3] == base + map[k1 := v1][k2 := v2][k3 := v3]
  {
  }

  lemma PutFour<K, V>(base: map<K, V>, k1: K, v1: V, k2: K, v2: V, k3: K, v3: V, k4: K, v4: V)
    ensures base[k1 := v1][k2 := v2][k3 := v3][k4 := v4] == base + map[k1 := v1][k2 := v2][k3 := v3][k4 := v4]
  {
  }

  /**
   * What `set_postmeta` does to a post, whatever it held before: the two
   * counts and the permalink are set, the parent id is set when the record
   * is a reply, every other meta key keeps its value, and content, terms
   * and format are untouched.
   */
  lemma SetPostmetaEffect(p: Post, username: string, t: Tweet)
    ensures var q := ApplyAll(p, MetaWrites(username, t));
      && "_retweet_count" in q.meta && q.meta["_retweet_count"] == MetaNumber(t.retweetCount)
      && "_favorite_count" in q.meta && q.meta["_favorite_count"] == MetaNumber(t.favoriteCount)
      && "_tweet_url" in q.meta && q.meta["_tweet_url"] == MetaText(TweetUrl(username, t.id))
      && (t.replyTo.Some? ==> "_in_reply_to_status_id_str" in q.meta
                              && q.meta["_in_reply_to_status_id_str"] == MetaText(t.replyTo.value))
      && (forall k :: k !in {"_retweet_count", "_favorite_count", "_tweet_url"}
                      && (t.replyTo.Some? ==> k != "_in_reply_to_status_id_str") ==>
            (k in q.meta <==> k in p.meta) && (k in p.meta ==> q.meta[k] == p.meta[k]))
      && q.content == p.content && q.terms == p.terms && q.aside == p.aside
  {
    MetaWritesEffect(p, username, t);
  }

  lemma PreMediaPostShape(author: nat, asideFormat: bool, username: string, t: Tweet)
    ensures PreMediaPost(author, asideFormat, username, t) ==
      Post(t.id, author, LinkUrls(t.fullText, t.entities.urls), t.createdAt, asideFormat, PostMeta(username, t),
           (set h | h in Hashtags(t.entities.hashtags)) + (set k | k in Tickers(t.entities.symbols)))
  {
    var p0 := NewPost(author, t);
    var a: seq<Write> := if asideFormat then [MakeAside] else [];
    var m := MetaWrites(username, t);
    var g := TagWrites(t);
    ApplyAllAppend(p0, a + m, g);
    ApplyAllAppend(p0, a, m);
    var p1 := ApplyAll(p0, a);
    assert p1 == p0.(aside := asideFormat) by {
      if asideFormat {
        assert a[1..] == [];
      }
    }
    MetaWritesEffect(p1, username, t);
    assert p1.meta + PostMeta(username, t) == PostMeta(username, t);
    ApplyTwo(ApplyAll(p1, m), AddTerms(Hashtags(t.entities.hashtags)), AddTerms(Tickers(t.entities.symbols)));
  }

  lemma ImportedPostStages(author: nat, asideFormat: bool, username: string, uploadBaseUrl: string, files: seq<string>, t: Tweet)
    ensures ImportedPost(author, asideFormat, username, uploadBaseUrl, files, t) ==
      ApplyAll(PreMediaPost(author, asideFormat, username, t), MediaWrites(uploadBaseUrl, files, t))
  {
    var a: seq<Write> := if asideFormat then [MakeAside] else [];
    ApplyAllAppend(NewPost(author, t), a + MetaWrites(username, t) + TagWrites(t), MediaWrites(uploadBaseUrl, files, t));
  }

  /** What the writes for one media entity do to a post. */
  lemma MediaEntityEffect(p: Post, uploadBaseUrl: string, file: string, tweetId: string, m: MediaEntity)
    ensures var q := ApplyAll(p, MediaEntityWrites(uploadBaseUrl, file, tweetId, m));
      && "_tweet_media" in q.meta && q.meta["_tweet_media"] == MetaText(file)
      && "_tweet_media_type" in q.meta && q.meta["_tweet_media_type"] == MetaText(m.mediaType)
      && "_tweet_id" in q.meta && q.meta["_tweet_id"] == MetaText(tweetId)
      && q.content == ReplaceAll(p.content, m.url, ImgTag(uploadBaseUrl, file))
  {
    var e := MediaEntityWrites(uploadBaseUrl, file, tweetId, m);
    ApplyFour(p, e[0], e[1], e[2], e[3]);
    assert e == [e[0], e[1], e[2], e[3]];
  }

  lemma {:induction false} MediaWritesForEffect(p: Post, uploadBaseUrl: string, file: string, tweetId: string, media: seq<MediaEntity>)
    requires media != []
    ensures var q := ApplyAll(p, MediaWritesFor(uploadBaseUrl, file, tweetId, media));
      && "_tweet_media" in q.meta && q.meta["_tweet_media"] == MetaText(file)
      && "_tweet_media_type" in q.meta && q.meta["_tweet_media_type"] == MetaText(media[|media| - 1].mediaType)
      && "_tweet_id" in q.meta && q.meta["_tweet_id"] == MetaText(tweetId)
      && q.content == ReplaceMedia(p.content, uploadBaseUrl, file, media)
    decreases |media|
  {
    var e := MediaEntityWrites(uploadBaseUrl, file, tweetId, media[0]);
    var rest := MediaWritesFor(uploadBaseUrl, file, tweetId, media[1..]);
    ApplyAllAppend(p, e, rest);
    var p1 := ApplyAll(p, e);
    MediaEntityEffect(p, uploadBaseUrl, file, tweetId, media[0]);
    if media[1..] == [] {
      assert rest == [];
    } else {
      MediaWritesForEffect(p1, uploadBaseUrl, file, tweetId, media[1..]);
      assert media[1..][|media[1..]| - 1] == media[|media| - 1];
    }
  }

  /**
   * The post a top-level record becomes: its slug is the record id, author
   * and date come from the run and the record, the aside format follows the
   * flag, its terms are exactly the hashtags and the `$` tickers, and the
   * meta `set_postmeta` writes survives the media step.
   */
  lemma ImportedPostRecord(author: nat, asideFormat: bool, username: string, uploadBaseUrl: string, files: seq<string>, t: Tweet)
    ensures var q := ImportedPost(author, asideFormat, username, uploadBaseUrl, files, t);
      && q.slug == t.id && q.author == author && q.date == t.createdAt
      && q.aside == asideFormat
      && q.terms == (set h | h in Hashtags(t.entities.hashtags)) + (set k | k in Tickers(t.entities.symbols))
      && "_retweet_count" in q.meta && q.meta["_retweet_count"] == MetaNumber(t.retweetCount)
      && "_favorite_count" in q.meta && q.meta["_favorite_count"] == MetaNumber(t.favoriteCount)
      && "_tweet_url" in q.meta && q.meta["_tweet_url"] == MetaText(TweetUrl(username, t.id))
      && ("_in_reply_to_status_id_str" in q.meta <==> t.replyTo.Some?)
      && (t.replyTo.Some? ==> q.meta["_in_reply_to_status_id_str"] == MetaText(t.replyTo.value))
  {
    var p3 := PreMediaPost(author, asideFormat, username, t);
    var d := MediaWrites(uploadBaseUrl, files, t);
    PreMediaPostShape(author, asideFormat, username, t);
    ImportedPostStages(author, asideFormat, username, uploadBaseUrl, files, t);
    PostMetaValues(username, t);
    ApplyAllKeepsTerms(p3, d);
    MediaKeepsMeta(p3, uploadBaseUrl, files, t, "_retweet_count");
    MediaKeepsMeta(p3, uploadBaseUrl, files, t, "_favorite_count");
    MediaKeepsMeta(p3, uploadBaseUrl, files, t, "_tweet_url");
    MediaKeepsMeta(p3, uploadBaseUrl, files, t, "_in_reply_to_status_id_str");
  }

  /** The values `set_postmeta` stores, key by key. */
  lemma PostMetaValues(username: string, t: Tweet)
    ensures var meta := PostMeta(username, t);
      && "_retweet_count" in meta && meta["_retweet_count"] == MetaNumber(t.retweetCount)
      && "_favorite_count" in meta && meta["_favorite_count"] == MetaNumber(t.favoriteCount)
      && "_tweet_url" in meta && meta["_tweet_url"] == MetaText(TweetUrl(username, t.id))
      && ("_in_reply_to_status_id_str" in meta <==> t.replyTo.Some?)
      && (t.replyTo.Some? ==> meta["_in_reply_to_status_id_str"] == MetaText(t.replyTo.value))
  {
  }

  /** The media step writes none of the other meta keys. */
  lemma MediaKeepsMeta(p: Post, uploadBaseUrl: string, files: seq<string>, t: Tweet, key: string)
    requires key !in {"_tweet_media", "_tweet_media_type", "_tweet_id"}
    ensures var q := ApplyAll(p, MediaWrites(uploadBaseUrl, files, t));
      && (key in q.meta <==> key in p.meta)
      && (key in p.meta ==> q.meta[key] == p.meta[key])
  {
    ApplyAllKeepsMeta(p, MediaWrites(uploadBaseUrl, files, t), key);
  }

  /**
   * The media half of the post: with no file of its own or no media entity
   * the record gets no media meta and keeps its linked text; otherwise
   * `_tweet_media` names the record's own file, `_tweet_id` the record, and
   * each media link in the content is the image tag of that file.
   */
  lemma ImportedPostMedia(author: nat, asideFormat: bool, username: string, uploadBaseUrl: string, files: seq<string>, t: Tweet)
    ensures var q := ImportedPost(author, asideFormat, username, uploadBaseUrl, files, t);
      var linked := LinkUrls(t.fullText, t.entities.urls);
      && (MediaFile(files, t.id).None? || t.entities.media == [] ==>
            "_tweet_media" !in q.meta && "_tweet_id" !in q.meta && q.content == linked)
      && (MediaFile(files, t.id).Some? && t.entities.media != [] ==>
            var file := files[MediaFile(files, t.id).value];
            && StartsWith(file, t.id + "-")
            && "_tweet_media" in q.meta && q.meta["_tweet_media"] == MetaText(file)
            && "_tweet_id" in q.meta && q.meta["_tweet_id"] == MetaText(t.id)
            && q.content == ReplaceMedia(linked, uploadBaseUrl, file, t.entities.media))
  {
    var p3 := PreMediaPost(author, asideFormat, username, t);
    PreMediaPostShape(author, asideFormat, username, t);
    ImportedPostStages(author, asideFormat, username, uploadBaseUrl, files, t);
    match MediaFile(files, t.id)
    case None =>
    case Some(k) =>
      if t.entities.media != [] {
        MediaWritesForEffect(p3, uploadBaseUrl, files[k], t.id, t.entities.media);
      }
  }
}
