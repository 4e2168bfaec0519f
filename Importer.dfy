/**
 * The import command as an object: the counters, the id map and the media
 * listing are fields its methods update in place, and the content store is
 * a field they write to. Each method is proved to leave the state the
 * functional pipeline describes.
 */
module Importing {
  import opened Wrappers
  import opened Text
  import opened Tweets
  import opened Threads
  import opened Ordering
  import opened Rendering
  import opened ContentStore
  import opened Posting
  import opened Pipeline

  class Importer {
    const cfg: Config
    var store: Store
    var idMap: map<string, nat>
    var processed: nat
    var skipped: nat
    var mediaFiles: seq<string>

    function State(): RunState
      reads this
    {
      RunState(store, idMap, processed, skipped, mediaFiles)
    }

    ghost predicate Valid()
      reads this
    {
      && skipped <= processed
      && MapValid(State())
      && (mediaFiles == [] || mediaFiles == cfg.mediaListing)
    }

    /** A new command: zero counters, an empty id map, no media listing read yet. */
    constructor(cfg: Config, store: Store)
      ensures this.cfg == cfg && State() == RunState(store, map[], 0, 0, [])
      ensures Valid()
    {
      this.cfg := cfg;
      this.store := store;
      idMap := map[];
      processed := 0;
      skipped := 0;
      mediaFiles := [];
    }

    /** The loop of `__invoke` over the archive files. */
    method Import(files: seq<seq<Tweet>>)
      requires Valid()
      modifies this
      ensures Valid()
      ensures State() == ImportAll(cfg, old(State()), files)
    {
      for f := 0 to |files|
        invariant Valid()
        invariant ImportAll(cfg, State(), files[f..]) == ImportAll(cfg, old(State()), files)
      {
        assert files[f..][1..] == files[f + 1..];
        ProcessFile(files[f]);
      }
    }

    /** `process_file` on the decoded records of one file. */
    method ProcessFile(records: seq<Tweet>)
      requires Valid()
      modifies this
      ensures Valid()
      ensures State() == Run(cfg, old(State()), Prepare(records))
    {
      var tweets := SortById(records);
      tweets := MergeTweetThreads(tweets);
      for i := 0 to |tweets|
        invariant Valid()
        invariant Run(cfg, State(), tweets[i..]) == Run(cfg, old(State()), tweets)
      {
        assert tweets[i..][1..] == tweets[i + 1..];
        StepKeepsMapValid(cfg, State(), tweets[i]);
        HandleTweet(tweets[i]);
      }
    }

    /** The body of the loop in `process_file`. */
    method HandleTweet(t: Tweet)
      modifies this
      ensures State() == Step(cfg, old(State()), t)
    {
      ghost var d := Decide(cfg, store, idMap, t);
      processed := processed + 1;
      if cfg.sinceDate.Some? && t.createdAt < cfg.sinceDate.value {
        skipped := skipped + 1;
        return;
      }
      if cfg.skipRetweets && StartsWith(t.fullText, "RT") {
        skipped := skipped + 1;
        return;
      }
      if cfg.skipRetweets && (t.retweeted || IsQuoteRetweet(t.entities.urls)) {
        skipped := skipped + 1;
        return;
      }
      if Imported(store, t.id) {
        skipped := skipped + 1;
        return;
      }
      if t.replyTo.Some? && cfg.skipReplies && t.replyTo.value !in idMap {
        skipped := skipped + 1;
        return;
      }
      if t.replyTo.Some? && t.replyTo.value in idMap {
        assert d == MakeComment(idMap[t.replyTo.value]);
        AddReplyComment(t, idMap[t.replyTo.value]);
      } else {
        assert d == MakePost;
        AddTopLevelPost(t);
      }
    }

    /** The comment path of `process_file`: the reply becomes a comment on its parent's post. */
    method AddReplyComment(t: Tweet, parent: nat)
      modifies this
      ensures State() == CommentPath(cfg, old(State()), t, parent)
    {
      var tweetText := SubstituteUrls(t.fullText, t.entities.urls);
      store := InsertComment(store, Comment(parent, cfg.author, tweetText, Some(t.id)));
      store := WritePost(store, parent, [PutMeta("_is_twitter_thread", MetaText("1"))]);
      idMap := idMap[t.id := parent];
    }

    /** The top-level path of `process_file`: a post of its own, then its format, meta, terms and media. */
    method AddTopLevelPost(t: Tweet)
      modifies this
      ensures State() == PostPath(cfg, old(State()), t)
    {
      var postId := ProcessTweet(t);
      idMap := idMap[t.id := postId];
      ghost var inserted := store;
      ghost var aside: seq<Write> := if cfg.asideFormat then [MakeAside] else [];
      if cfg.asideFormat {
        store := WritePost(store, postId, [MakeAside]);
      } else {
        WritePostNothing(store, postId);
      }
      SetPostmeta(t, postId);
      SetHashtags(t, postId);
      SetTickerSymbols(t, postId);
      ProcessMedia(t, postId);
      WritePostFive(inserted, postId, aside, MetaWrites(cfg.username, t),
                    [AddTerms(Hashtags(t.entities.hashtags))], [AddTerms(Tickers(t.entities.symbols))],
                    MediaWrites(cfg.uploadBaseUrl, mediaFiles, t));
      assert [AddTerms(Hashtags(t.entities.hashtags))] + [AddTerms(Tickers(t.entities.symbols))] == TagWrites(t);
    }

    /** `process_tweet`: the post is inserted with the record's linked text and returns its id. */
    method ProcessTweet(t: Tweet) returns (postId: nat)
      modifies this
      ensures postId == |old(store).posts|
      ensures State() == old(State()).(store := InsertPost(old(store), NewPost(cfg.author, t)))
    {
      var tweetText := SubstituteUrls(t.fullText, t.entities.urls);
      postId := |store.posts|;
      store := InsertPost(store, Post(t.id, cfg.author, tweetText, t.createdAt, false, map[], {}));
    }

    /** `update_post_meta`. */
    method UpdatePostMeta(postId: nat, key: string, value: MetaValue)
      modifies this
      ensures State() == old(State()).(store := WritePost(old(store), postId, [PutMeta(key, value)]))
    {
      store := WritePost(store, postId, [PutMeta(key, value)]);
    }

    /** `set_postmeta`. */
    method SetPostmeta(t: Tweet, postId: nat)
      modifies this
      ensures State() == old(State()).(store := WritePost(old(store), postId, MetaWrites(cfg.username, t)))
    {
      var r := PutMeta("_retweet_count", MetaNumber(t.retweetCount));
      var f := PutMeta("_favorite_count", MetaNumber(t.favoriteCount));
      var u := PutMeta("_tweet_url", MetaText(TweetUrl(cfg.username, t.id)));
      UpdatePostMeta(postId, r.key, r.value);
      UpdatePostMeta(postId, f.key, f.value);
      WritePostTwice(old(store), postId, [r], [f]);
      ghost var done := [r, f];
      if t.replyTo.Some? {
        var i := PutMeta("_in_reply_to_status_id_str", MetaText(t.replyTo.value));
        UpdatePostMeta(postId, i.key, i.value);
        WritePostTwice(old(store), postId, done, [i]);
        done := done + [i];
      }
      UpdatePostMeta(postId, u.key, u.value);
      WritePostTwice(old(store), postId, done, [u]);
      done := done + [u];
      assert done == MetaWrites(cfg.username, t);
    }

    /** `set_hashtags`: the hashtag texts, collected in order, added as terms. */
    method SetHashtags(t: Tweet, postId: nat)
      modifies this
      ensures State() == old(State()).(store := WritePost(old(store), postId, [AddTerms(Hashtags(t.entities.hashtags))]))
    {
      var tags := t.entities.hashtags;
      var hashtags: seq<string> := [];
      for i := 0 to |tags|
        invariant |hashtags| == i
        invariant forall k :: 0 <= k < i ==> hashtags[k] == tags[k].text
      {
        hashtags := hashtags + [tags[i].text];
      }
      assert hashtags == Hashtags(tags);
      store := WritePost(store, postId, [AddTerms(hashtags)]);
    }

    /** `set_ticker_symbols`: each symbol with a `$` in front, added as terms. */
    method SetTickerSymbols(t: Tweet, postId: nat)
      modifies this
      ensures State() == old(State()).(store := WritePost(old(store), postId, [AddTerms(Tickers(t.entities.symbols))]))
    {
      var symbols := t.entities.symbols;
      var tickers: seq<string> := [];
      for i := 0 to |symbols|
        invariant |tickers| == i
        invariant forall k :: 0 <= k < i ==> tickers[k] == "$" + symbols[k].text
      {
        tickers := tickers + ["$" + symbols[i].text];
      }
      ghost var expected := Tickers(symbols);
      assert forall k :: 0 <= k < |symbols| ==> expected[k] == [expected[k][0]] + expected[k][1..];
      assert tickers == expected;
      store := WritePost(store, postId, [AddTerms(tickers)]);
    }

    /**
     * The block of `process_media` run for the file found: its name, the
     * media type and the record id as meta, and the media link in the post
     * content replaced by the image tag.
     */
    method AttachMedia(postId: nat, found: string, m: MediaEntity, tweetId: string)
      modifies this
      ensures State() == old(State()).(store := WritePost(old(store), postId, MediaEntityWrites(cfg.uploadBaseUrl, found, tweetId, m)))
    {
      store := WritePost(store, postId, [PutMeta("_tweet_media", MetaText(found)),
                                         PutMeta("_tweet_media_type", MetaText(m.mediaType)),
                                         PutMeta("_tweet_id", MetaText(tweetId)),
                                         ReplaceInContent(m.url, ImgTag(cfg.uploadBaseUrl, found))]);
    }

    /**
     * The scan of the listing for one media entity: the index of the first
     * file that belongs to the record, if any.
     */
    method FindMediaFile(tweetId: string) returns (found: Option<nat>)
      ensures found.Some? ==> found.value < |mediaFiles| && StartsWith(mediaFiles[found.value], tweetId + "-")
      ensures found.Some? ==> forall j :: 0 <= j < found.value ==> !StartsWith(mediaFiles[j], tweetId + "-")
      ensures found.None? <==> forall j :: 0 <= j < |mediaFiles| ==> !StartsWith(mediaFiles[j], tweetId + "-")
      ensures found == MediaFile(mediaFiles, tweetId)
    {
      var prefix := tweetId + "-";
      var j := 0;
      while j < |mediaFiles|
        invariant 0 <= j <= |mediaFiles|
        invariant MediaFile(mediaFiles, tweetId) == FirstWithPrefix(mediaFiles, prefix, j)
      {
        if StartsWith(mediaFiles[j], prefix) {
          return Some(j);
        }
        j := j + 1;
      }
      return None;
    }

    /**
     * `process_media`: the listing is read when still empty; for each media
     * entity the listing is scanned for the record's first file, and when one
     * is found its meta is written and the media link in the content becomes
     * its image tag.
     */
    method ProcessMedia(t: Tweet, postId: nat)
      modifies this
      ensures mediaFiles == if |old(mediaFiles)| == 0 then cfg.mediaListing else old(mediaFiles)
      ensures State() == old(State()).(store := WritePost(old(store), postId, MediaWrites(cfg.uploadBaseUrl, mediaFiles, t)),
                                       mediaFiles := mediaFiles)
    {
      if |mediaFiles| == 0 {
        mediaFiles := cfg.mediaListing;
      }
      var media := t.entities.media;
      ghost var start := store;
      for m := 0 to |media|
        invariant mediaFiles == if |old(mediaFiles)| == 0 then cfg.mediaListing else old(mediaFiles)
        invariant idMap == old(idMap) && processed == old(processed) && skipped == old(skipped)
        invariant store == WritePost(start, postId, MediaWritesUpTo(cfg.uploadBaseUrl, mediaFiles, t, m))
      {
        var found := FindMediaFile(t.id);
        if found.Some? {
          var j := found.value;
          MediaWritesUpToNext(cfg.uploadBaseUrl, mediaFiles, t, m, j);
          WritePostTwice(start, postId, MediaWritesUpTo(cfg.uploadBaseUrl, mediaFiles, t, m),
                         MediaEntityWrites(cfg.uploadBaseUrl, mediaFiles[j], t.id, media[m]));
          AttachMedia(postId, mediaFiles[j], media[m], t.id);
        }
      }
      MediaWritesUpToAll(cfg.uploadBaseUrl, mediaFiles, t);
    }
  }
}
