/**
 * `process_file` and the run over all archive files: each record is sorted
 * and merged into its thread, then routed by a fixed chain of checks to a
 * skip, a comment under an earlier post, or a post of its own.
 */
module Pipeline {
  import opened Wrappers
  import opened Text
  import opened Tweets
  import opened Threads
  import opened Ordering
  import opened Rendering
  import opened ContentStore
  import opened Posting
  import Decode

  /**
   * The command's options and what it reads once per run: the author id,
   * the three filters, the aside flag, the account's username, the upload
   * base URL and the listing of the media directory.
   */
  datatype Config = Config(
    author: nat,
    skipReplies: bool,
    skipRetweets: bool,
    sinceDate: Option<int>,
    asideFormat: bool,
    username: string,
    uploadBaseUrl: string,
    mediaListing: seq<string>)

  /** The store and the importer's fields that outlive one record. */
  datatype RunState = RunState(
    store: Store,
    idMap: map<string, nat>,
    processed: nat,
    skipped: nat,
    mediaFiles: seq<string>)

  /** The branch `process_file` takes for one record. */
  datatype Decision =
    | SkipOlder
    | SkipRetweetPrefix
    | SkipRetweet
    | SkipExisting
    | SkipReply
    | MakeComment(postId: nat)
    | MakePost
  {
    predicate IsSkip() {
      !MakeComment? && !MakePost?
    }
  }

  /** The checks that depend on the record and the options only. */
  predicate Filtered(cfg: Config, t: Tweet) {
    || (cfg.sinceDate.Some? && t.createdAt < cfg.sinceDate.value)
    || (cfg.skipRetweets && (StartsWith(t.fullText, "RT") || t.retweeted || IsQuoteRetweet(t.entities.urls)))
  }

  /**
   * The chain of checks in source order. A record is skipped exactly when
   * it is filtered, already imported, or a reply whose parent has no post
   * while replies are skipped; a reply whose parent has a post always
   * becomes a comment on that post, whatever the reply option says.
   */
  function Decide(cfg: Config, store: Store, idMap: map<string, nat>, t: Tweet): (d: Decision)
    ensures d.IsSkip() <==>
      Filtered(cfg, t) || Imported(store, t.id) || (cfg.skipReplies && t.replyTo.Some? && t.replyTo.value !in idMap)
    ensures d.MakeComment? <==> !d.IsSkip() && t.replyTo.Some? && t.replyTo.value in idMap
    ensures d.MakeComment? ==> d.postId == idMap[t.replyTo.value]
  {
    if cfg.sinceDate.Some? && t.createdAt < cfg.sinceDate.value then SkipOlder
    else if cfg.skipRetweets && StartsWith(t.fullText, "RT") then SkipRetweetPrefix
    else if cfg.skipRetweets && (t.retweeted || IsQuoteRetweet(t.entities.urls)) then SkipRetweet
    else if Imported(store, t.id) then SkipExisting
    else if t.replyTo.Some? && cfg.skipReplies && t.replyTo.value !in idMap then SkipReply
    else if t.replyTo.Some? && t.replyTo.value in idMap then MakeComment(idMap[t.replyTo.value])
    else MakePost
  }

  /**
   * The comment path: the reply's linked text as a comment on the parent's
   * post, the post flagged as a thread, and the reply mapped to the same post.
   * `tag` is the `_tweet_id` comment meta the comment ends up with.
   */
  function CommentPathWith(cfg: Config, s: RunState, t: Tweet, parent: nat, tag: Option<string>): RunState {
    var c := Comment(parent, cfg.author, LinkUrls(t.fullText, t.entities.urls), tag);
    s.(store := WritePost(InsertComment(s.store, c), parent, [PutMeta("_is_twitter_thread", MetaText("1"))]),
       idMap := s.idMap[t.id := parent])
  }

  /** The comment path as written at line 229: the comment meta is never stored. */
  function CommentPathAsWritten(cfg: Config, s: RunState, t: Tweet, parent: nat): (r: RunState)
    ensures r.store.comments == s.store.comments + [Comment(parent, cfg.author, LinkUrls(t.fullText, t.entities.urls), None)]
  {
    CommentPathWith(cfg, s, t, parent, None)
  }

  /** The comment path with the comment meta stored on the new comment. */
  function CommentPath(cfg: Config, s: RunState, t: Tweet, parent: nat): (r: RunState)
    ensures r.store.comments == s.store.comments + [Comment(parent, cfg.author, LinkUrls(t.fullText, t.entities.urls), Some(t.id))]
    ensures |r.store.posts| == |s.store.posts| && Extends(s.store, r.store)
    ensures Imported(r.store, t.id)
    ensures r.idMap == s.idMap[t.id := parent]
    ensures parent < |s.store.posts| ==>
      "_is_twitter_thread" in r.store.posts[parent].meta && r.store.posts[parent].meta["_is_twitter_thread"] == MetaText("1")
    ensures r.processed == s.processed && r.skipped == s.skipped && r.mediaFiles == s.mediaFiles
  {
    var r := CommentPathWith(cfg, s, t, parent, Some(t.id));
    assert r.store.comments[|s.store.comments|].tweetIdMeta == Some(t.id);
    r
  }

  /**
   * The top-level path: the post is inserted with the next id, the record
   * is mapped to it, and the media listing is read if it is still empty.
   */
  function PostPath(cfg: Config, s: RunState, t: Tweet): (r: RunState)
    ensures |r.store.posts| == |s.store.posts| + 1 && r.store.comments == s.store.comments
    ensures r.store.posts[|s.store.posts|] ==
      ImportedPost(cfg.author, cfg.asideFormat, cfg.username, cfg.uploadBaseUrl, r.mediaFiles, t)
    ensures Extends(s.store, r.store) && Imported(r.store, t.id)
    ensures r.idMap == s.idMap[t.id := |s.store.posts|]
    ensures r.mediaFiles == if |s.mediaFiles| == 0 then cfg.mediaListing else s.mediaFiles
    ensures r.processed == s.processed && r.skipped == s.skipped
  {
    var id := |s.store.posts|;
    var files := if |s.mediaFiles| == 0 then cfg.mediaListing else s.mediaFiles;
    var inserted := InsertPost(s.store, NewPost(cfg.author, t));
    var store := WritePost(inserted, id, PostWrites(cfg.asideFormat, cfg.username, cfg.uploadBaseUrl, files, t));
    assert store.posts[id].slug == t.id;
    s.(store := store, idMap := s.idMap[t.id := id], mediaFiles := files)
  }

  /** One pass of the loop body of `process_file`. */
  function Step(cfg: Config, s: RunState, t: Tweet): (r: RunState)
    ensures r.processed == s.processed + 1
    ensures Decide(cfg, s.store, s.idMap, t).IsSkip() ==> r == s.(processed := s.processed + 1, skipped := s.skipped + 1)
    ensures !Decide(cfg, s.store, s.idMap, t).IsSkip() ==>
      r.skipped == s.skipped && Imported(r.store, t.id) && t.id in r.idMap
    ensures Extends(s.store, r.store)
    ensures r.mediaFiles == s.mediaFiles || r.mediaFiles == cfg.mediaListing
  {
    var s1 := s.(processed := s.processed + 1);
    match Decide(cfg, s.store, s.idMap, t)
    case MakeComment(parent) => CommentPath(cfg, s1, t, parent)
    case MakePost => PostPath(cfg, s1, t)
    case _ => s1.(skipped := s1.skipped + 1)
  }

  /** The loop of `process_file` over prepared records. */
  function Run(cfg: Config, s: RunState, ts: seq<Tweet>): (r: RunState)
    ensures r.processed == s.processed + |ts|
    ensures s.skipped <= r.skipped <= s.skipped + |ts|
    ensures Extends(s.store, r.store)
    decreases |ts|
  {
    if ts == [] then s
    else
      var s1 := Step(cfg, s, ts[0]);
      var r := Run(cfg, s1, ts[1..]);
      ExtendsTransitive(s.store, s1.store, r.store);
      r
  }

  /** What `process_file` does before its loop: sort by id, then merge threads. */
  function Prepare(records: seq<Tweet>): seq<Tweet> {
    MergeThreads(SortById(records))
  }

  function PrepareAll(files: seq<seq<Tweet>>): seq<Tweet>
    decreases |files|
  {
    if files == [] then [] else Prepare(files[0]) + PrepareAll(files[1..])
  }

  /** `__invoke`: every archive file in turn, one importer for the whole run. */
  function ImportAll(cfg: Config, s: RunState, files: seq<seq<Tweet>>): RunState
    decreases |files|
  {
    if files == [] then s else ImportAll(cfg, Run(cfg, s, Prepare(files[0])), files[1..])
  }

  lemma {:induction false} RunAppend(cfg: Config, s: RunState, a: seq<Tweet>, b: seq<Tweet>)
    ensures Run(cfg, s, a + b) == Run(cfg, Run(cfg, s, a), b)
    decreases |a|
  {
    if a == [] {
      assert a + b == b;
    } else {
      assert (a + b)[1..] == a[1..] + b;
      RunAppend(cfg, Step(cfg, s, a[0]), a[1..], b);
    }
  }

  /** Importing file after file is one run over all their prepared records. */
  lemma {:induction false} ImportAllIsRun(cfg: Config, s: RunState, files: seq<seq<Tweet>>)
    ensures ImportAll(cfg, s, files) == Run(cfg, s, PrepareAll(files))
    decreases |files|
  {
    if files != [] {
      ImportAllIsRun(cfg, Run(cfg, s, Prepare(files[0])), files[1..]);
      RunAppend(cfg, s, Prepare(files[0]), PrepareAll(files[1..]));
    }
  }

  // ---------------------------------------------------------------------
  // Records are handled in ascending id order.

  predicate AscendingIds(ids: seq<string>) {
    forall i, j :: 0 <= i < j < |ids| ==> !IdLess(ids[j], ids[i])
  }

  lemma {:induction false} SubsequenceMembers<T>(a: seq<T>, b: seq<T>)
    requires IsSubsequence(a, b)
    ensures forall x :: x in a ==> x in b
    decreases |b|
  {
    if a != [] {
      if a[0] == b[0] && IsSubsequence(a[1..], b[1..]) {
        SubsequenceMembers(a[1..], b[1..]);
        forall x | x in a ensures x in b {
          if x != a[0] {
            assert x in a[1..];
          }
        }
      } else {
        SubsequenceMembers(a, b[1..]);
      }
    }
  }

  lemma {:induction false} SubsequenceAscending(a: seq<string>, b: seq<string>)
    requires IsSubsequence(a, b) && AscendingIds(b)
    ensures AscendingIds(a)
    decreases |b|
  {
    if a != [] {
      if a[0] == b[0] && IsSubsequence(a[1..], b[1..]) {
        SubsequenceAscending(a[1..], b[1..]);
        SubsequenceMembers(a[1..], b[1..]);
        forall i, j | 0 <= i < j < |a| ensures !IdLess(a[j], a[i]) {
          if i == 0 {
            assert a[j] in b[1..];
            var m :| 0 <= m < |b[1..]| && b[1..][m] == a[j];
            assert b[m + 1] == a[j];
          } else {
            assert a[1..][i - 1] == a[i] && a[1..][j - 1] == a[j];
          }
        }
      } else {
        SubsequenceAscending(a, b[1..]);
      }
    }
  }

  /** The loop sees the records of a file in ascending id order, threads merged. */
  lemma PreparedAscending(records: seq<Tweet>)
    ensures SortedById(Prepare(records))
    ensures |Prepare(records)| <= |records|
    ensures multiset(SortById(records)) == multiset(records)
  {
    var sorted := SortById(records);
    MergeThreadsKeepsOrder(sorted);
    SubsequenceAscending(Ids(Prepare(records)), Ids(sorted));
  }

  // ---------------------------------------------------------------------
  // The id map only names posts that exist and records that were imported.

  predicate MapValid(s: RunState) {
    forall k :: k in s.idMap ==> s.idMap[k] < |s.store.posts| && Imported(s.store, k)
  }

  lemma StepKeepsMapValid(cfg: Config, s: RunState, t: Tweet)
    requires MapValid(s)
    ensures MapValid(Step(cfg, s, t))
  {
    var r := Step(cfg, s, t);
    forall k | k in s.idMap ensures Imported(r.store, k) {
      ImportedStaysImported(s.store, r.store, k);
    }
  }

  lemma {:induction false} RunKeepsMapValid(cfg: Config, s: RunState, ts: seq<Tweet>)
    requires MapValid(s)
    ensures MapValid(Run(cfg, s, ts))
    decreases |ts|
  {
    if ts != [] {
      StepKeepsMapValid(cfg, s, ts[0]);
      RunKeepsMapValid(cfg, Step(cfg, s, ts[0]), ts[1..]);
    }
  }

  // ---------------------------------------------------------------------
  // Running the import again adds nothing.

  /** A record a later run with an empty id map skips against this store. */
  predicate Settled(cfg: Config, store: Store, t: Tweet) {
    Filtered(cfg, t) || Imported(store, t.id) || (cfg.skipReplies && t.replyTo.Some?)
  }

  lemma SettledPersists(cfg: Config, a: Store, b: Store, t: Tweet)
    requires Extends(a, b) && Settled(cfg, a, t)
    ensures Settled(cfg, b, t)
  {
    if Imported(a, t.id) {
      ImportedStaysImported(a, b, t.id);
    }
  }

  /** After a run, every record of it is settled against the final store. */
  lemma {:induction false} RunSettles(cfg: Config, s: RunState, ts: seq<Tweet>)
    ensures forall i :: 0 <= i < |ts| ==> Settled(cfg, Run(cfg, s, ts).store, ts[i])
    decreases |ts|
  {
    if ts != [] {
      var s1 := Step(cfg, s, ts[0]);
      var r := Run(cfg, s, ts);
      assert r == Run(cfg, s1, ts[1..]);
      RunSettles(cfg, s1, ts[1..]);
      SettledPersists(cfg, s1.store, r.store, ts[0]);
      forall i | 1 <= i < |ts| ensures Settled(cfg, r.store, ts[i]) {
        assert ts[i] == ts[1..][i - 1];
      }
    }
  }

  /** A run over settled records from an empty id map skips every one of them. */
  lemma {:induction false} RunOverSettled(cfg: Config, s: RunState, ts: seq<Tweet>)
    requires s.idMap == map[]
    requires forall i :: 0 <= i < |ts| ==> Settled(cfg, s.store, ts[i])
    ensures Run(cfg, s, ts).store == s.store
    ensures Run(cfg, s, ts).idMap == map[]
    ensures Run(cfg, s, ts).skipped == s.skipped + |ts|
    decreases |ts|
  {
    if ts != [] {
      assert Settled(cfg, s.store, ts[0]);
      var s1 := Step(cfg, s, ts[0]);
      assert s1 == s.(processed := s.processed + 1, skipped := s.skipped + 1);
      forall i | 0 <= i < |ts[1..]| ensures Settled(cfg, s1.store, ts[1..][i]) {
        assert ts[1..][i] == ts[i + 1];
      }
      RunOverSettled(cfg, s1, ts[1..]);
    }
  }

  /**
   * Importing the same records a second time, from a new importer (empty id
   * map) on the store the first import left, skips every record and leaves
   * the store as it was.
   */
  lemma ReimportAddsNothing(cfg: Config, s: RunState, ts: seq<Tweet>, again: RunState)
    requires again.store == Run(cfg, s, ts).store && again.idMap == map[]
    ensures Run(cfg, again, ts).store == again.store
    ensures Run(cfg, again, ts).skipped == again.skipped + |ts|
  {
    RunSettles(cfg, s, ts);
    RunOverSettled(cfg, again, ts);
  }

  /** The same for a whole archive of several files. */
  lemma ReimportArchiveAddsNothing(cfg: Config, s: RunState, files: seq<seq<Tweet>>, again: RunState)
    requires again.store == ImportAll(cfg, s, files).store && again.idMap == map[]
    ensures ImportAll(cfg, again, files).store == again.store
  {
    ImportAllIsRun(cfg, s, files);
    ImportAllIsRun(cfg, again, files);
    ReimportAddsNothing(cfg, s, PrepareAll(files), again);
  }

  /**
   * As written, the comment path leaves the reply undetectable: a later run
   * (empty id map, replies not skipped) finds it not imported and makes it a
   * post of its own, a duplicate of the comment.
   */
  lemma AsWrittenCommentIsReimported(cfg: Config, s: RunState, t: Tweet, parent: nat)
    requires !Imported(s.store, t.id)
    requires !Filtered(cfg, t) && !cfg.skipReplies && t.replyTo.Some?
    ensures !Imported(CommentPathAsWritten(cfg, s, t, parent).store, t.id)
    ensures Decide(cfg, CommentPathAsWritten(cfg, s, t, parent).store, map[], t) == MakePost
  {
    var r := CommentPathAsWritten(cfg, s, t, parent);
    forall j | 0 <= j < |r.store.comments| ensures r.store.comments[j].tweetIdMeta != Some(t.id) {
      if j < |s.store.comments| {
        assert r.store.comments[j] == s.store.comments[j];
      }
    }
  }

  /**
   * The permalink of a new post names the archive's own account: when the
   * decoded account file is an array whose first element has an `account`
   * object, that object is what the account reader returns, and with the
   * username taken from its `username` member, a record that becomes a post
   * gets a `_tweet_url` on that account's status page for the record's id.
   */
  lemma PostUrlNamesAccount(items: seq<Decode.Json>, top: seq<Decode.Member>, account: seq<Decode.Member>,
                            u: string, cfg: Config, s: RunState, t: Tweet)
    requires |items| > 0 && items[0] == Decode.JObject(top)
    requires Decode.Get(top, "account") == Some(Decode.JObject(account))
    requires Decode.Get(account, "username") == Some(Decode.JString(u))
    requires cfg.username == Decode.Username(Decode.JObject(account))
    requires Decide(cfg, s.store, s.idMap, t) == MakePost
    ensures Decode.AccountData(Some(Decode.JArray(items))) == Ok(Decode.JObject(account))
    ensures var r := Step(cfg, s, t);
      && |r.store.posts| == |s.store.posts| + 1
      && "_tweet_url" in r.store.posts[|s.store.posts|].meta
      && r.store.posts[|s.store.posts|].meta["_tweet_url"] == MetaText(TweetUrl(u, t.id))
  {
    var r := Step(cfg, s, t);
    ImportedPostRecord(cfg.author, cfg.asideFormat, cfg.username, cfg.uploadBaseUrl, r.mediaFiles, t);
  }
}
