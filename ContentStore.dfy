/**
 * The content store the importer writes to, reduced to what the importer
 * does with it: insert posts and comments, write to an existing post (meta,
 * terms, post format, content), and ask whether a record was imported
 * before. A post's id is its position in `posts`.
 */
module ContentStore {
  import opened Wrappers
  import opened Text

  datatype MetaValue = MetaText(text: string) | MetaNumber(number: int)

  datatype Post = Post(
    slug: string,
    author: nat,
    content: string,
    date: int,
    aside: bool,
    meta: map<string, MetaValue>,
    terms: set<string>)

  /** A comment, with the value of its `_tweet_id` comment meta if it has one. */
  datatype Comment = Comment(postId: nat, author: nat, content: string, tweetIdMeta: Option<string>)

  datatype Store = Store(posts: seq<Post>, comments: seq<Comment>)

  /**
   * One write to an existing post: `update_post_meta`, `wp_set_post_terms`
   * in append mode, `set_post_format(..., 'aside')`, or a `str_replace` on
   * the post content saved back with `wp_update_post`.
   */
  datatype Write =
    | PutMeta(key: string, value: MetaValue)
    | AddTerms(terms: seq<string>)
    | MakeAside
    | ReplaceInContent(search: string, replacement: string)

  function Apply(p: Post, w: Write): Post {
    match w
    case PutMeta(k, v) => p.(meta := p.meta[k := v])
    case AddTerms(ts) => p.(terms := p.terms + set t | t in ts)
    case MakeAside => p.(aside := true)
    case ReplaceInContent(search, replacement) => p.(content := ReplaceAll(p.content, search, replacement))
  }

  /** The writes applied in order; none of them touches slug, author or date. */
  function ApplyAll(p: Post, ws: seq<Write>): (q: Post)
    ensures q.slug == p.slug && q.author == p.author && q.date == p.date
    decreases |ws|
  {
    if ws == [] then p else ApplyAll(Apply(p, ws[0]), ws[1..])
  }

  /** `wp_insert_post`: the new post gets the next id. */
  function InsertPost(s: Store, p: Post): Store {
    s.(posts := s.posts + [p])
  }

  /** `wp_insert_comment`. */
  function InsertComment(s: Store, c: Comment): Store {
    s.(comments := s.comments + [c])
  }

  /** Writes to post `id`; an id that names no post changes nothing. */
  function WritePost(s: Store, id: nat, ws: seq<Write>): (r: Store)
    ensures |r.posts| == |s.posts| && r.comments == s.comments
    ensures forall i :: 0 <= i < |s.posts| && i != id ==> r.posts[i] == s.posts[i]
    ensures id < |s.posts| ==> r.posts[id] == ApplyAll(s.posts[id], ws)
    ensures Extends(s, r)
  {
    if id < |s.posts| then s.(posts := s.posts[id := ApplyAll(s.posts[id], ws)]) else s
  }

  /**
   * `does_tweet_already_exist`: a post whose slug is the record id, or a
   * comment whose `_tweet_id` meta is the record id.
   */
  predicate Imported(s: Store, tweetId: string) {
    || (exists i :: 0 <= i < |s.posts| && s.posts[i].slug == tweetId)
    || (exists j :: 0 <= j < |s.comments| && s.comments[j].tweetIdMeta == Some(tweetId))
  }

  /** `r` is `s` after writes only: no post removed or renamed, no comment removed. */
  predicate Extends(s: Store, r: Store) {
    && |s.posts| <= |r.posts|
    && (forall i :: 0 <= i < |s.posts| ==> r.posts[i].slug == s.posts[i].slug)
    && s.comments <= r.comments
  }

  lemma ExtendsTransitive(a: Store, b: Store, c: Store)
    requires Extends(a, b) && Extends(b, c)
    ensures Extends(a, c)
  {
  }

  /** What was imported stays imported, whatever writes follow. */
  lemma ImportedStaysImported(s: Store, r: Store, tweetId: string)
    requires Extends(s, r) && Imported(s, tweetId)
    ensures Imported(r, tweetId)
  {
    if exists i :: 0 <= i < |s.posts| && s.posts[i].slug == tweetId {
      var i :| 0 <= i < |s.posts| && s.posts[i].slug == tweetId;
      assert r.posts[i].slug == tweetId;
    } else {
      var j :| 0 <= j < |s.comments| && s.comments[j].tweetIdMeta == Some(tweetId);
      assert r.comments[j] == s.comments[j];
    }
  }

  /** Applying `a` and then `b` is applying `a + b`. */
  lemma {:induction false} ApplyAllAppend(p: Post, a: seq<Write>, b: seq<Write>)
    ensures ApplyAll(p, a + b) == ApplyAll(ApplyAll(p, a), b)
    decreases |a|
  {
    if a != [] {
      assert (a + b)[1..] == a[1..] + b;
      ApplyAllAppend(Apply(p, a[0]), a[1..], b);
    } else {
      assert a + b == b;
    }
  }

  /** Two rounds of writes to the same post are one round of all of them. */
  lemma WritePostTwice(s: Store, id: nat, a: seq<Write>, b: seq<Write>)
    ensures WritePost(WritePost(s, id, a), id, b) == WritePost(s, id, a + b)
  {
    if id < |s.posts| {
      ApplyAllAppend(s.posts[id], a, b);
    }
  }

  /** Five rounds of writes to one post, as the top-level path makes them. */
  lemma WritePostFive(s: Store, id: nat, a: seq<Write>, b: seq<Write>, c: seq<Write>, d: seq<Write>, e: seq<Write>)
    ensures WritePost(WritePost(WritePost(WritePost(WritePost(s, id, a), id, b), id, c), id, d), id, e) ==
      WritePost(s, id, a + b + (c + d) + e)
  {
    WritePostTwice(s, id, a, b);
    WritePostTwice(s, id, a + b, c);
    WritePostTwice(s, id, a + b + c, d);
    WritePostTwice(s, id, a + b + c + d, e);
    assert a + b + c + d + e == a + b + (c + d) + e;
  }

  lemma WritePostNothing(s: Store, id: nat)
    ensures WritePost(s, id, []) == s
  {
    if id < |s.posts| {
      assert s.posts[id := s.posts[id]] == s.posts;
    }
  }

  /** A meta key no write names keeps its presence and its value. */
  lemma {:induction false} ApplyAllKeepsMeta(p: Post, ws: seq<Write>, key: string)
    requires forall i :: 0 <= i < |ws| ==> !(ws[i].PutMeta? && ws[i].key == key)
    ensures key in ApplyAll(p, ws).meta <==> key in p.meta
    ensures key in p.meta ==> ApplyAll(p, ws).meta[key] == p.meta[key]
    decreases |ws|
  {
    if ws != [] {
      assert !(ws[0].PutMeta? && ws[0].key == key);
      ApplyAllKeepsMeta(Apply(p, ws[0]), ws[1..], key);
    }
  }

  /** Writes of meta and content only keep the terms and the post format. */
  lemma {:induction false} ApplyAllKeepsTerms(p: Post, ws: seq<Write>)
    requires forall i :: 0 <= i < |ws| ==> ws[i].PutMeta? || ws[i].ReplaceInContent?
    ensures ApplyAll(p, ws).terms == p.terms && ApplyAll(p, ws).aside == p.aside
    decreases |ws|
  {
    if ws != [] {
      assert ws[0].PutMeta? || ws[0].ReplaceInContent?;
      ApplyAllKeepsTerms(Apply(p, ws[0]), ws[1..]);
    }
  }
}
