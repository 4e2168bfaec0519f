/**
 * One decoded, sanitised tweet record of the archive. The archive stores the
 * id both as `id` and `id_str` and the parent both as
 * `in_reply_to_status_id` and `in_reply_to_status_id_str`, always as the same
 * decimal string; each pair is one field here.
 */
module Tweets {
  import opened Wrappers

  /** An element of `entities.urls`: the t.co link and what it stands for. */
  datatype UrlEntity = UrlEntity(url: string, expandedUrl: string, displayUrl: string)

  /** An element of `entities.media`: its t.co link and its kind (`photo`, `video`, ...). */
  datatype MediaEntity = MediaEntity(url: string, mediaType: string)

  /** An element of `entities.hashtags` or `entities.symbols`. */
  datatype TagEntity = TagEntity(text: string)

  /** A missing list (`isset` false) is the empty list: every use treats them alike. */
  datatype Entities = Entities(
    urls: seq<UrlEntity>,
    hashtags: seq<TagEntity>,
    symbols: seq<TagEntity>,
    media: seq<MediaEntity>)

  datatype Tweet = Tweet(
    id: string,
    replyTo: Option<string>,
    createdAt: int,
    fullText: string,
    entities: Entities,
    extendedMedia: Option<seq<MediaEntity>>,
    retweetCount: int,
    favoriteCount: int,
    retweeted: bool)

  function Ids(ts: seq<Tweet>): (ids: seq<string>)
    ensures |ids| == |ts|
    ensures forall i :: 0 <= i < |ts| ==> ids[i] == ts[i].id
  {
    seq(|ts|, i requires 0 <= i < |ts| => ts[i].id)
  }
}
