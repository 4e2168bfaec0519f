/**
 * Reading the archive files once their text is in hand: the JavaScript
 * assignment in front of the JSON is cut off, the decoded account file is
 * checked for its shape, and each decoded tweet record is unwrapped and
 * stripped of the fields the importer never uses. JSON parsing itself is
 * not modelled: `json_decode`'s outcome is an input, `None` when it throws.
 */
module Decode {
  import opened Wrappers
  import opened Text

  /** A decoded JSON value; objects keep their members in document order. */
  datatype Json =
    | JNull
    | JBool(b: bool)
    | JNumber(n: int)
    | JString(s: string)
    | JArray(items: seq<Json>)
    | JObject(members: seq<Member>)

  datatype Member = Member(key: string, value: Json)

  datatype DecodeError = InvalidJson | NotAnArray | MalformedAccount

  /**
   * Reading property `key` of a decoded object: the member's value, if there
   * is one. `json_decode` keeps the last of duplicate keys, so the search
   * runs from the end.
   */
  function Get(members: seq<Member>, key: string): (r: Option<Json>)
    ensures r.Some? <==> exists i :: 0 <= i < |members| && members[i].key == key
    ensures r.Some? ==> exists i :: LastWithKey(members, i, key) && members[i].value == r.value
    decreases |members|
  {
    if members == [] then None
    else
      var later := Get(members[1..], key);
      assert forall i :: 1 <= i < |members| ==> members[i] == members[1..][i - 1];
      match later
      case Some(v) =>
        var i :| LastWithKey(members[1..], i, key) && members[1..][i].value == v;
        assert LastWithKey(members, i + 1, key);
        later
      case None =>
        if members[0].key == key then
          assert LastWithKey(members, 0, key);
          Some(members[0].value)
        else None
  }

  /** Member `i` has key `key` and no later member has. */
  predicate LastWithKey(members: seq<Member>, i: int, key: string) {
    0 <= i < |members| && members[i].key == key && forall j :: i < j < |members| ==> members[j].key != key
  }

  /** The keys of an object's members, each once, in the order they first appear. */
  function DistinctKeys(members: seq<Member>): (r: seq<string>)
    ensures forall k :: k in r <==> exists i :: 0 <= i < |members| && members[i].key == k
    ensures forall i, j :: 0 <= i < j < |r| ==> r[i] != r[j]
    decreases |members|
  {
    if members == [] then []
    else
      var front := members[..|members| - 1];
      var keys := DistinctKeys(front);
      assert forall i :: 0 <= i < |front| ==> members[i] == front[i];
      if members[|members| - 1].key in keys then keys else keys + [members[|members| - 1].key]
  }

  /**
   * The properties of the object `json_decode` builds from `members`: one
   * per distinct key, at the key's first position, holding its last value.
   */
  function ObjectMembers(members: seq<Member>): (r: seq<Member>)
    ensures |r| == |DistinctKeys(members)|
    ensures forall i :: 0 <= i < |r| ==> r[i].key == DistinctKeys(members)[i] && Get(members, r[i].key) == Some(r[i].value)
  {
    var keys := DistinctKeys(members);
    KeysHaveValues(members);
    seq(|keys|, i requires 0 <= i < |keys| => Member(keys[i], Get(members, keys[i]).value))
  }

  /** Every distinct key can be read off the object. */
  lemma KeysHaveValues(members: seq<Member>)
    ensures forall k :: k in DistinctKeys(members) ==> Get(members, k).Some?
  {
    forall k | k in DistinctKeys(members) ensures Get(members, k).Some? {
      var n :| 0 <= n < |members| && members[n].key == k;
    }
  }

  /**
   * The distinct keys are in first-seen order: wherever the later key
   * occurs, the earlier one has occurred before it.
   */
  lemma {:induction false} DistinctKeysFirstSeen(members: seq<Member>, i: nat, j: nat, b: nat)
    requires i < j < |DistinctKeys(members)| && b < |members| && members[b].key == DistinctKeys(members)[j]
    ensures exists a :: 0 <= a < b && members[a].key == DistinctKeys(members)[i]
    decreases |members|
  {
    var front := members[..|members| - 1];
    var keys := DistinctKeys(front);
    var last := members[|members| - 1].key;
    assert forall n :: 0 <= n < |front| ==> members[n] == front[n];
    assert DistinctKeys(members)[i] == keys[i];
    if b < |front| {
      assert j < |keys| && DistinctKeys(members)[j] == keys[j];
      DistinctKeysFirstSeen(front, i, j, b);
    } else if j < |keys| {
      assert DistinctKeys(members)[j] == keys[j];
      var b' :| 0 <= b' < |front| && front[b'].key == keys[j];
      DistinctKeysFirstSeen(front, i, j, b');
    } else {
      assert keys[i] in keys;
      var a :| 0 <= a < |front| && front[a].key == keys[i];
      assert members[a].key == keys[i];
    }
  }

  /** The members left after `unset` of every key in `keys`, in their order. */
  function Without(members: seq<Member>, keys: set<string>): (r: seq<Member>)
    ensures forall i :: 0 <= i < |r| ==> r[i].key !in keys && r[i] in members
    ensures forall m :: m in members && m.key !in keys ==> m in r
    decreases |members|
  {
    if members == [] then []
    else if members[0].key in keys then Without(members[1..], keys)
    else [members[0]] + Without(members[1..], keys)
  }

  // ---------------------------------------------------------------------
  // The tweet files.

  /** `strpos(data, c)` from position `k` on: the first index holding `c`, if any. */
  function IndexOf(data: string, c: char, k: nat): (r: Option<nat>)
    requires k <= |data|
    ensures r.Some? ==> k <= r.value < |data| && data[r.value] == c
    ensures r.Some? ==> forall j :: k <= j < r.value ==> data[j] != c
    ensures r.None? ==> forall j :: k <= j < |data| ==> data[j] != c
    decreases |data| - k
  {
    if k == |data| then None
    else if data[k] == c then Some(k)
    else IndexOf(data, c, k + 1)
  }

  /**
   * `substr($data, strpos($data, "["))`: the text from the first `[` on.
   * With no `[`, `strpos` yields false, read as offset 0: the whole text.
   */
  function TweetsPayload(data: string): (r: string)
    ensures |r| <= |data| && r == data[|data| - |r|..]
    ensures forall j :: 0 <= j < |data| - |r| ==> data[j] != '['
    ensures '[' in data ==> |r| > 0 && r[0] == '['
    ensures '[' !in data ==> r == data
  {
    match IndexOf(data, '[', 0)
    case Some(i) => data[i..]
    case None => data
  }

  /** Cutting `window.YTD.tweets.part0 = ` or any other `[`-free prefix gives back the array. */
  lemma TweetsPayloadStripsPrefix(prefix: string, body: string)
    requires '[' !in prefix
    requires |body| > 0 && body[0] == '['
    ensures TweetsPayload(prefix + body) == body
  {
    var data := prefix + body;
    var r := TweetsPayload(data);
    assert data[|prefix|] == '[';
    var n := |data| - |r|;
    assert r[0] == data[n];
    assert forall k :: 0 <= k < |prefix| ==> data[k] == prefix[k];
    assert n >= |prefix|;
    assert n <= |prefix|;
    assert data[n..] == body;
  }

  /** Fields `get_filtered_result_from_file` unsets on every record. */
  const RemovedFields: set<string> :=
    {"edit_info", "source", "lang", "favorited", "in_reply_to_user_id", "display_text_range", "in_reply_to_screen_name"}

  /** `unset($tweet->entities->user_mentions)` on the members of a record. */
  function DropMentions(m: Member): Member {
    if m.key == "entities" && m.value.JObject? then
      Member("entities", JObject(Without(m.value.members, {"user_mentions"})))
    else m
  }

  /** The members of a record after the unsets: removed fields gone, mentions dropped, in order. */
  function Clean(members: seq<Member>): (r: seq<Member>)
    ensures |r| <= |members|
    ensures forall i :: 0 <= i < |r| ==> r[i].key !in RemovedFields
    decreases |members|
  {
    if members == [] then []
    else if members[0].key in RemovedFields then Clean(members[1..])
    else [DropMentions(members[0])] + Clean(members[1..])
  }

  /** A record with the unused fields unset; a value that is not an object stays as it is. */
  function Sanitize(record: Json): Json {
    match record
    case JObject(members) => JObject(Clean(members))
    case _ => record
  }

  /** `$raw_tweet->tweet`, sanitised; reading it off anything but an object yields null. */
  function TweetOf(raw: Json): Json {
    match raw
    case JObject(members) =>
      (match Get(members, "tweet")
       case Some(t) => Sanitize(t)
       case None => JNull)
    case _ => JNull
  }

  /**
   * `get_filtered_result_from_file` after decoding: one record per element
   * of the decoded array, one per property of a decoded object (each
   * distinct key once, holding its last value), none for any other value;
   * a decoding failure is an error.
   */
  function FilteredResult(decoded: Option<Json>): (r: Result<seq<Json>, DecodeError>)
    ensures decoded.None? <==> r.Err?
    ensures r.Err? ==> r.error == InvalidJson
    ensures decoded.Some? && decoded.value.JArray? ==>
      |r.value| == |decoded.value.items| &&
      forall i :: 0 <= i < |r.value| ==> r.value[i] == TweetOf(decoded.value.items[i])
    ensures decoded.Some? && decoded.value.JObject? ==>
      var props := ObjectMembers(decoded.value.members);
      |r.value| == |props| &&
      forall i :: 0 <= i < |r.value| ==> r.value[i] == TweetOf(props[i].value)
    ensures decoded.Some? && !decoded.value.JArray? && !decoded.value.JObject? ==> r == Ok([])
  {
    match decoded
    case None => Err(InvalidJson)
    case Some(JArray(items)) => Ok(seq(|items|, i requires 0 <= i < |items| => TweetOf(items[i])))
    case Some(JObject(members)) =>
      var props := ObjectMembers(members);
      Ok(seq(|props|, i requires 0 <= i < |props| => TweetOf(props[i].value)))
    case Some(_) => Ok([])
  }

  /** The object `{"a": x, "b": z, "a": y}` as decoded member by member. */
  function RepeatedKeyObject(x: Json, y: Json, z: Json): seq<Member> {
    [Member("a", x), Member("b", z), Member("a", y)]
  }

  lemma RepeatedKeyDistinctKeys(x: Json, y: Json, z: Json)
    ensures DistinctKeys(RepeatedKeyObject(x, y, z)) == ["a", "b"]
  {
    var ms := RepeatedKeyObject(x, y, z);
    var m1 := [Member("a", x)];
    var m2 := m1 + [Member("b", z)];
    assert ms == m2 + [Member("a", y)];
    assert m1[..0] == [] && DistinctKeys(m1) == ["a"];
    assert m2[..1] == m1 && DistinctKeys(m2) == ["a", "b"];
    assert ms[..2] == m2;
  }

  lemma RepeatedKeyValues(x: Json, y: Json, z: Json)
    ensures Get(RepeatedKeyObject(x, y, z), "a") == Some(y) && Get(RepeatedKeyObject(x, y, z), "b") == Some(z)
  {
    var ms := RepeatedKeyObject(x, y, z);
    assert "a" != "b" by { assert "a"[0] != "b"[0]; }
    assert ms[0].key == "a" && ms[1].key == "b" && ms[2].key == "a";
    assert !LastWithKey(ms, 0, "a") && !LastWithKey(ms, 1, "a") by { assert ms[2].key == "a"; }
    assert !LastWithKey(ms, 0, "b") && !LastWithKey(ms, 2, "b");
    var i :| LastWithKey(ms, i, "a") && ms[i].value == Get(ms, "a").value;
    var k :| LastWithKey(ms, k, "b") && ms[k].value == Get(ms, "b").value;
  }

  /** A repeated key gives one property, at its first position, holding the last value. */
  lemma RepeatedKeyProperties(x: Json, y: Json, z: Json)
    ensures ObjectMembers(RepeatedKeyObject(x, y, z)) == [Member("a", y), Member("b", z)]
  {
    RepeatedKeyDistinctKeys(x, y, z);
    RepeatedKeyValues(x, y, z);
  }

  /** So a decoded object with a repeated key yields one record per distinct key. */
  lemma RepeatedKeyRecords(x: Json, y: Json, z: Json)
    ensures var r := FilteredResult(Some(JObject(RepeatedKeyObject(x, y, z))));
      r.Ok? && |r.value| == 2 && r.value[0] == TweetOf(y) && r.value[1] == TweetOf(z)
  {
    RepeatedKeyProperties(x, y, z);
  }

  lemma {:induction false} WithoutAbsent(members: seq<Member>, keys: set<string>)
    requires forall i :: 0 <= i < |members| ==> members[i].key !in keys
    ensures Without(members, keys) == members
    decreases |members|
  {
    if members != [] {
      WithoutAbsent(members[1..], keys);
    }
  }

  /**
   * After the unsets an entities object holds no user mentions and every
   * other entity list it had; any other member is left as it is.
   */
  lemma DropMentionsRemoves(m: Member)
    ensures DropMentions(m).key == m.key
    ensures DropMentions(m).key == "entities" && DropMentions(m).value.JObject? ==>
      Get(DropMentions(m).value.members, "user_mentions").None?
    ensures m.key == "entities" && m.value.JObject? ==>
      DropMentions(m).value.JObject? &&
      forall e :: e in m.value.members && e.key != "user_mentions" ==> e in DropMentions(m).value.members
    ensures !(m.key == "entities" && m.value.JObject?) ==> DropMentions(m) == m
  {
  }

  /** Dropping the mentions a second time changes nothing. */
  lemma DropMentionsTwice(m: Member)
    ensures DropMentions(DropMentions(m)) == DropMentions(m)
  {
    if m.key == "entities" && m.value.JObject? {
      WithoutAbsent(DropMentions(m).value.members, {"user_mentions"});
    }
  }

  /**
   * A sanitised record holds none of the removed fields and no user
   * mentions, and keeps every other member, unchanged unless it is the
   * entities object, which keeps everything but its user mentions.
   */
  lemma {:induction false} SanitizeRemovesFields(members: seq<Member>)
    ensures var r := Sanitize(JObject(members));
      && r.JObject?
      && (forall i :: 0 <= i < |r.members| ==> r.members[i].key !in RemovedFields)
      && (forall i :: 0 <= i < |r.members| && r.members[i].key == "entities" && r.members[i].value.JObject? ==>
            Get(r.members[i].value.members, "user_mentions").None?)
      && (forall m :: m in members && m.key !in RemovedFields && m.key != "entities" ==> m in r.members)
      && (forall m :: m in members && m.key !in RemovedFields ==> DropMentions(m) in r.members)
    decreases |members|
  {
    if members != [] {
      SanitizeRemovesFields(members[1..]);
      DropMentionsRemoves(members[0]);
      var r := Clean(members);
      var rest := Clean(members[1..]);
      if members[0].key !in RemovedFields {
        assert r == [DropMentions(members[0])] + rest;
        assert forall i :: 1 <= i < |r| ==> r[i] == rest[i - 1];
      }
    }
  }

  /** Sanitising a sanitised record changes nothing. */
  lemma SanitizeIdempotent(record: Json)
    ensures Sanitize(Sanitize(record)) == Sanitize(record)
  {
    if record.JObject? {
      CleanIdempotent(record.members);
    }
  }

  lemma {:induction false} CleanIdempotent(members: seq<Member>)
    ensures Clean(Clean(members)) == Clean(members)
    decreases |members|
  {
    if members != [] {
      CleanIdempotent(members[1..]);
      if members[0].key !in RemovedFields {
        var d := DropMentions(members[0]);
        DropMentionsRemoves(members[0]);
        DropMentionsTwice(members[0]);
        var c := Clean(members);
        assert c == [d] + Clean(members[1..]);
        assert c[0] == d && c[1..] == Clean(members[1..]);
      }
    }
  }

  // ---------------------------------------------------------------------
  // The account file.

  const AccountPrefix := "window.YTD.account.part0 = "

  /** `str_replace('window.YTD.account.part0 = ', '', $data)`. */
  function AccountPayload(data: string): string {
    ReplaceAll(data, AccountPrefix, "")
  }

  /** The account file's assignment prefix comes off, leaving the JSON text. */
  lemma AccountPayloadStripsPrefix(body: string)
    requires !Contains(body, AccountPrefix)
    ensures AccountPayload(AccountPrefix + body) == body
  {
    var p := AccountPrefix;
    ShorterDoesNotContain(p[..|p| - 1], p);
    assert [] + p[..|p| - 1] == p[..|p| - 1];
    ReplaceSingleOccurrence([], p, body, "");
    assert [] + p + body == p + body;
  }

  /**
   * `get_account_data_from_file` after decoding: the decoded value must be
   * an array, and `[0]->account` of it must be an object; an empty array or
   * a first element without an `account` object is the type error the
   * declared return type raises.
   */
  function AccountData(decoded: Option<Json>): (r: Result<Json, DecodeError>)
    ensures decoded.None? ==> r == Err(InvalidJson)
    ensures decoded.Some? && !decoded.value.JArray? ==> r == Err(NotAnArray)
    ensures r.Ok? ==>
      && decoded.Some? && decoded.value.JArray? && |decoded.value.items| > 0
      && decoded.value.items[0].JObject?
      && Get(decoded.value.items[0].members, "account") == Some(r.value) && r.value.JObject?
    ensures decoded.Some? && decoded.value.JArray? && |decoded.value.items| > 0 && decoded.value.items[0].JObject? &&
      Get(decoded.value.items[0].members, "account").Some? && Get(decoded.value.items[0].members, "account").value.JObject?
      ==> r.Ok?
  {
    match decoded
    case None => Err(InvalidJson)
    case Some(JArray(items)) =>
      if |items| == 0 || !items[0].JObject? then Err(MalformedAccount)
      else
        (match Get(items[0].members, "account")
         case Some(a) => if a.JObject? then Ok(a) else Err(MalformedAccount)
         case None => Err(MalformedAccount))
    case Some(_) => Err(NotAnArray)
  }

  /** `$this->account_data->username`; a missing or non-string value reads as "". */
  function Username(account: Json): (name: string)
    ensures account.JObject? && Get(account.members, "username").Some? && Get(account.members, "username").value.JString? ==>
      name == Get(account.members, "username").value.s
    ensures !account.JObject? ==> name == ""
  {
    if account.JObject? then
      match Get(account.members, "username")
      case Some(JString(s)) => s
      case _ => ""
    else ""
  }
}
