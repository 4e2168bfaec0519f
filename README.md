# Tweet archive import, modelled in Dafny

This project models the import pipeline of a WordPress plugin's `import` command. The command reads a Twitter archive export and turns each tweet into a post of a custom post type. A reply to a tweet imported earlier in the same run becomes a comment on that tweet's post instead. A parent imported by an earlier run is skipped and never mapped, so its replies are treated like any other record. For every archive file the command does this:

1. It cuts the JavaScript prefix off the file and decodes the JSON.
2. It removes unused fields from every record.
3. It sorts the records by id in natural order.
4. It merges a record into the currently open record when it replies to that record, forming a thread. The open record keeps its own id, so a third part that replies to the second part is not merged (Threads.ThirdPartDoesNotChain).
5. It routes each record through a fixed chain of checks. A record is skipped if it is:
   - older than the since-date, when `--since-date` is given;
   - a retweet by its "RT" prefix, when `--skip-retweets` is given;
   - a retweet or a quote retweet, when `--skip-retweets` is given;
   - already imported;
   - a reply to a tweet that is not mapped to a post, when `--skip-replies` is given. Without that option such a reply becomes a post of its own.
6. A record that is not skipped becomes either a comment under its parent's post or a post of its own. A new post gets the aside format when `--use-aside-format` is given. It gets three meta values: the two counts and the tweet URL. A reply also gets its parent's id. Then come the hashtag and ticker terms. If the record has media entities and the media directory holds a file for it, the post also gets media meta and image tags. Which file counts as the record's follows the corrected line 471 in Findings: as written, any file whose name starts with the id's digits is taken.

The model is split into modules:

- `Text`: the PHP string primitives (`str_starts_with`, `strpos`, `str_replace`).
- `Tweets`: the tweet record.
- `Decode`: the file prefix, the field removal and the account-file shape check.
- `Threads`: the part-marker removal and the thread merger.
- `Ordering`: the natural id order and the sort.
- `Rendering`: URL linking, quote-retweet detection, the tweet URL, tags and media-file matching.
- `ContentStore`: an abstract WordPress store of posts and comments.
- `Posting`: the writes a new post receives.
- `Pipeline`: the per-record decision and the run over an archive, as functions.
- `Importing`: the command as a class. Its counters, id map and media listing are fields, and its methods are proved to produce the state the `Pipeline` functions describe.

The shared `Option` and `Result` types are in `Wrappers`.

## Model

All source paths are in `classes/import-twitter-command.php`.

| member | source | states |
|---|---|---|
| Threads.MergeTweetThreads | classes/import-twitter-command.php:125-150 | The in-place merge loop returns exactly `MergeThreads` of its input. `MergeThreads` is the scan that folds every record replying to the open record into it. |
| Threads.MergeThreadsNoAdjacentReply | classes/import-twitter-command.php:129-141 | After merging, no record replies to the record just before it. |
| Threads.MergeThreadsKeepsOrder | classes/import-twitter-command.php:129-147 | The merged ids are a subsequence of the input ids, in the same order. |
| Threads.MergeThreadsIdempotent | classes/import-twitter-command.php:125-150 | Merging an already merged sequence changes nothing. |
| Threads.MergeTwoRecords | classes/import-twitter-command.php:129-147 | Two records merge into one joined record exactly when the second replies to the first. Otherwise both are kept. |
| Threads.MergeThreadsKeepsHeaders | classes/import-twitter-command.php:129-147 | Every merged record has the id, reply target, date, counts and retweet flag of some input record. Merging rewrites only text, entities and media. |
| Threads.TwoPartThreadText | classes/import-twitter-command.php:130-132 | Texts `x + "(1/2)"` and `y + "(2/2)"` merge into one record with the first id and text `x + " " + y`. |
| Threads.ThirdPartDoesNotChain | classes/import-twitter-command.php:130-139 | A third part that replies to the second part is not folded in, because the open record keeps the first part's id. |
| Threads.StripPartMarkerRemovesMarker | classes/import-twitter-command.php:152-154 | When a `(n/m)` marker followed only by blanks ends the text, the marker and blanks are removed and everything before them is kept. |
| Threads.StripPartMarkerUnchanged | classes/import-twitter-command.php:152-154 | The text comes back unchanged exactly when no marker runs to its end. |
| Threads.StripPartMarkerIdempotent | classes/import-twitter-command.php:152-154 | Stripping twice equals stripping once when the stripped text holds no `)`. |
| Threads.StripPartMarkerNotIdempotent | classes/import-twitter-command.php:152-154 | For "a (1/2) (2/2)", a second strip removes a second marker. |
| Ordering.SortById | classes/import-twitter-command.php:160 | The `usort` result is sorted by id and is a permutation of its input. |
| Ordering.IdLessStrictTotalOrder | classes/import-twitter-command.php:160 | The id comparison is irreflexive, asymmetric, transitive and total. |
| Ordering.NaturalOrderIsNumeric | classes/import-twitter-command.php:160 | On canonical digit strings, `strnatcmp` order is numeric order. |
| Ordering.NaturalOrderExample | classes/import-twitter-command.php:160 | "9" comes before "10" and "10" before "100" in natural order, while byte order puts "10" before "9". |
| Ordering.SortExample | classes/import-twitter-command.php:160 | Ids "100", "9", "10" are sorted to "9", "10", "100". |
| Pipeline.Decide | classes/import-twitter-command.php:168-206 | The record is skipped exactly when one of these holds: it is filtered by date or as a retweet; it is already imported; or replies are skipped and its parent is unmapped. It becomes a comment exactly when it is not skipped and its parent is mapped, and the comment goes on the parent's post. |
| Rendering.SubstituteUrls | classes/import-twitter-command.php:208-215 | The replacement loop returns `LinkUrls`: each short URL in turn is replaced by its link tag. |
| Rendering.LinkSingleUrl | classes/import-twitter-command.php:210-215 | A URL that occurs once becomes its link tag, and the text around it is kept verbatim. |
| Text.ReplaceSingleOccurrence | classes/import-twitter-command.php:213 | `str_replace` on a text holding the search string once replaces that occurrence and keeps the rest verbatim. |
| Text.ReplaceAbsent | classes/import-twitter-command.php:213 | `str_replace` leaves a text without the search string unchanged. |
| Rendering.LinkUrlsWithoutOccurrence | classes/import-twitter-command.php:210-215 | A text containing none of the short URLs is left unchanged. |
| Pipeline.CommentPath | classes/import-twitter-command.php:217-232 | A comment carrying the linked text and the record's id is appended. The parent post is flagged as a thread, the record is mapped to the parent's post, and the record now counts as imported. This uses line 229 as corrected under Findings. |
| Pipeline.CommentPathAsWritten | classes/import-twitter-command.php:222-229 | The comment is appended with no `_tweet_id` meta. |
| Pipeline.PostPath | classes/import-twitter-command.php:234-249 | One post is appended, equal to `ImportedPost` for the record. The record maps to the new post's id and counts as imported. The media listing is read only if it is still empty. This uses line 471 as corrected under Findings. |
| Pipeline.Step | classes/import-twitter-command.php:168-249 | Every record adds one to the processed count. A skip adds one to the skipped count and changes nothing else. Any other outcome leaves the record imported and mapped. The store is only extended. This uses lines 229 and 471 as corrected under Findings. |
| Pipeline.Run | classes/import-twitter-command.php:168-250 | The processed count grows by the number of records, the skipped count by at most that, and the store is only extended. This uses lines 229 and 471 as corrected under Findings. |
| Pipeline.ImportAllIsRun | classes/import-twitter-command.php:118-121 | Importing file after file equals one run over all their prepared records. |
| Pipeline.PreparedAscending | classes/import-twitter-command.php:159-162 | The loop sees a file's records in ascending id order, no more of them than the file holds. |
| Pipeline.RunKeepsMapValid | classes/import-twitter-command.php:232-236 | Every id in the map names an existing post and an imported record, before and after a run. This uses line 229 as corrected under Findings. |
| Pipeline.ReimportAddsNothing | classes/import-twitter-command.php:192-196 | A second import of the same records by a new command skips every record and leaves the store as it was. This uses line 229 as corrected under Findings. |
| Pipeline.ReimportArchiveAddsNothing | classes/import-twitter-command.php:118-121 | A second import of a whole archive of several files by a new command leaves the store as it was. This uses line 229 as corrected under Findings. |
| Pipeline.AsWrittenCommentIsReimported | classes/import-twitter-command.php:229 | As written, a reply stored as a comment is not detected as imported. A later run without skip-replies makes it a post of its own. |
| Rendering.IsQuoteRetweet | classes/import-twitter-command.php:259-268 | True exactly when some expanded URL contains `https://twitter.com/`. |
| Rendering.SelfLinkIsQuoteRetweet | classes/import-twitter-command.php:259-268 | A record linking to any tweet URL counts as a quote retweet. |
| Rendering.TweetUrlInjective | classes/import-twitter-command.php:381-383 | Different ids give different tweet URLs for one username. |
| Rendering.Hashtags | classes/import-twitter-command.php:415-427 | There is one term per hashtag entity: its text, in order. |
| Rendering.Tickers | classes/import-twitter-command.php:436-448 | There is one term per symbol entity: `$` followed by its text, in order. |
| Rendering.MediaFileIsOwned | classes/import-twitter-command.php:469-471 | The corrected match picks a file whose owner id, the part before the first `-`, is the record's id. |
| Rendering.MediaPrefixOvermatch | classes/import-twitter-command.php:471 | As written, record "12" picks the file "123-9.jpg". The corrected match picks nothing. |
| Posting.ImportedPostRecord | classes/import-twitter-command.php:276-306 | The new post has the record id as slug and the record's author and date. The aside flag follows the option, and the terms are the hashtag and ticker terms. `_retweet_count`, `_favorite_count` and `_tweet_url` hold their values. `_in_reply_to_status_id_str` is present exactly for replies. |
| Posting.ImportedPostMedia | classes/import-twitter-command.php:457-498 | If the record has no file or no media, the post has no media meta and its content is the linked text. Otherwise `_tweet_media` names the record's own file, `_tweet_id` holds the record's id, and each media link in the content becomes that file's image tag. This uses line 471 as corrected under Findings. |
| Posting.MediaWritesForEffect | classes/import-twitter-command.php:472-486 | Handling every media entity leaves the file, the last entity's type and the id in the meta, and each entity's link replaced by the image tag. |
| Posting.MetaWritesEffect | classes/import-twitter-command.php:396-406 | On any post, `set_postmeta` overrides the meta with its own values and changes nothing else. |
| Posting.SetPostmetaEffect | classes/import-twitter-command.php:396-406 | Whatever the post held, afterwards it has the two counts and the tweet URL, and the parent id if the record is a reply. Every other meta key keeps its value. Content, terms and format are unchanged. |
| Importing.Importer.constructor | classes/import-twitter-command.php:19-25 | A new command has zero counters, an empty id map and no media listing, and its invariant holds. |
| Importing.Importer.Import | classes/import-twitter-command.php:118-121 | The file loop leaves the state `ImportAll` describes and keeps the invariant. This uses lines 229 and 471 as corrected under Findings. |
| Importing.Importer.ProcessFile | classes/import-twitter-command.php:156-250 | The sort, merge and record loop leave the state `Run` over the prepared records describes, and keep the invariant. This uses lines 229 and 471 as corrected under Findings. |
| Importing.Importer.HandleTweet | classes/import-twitter-command.php:168-249 | One loop body leaves exactly the state `Step` describes. This uses lines 229 and 471 as corrected under Findings. |
| Importing.Importer.AddReplyComment | classes/import-twitter-command.php:217-232 | The comment branch leaves the state `CommentPath` describes. This uses line 229 as corrected under Findings. |
| Importing.Importer.AddTopLevelPost | classes/import-twitter-command.php:234-249 | The post branch leaves the state `PostPath` describes. This uses line 471 as corrected under Findings. |
| Importing.Importer.ProcessTweet | classes/import-twitter-command.php:276-306 | The post is inserted with the next id and nothing else changes. |
| Importing.Importer.SetPostmeta | classes/import-twitter-command.php:396-406 | The post receives exactly the meta writes of `set_postmeta`. |
| Importing.Importer.SetHashtags | classes/import-twitter-command.php:415-427 | The loop adds exactly the hashtag terms. |
| Importing.Importer.SetTickerSymbols | classes/import-twitter-command.php:436-448 | The loop adds exactly the ticker terms. |
| Importing.Importer.AttachMedia | classes/import-twitter-command.php:472-486 | The post receives the three media meta values and the link-to-image replacement for one entity. |
| Importing.Importer.FindMediaFile | classes/import-twitter-command.php:470-471 | The scan returns the first listing entry belonging to the record, or none exactly when no entry belongs to it. This uses line 471 as corrected under Findings. |
| Importing.Importer.ProcessMedia | classes/import-twitter-command.php:457-498 | The listing is read when empty, and the post receives exactly the media writes for the record's file. This uses line 471 as corrected under Findings. |
| ContentStore.ImportedStaysImported | classes/import-twitter-command.php:507-523 | Once a record is detected as imported, by a post slug or a comment's `_tweet_id`, it stays detected as the store grows. |
| Decode.Get | classes/import-twitter-command.php:335 | Reading a property gives a value exactly when some member has that key. The value is that of the last such member, because `json_decode` keeps the last duplicate. |
| Decode.TweetsPayload | classes/import-twitter-command.php:345 | The payload is the input from its first `[` on, or the whole input when there is none. |
| Decode.TweetsPayloadStripsPrefix | classes/import-twitter-command.php:345 | A prefix free of `[` is removed in full. |
| Decode.FilteredResult | classes/import-twitter-command.php:347-372 | A decoding failure is an error. A decoded array gives one sanitised record per element, in order. A decoded object gives one per property: each distinct key once, holding its last value. Any other value gives no records. |
| Decode.DistinctKeysFirstSeen | classes/import-twitter-command.php:348 | A decoded object's properties are its distinct keys in the order they first appear. |
| Decode.RepeatedKeyRecords | classes/import-twitter-command.php:348-370 | For `{"a": x, "b": z, "a": y}`, the loop yields two records, from `y` and then `z`. |
| Decode.SanitizeRemovesFields | classes/import-twitter-command.php:355-370 | No removed field and no user mentions remain. Every other member is kept. The `entities` object keeps every entity list except `user_mentions`. |
| Decode.SanitizeIdempotent | classes/import-twitter-command.php:355-370 | Sanitising a sanitised record changes nothing. |
| Pipeline.PostUrlNamesAccount | classes/import-twitter-command.php:381-383 | When the decoded account file is an array whose first element has an `account` object, the account reader returns that object. If the username is taken from its `username` member, a record that becomes a post gets a `_tweet_url` naming that account and the record's id. |
| Decode.AccountPayloadStripsPrefix | classes/import-twitter-command.php:327 | The account file's assignment prefix is removed, leaving the JSON text. |
| Decode.AccountData | classes/import-twitter-command.php:324-336 | The result is an error when decoding fails or the value is not an array. When the first element is an object whose `account` member is an object, the result is that member. Any other shape is an error. |

## Left out

- WordPress is replaced by an abstract store: a sequence of posts and a sequence of comments. A post's id is its index, standing in for the id the database assigns. Taxonomy, post type and post status registration are not modelled.
- Inserts always succeed in the model. The source does not check `wp_insert_post` returning 0 (line 302, used at lines 239-241) or `wp_insert_comment` returning false (lines 222-229). A failed insert there would map the tweet id to post 0. Pipeline.RunKeepsMapValid and Pipeline.ReimportAddsNothing rely on inserts succeeding.
- The store holds only what `does_tweet_already_exist` (lines 507-523) can see: posts of the configured post type and comments on them, at the queries' default statuses. `ContentStore.Imported` searches the whole store, so posts of other types, or trashed or draft posts, are outside the model.
- `WP_CLI` output, the per-record progress lines and the closing summary are left out; they change no state. The brace that closes `process_file` early at lines 251-252 is treated as the evident intent: the summary follows the loop.
- Every `apply_filters` is the identity and every `do_action` does nothing. Handlers cannot be seen from this code.
- File reading, `glob` of the multi-part file names, `scandir` and `json_decode` are replaced by parameters: the media listing and the decoded value as an optional JSON value. JSON numbers are integers.
- `Decode`'s output does not reach the pipeline. `Pipeline.ImportAll` takes each file's records as tweet values, and the mapping from a decoded JSON object to a `Tweet` is not modelled. Only the account's username is connected, by Pipeline.PostUrlNamesAccount.
- Dates are integers compared by `<`. Parsing `created_at` and the `--since-date` option is not modelled.
- The command-line options are inputs. Resolving the author and validating the post type and taxonomy (lines 72-116) are not modelled.
- `id` and `id_str`, and `in_reply_to_status_id` and its `_str` form, are one string each. PHP's loose `==` on them is string equality, which holds for archive ids because they are canonical digit strings without leading zeros.
- `strnatcmp` is modelled on canonical digit-only ids, without leading zeros, as length-then-lexicographic order. `strnatcmp` treats "012" and "12" as equal, and the model does not. Other characters in ids are not modelled.
- The `post_title` rewrite in `process_media` is left out: no post title is ever set. `esc_attr` is the identity on the image URL.
- The comment's author display name is not modelled; the comment keeps the author id.
- PHP objects are shared handles. The merge mutates the open record: it assigns that record's `full_text`, `entities` and `extended_entities`, and only reads the records it folds. Nothing reads the input array afterwards, so the model works on values.
- A missing `entities->urls`, `hashtags`, `symbols` or `media` list is the empty sequence; every use treats the two the same way.
- Threads.StripPartMarkerIdempotent: idempotence is stated only for results free of `)`. In general it fails: Threads.StripPartMarkerNotIdempotent shows a text ending in two markers.
- The members below follow the corrected lines 229 and 471 from the Findings table. They do not model the code as written, which calls `add_comment_meta('_tweet_id', …)` at line 229 and matches only the id prefix at line 471: Pipeline.CommentPath, Pipeline.ReimportAddsNothing, Pipeline.ReimportArchiveAddsNothing, Pipeline.PostPath, Pipeline.Step, Pipeline.Run, Pipeline.RunKeepsMapValid, Posting.ImportedPostMedia, Importing.Importer.Import, Importing.Importer.ProcessFile, Importing.Importer.HandleTweet, Importing.Importer.AddReplyComment, Importing.Importer.AddTopLevelPost, Importing.Importer.FindMediaFile and Importing.Importer.ProcessMedia. The as-written behaviour is modelled separately, by the members named in Findings.
- Decode.Username: an account whose `username` is missing or not a string gives the empty name. PHP would convert or warn instead.

## Findings

| source | as written | input that shows it | evidently intended | confidence | as-written member | corrected member |
|---|---|---|---|---|---|---|
| classes/import-twitter-command.php:229 | `add_comment_meta('_tweet_id', $tweet->id, $comment_id, true)` passes the meta key where the comment id belongs. `add_metadata` rejects the non-numeric object id, so no meta is stored. | A reply whose parent is mapped becomes a comment. A second run without `--skip-replies` does not find it imported and creates a duplicate post. | `add_comment_meta($comment_id, '_tweet_id', $tweet->id, true)`, so that a reimport skips the reply. | not executed | Pipeline.CommentPathAsWritten (Pipeline.AsWrittenCommentIsReimported) | Pipeline.CommentPath (Pipeline.ReimportAddsNothing) |
| classes/import-twitter-command.php:471 | `str_starts_with($file, $tweet->id)` matches any file whose name begins with the id's digits. | Record "12" with the listing `["123-9.jpg"]` takes another record's image. | Match `<id>-`, the archive's naming of media files. | not executed | Rendering.MediaFileAsWritten (Rendering.MediaPrefixOvermatch) | Rendering.MediaFile (Rendering.MediaFileIsOwned) |
