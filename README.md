# Tweet loader: a Dafny model

`load_tweets.py` reads tweets as JSON records and writes each one into the
normalised tables of a Postgres database. These tables are `users`, `tweets`,
`urls`, `tweet_urls`, `tweet_mentions`, `tweet_tags` and `tweet_media`. This
project models the loader's core and proves properties of the model:

- `remove_nulls` removes NUL characters that Postgres cannot store;
- `get_id_urls` interns a url string in `urls` and returns its id;
- `insert_tweet` skips a tweet that is already loaded, otherwise derives the
  record's values (display text, geometry, place columns, tags, entities) and
  writes all of its rows in one transaction.

Modules:

- `Wrappers`: `Option` and `Result`.
- `Strings`: NUL removal, ASCII lower-casing, Python's `strip()` and the
  last segment of `split(',')`.
- `Geometry`: the well-known text built for a point and for a bounding box
  (a MULTIPOLYGON whose rings are closed by repeating their first point). The
  nested building loops are a method proved against the text functions.
- `Tweets`: the JSON record as datatypes, with the values `insert_tweet`
  derives from it. Each `try`/`except KeyError` fallback chain is modelled as
  "the first present candidate".
- `Database`: the seven tables as a value. Each `INSERT ... ON CONFLICT DO
  NOTHING` becomes insert-if-absent. `InsertTweet` is the whole transaction
  as one function, together with the invariants and lemmas about it.
- `Loader`: a `Store` class whose fields are the tables. Its methods issue the
  statements one after another with loops. Each method is proved to leave
  exactly the tables the `Database` functions specify.

## Model

| member | source | states |
|---|---|---|
| Strings.StripNulls | load_tweets.py:38 | the result contains no NUL character |
| Strings.StripNullsCounts | load_tweets.py:38 | `replace('\x00','')` removes every NUL and keeps every other character, with its multiplicity |
| Strings.StripNullsAppend | load_tweets.py:38 | removing NULs distributes over concatenation |
| Strings.StripNullsKeepsClean | load_tweets.py:38 | a string without NUL is returned unchanged |
| Strings.StripNullsBetween | load_tweets.py:38 | a NUL between two clean strings is dropped and the two are joined |
| Strings.RemoveNulls | load_tweets.py:16-38 | None maps to None; a string maps to a string without NUL |
| Strings.RemoveNullsIdempotent | load_tweets.py:16-38 | applying `remove_nulls` twice is the same as applying it once |
| Strings.RemoveNullsExamples | load_tweets.py:30-33 | the two doctests: `'\x00'` gives `''` and `'hello\x00 world'` gives `'hello world'` |
| Strings.Lower | load_tweets.py:172 | the result equals the input up to case and contains no upper-case letter |
| Strings.LowerUnique | load_tweets.py:172 | any string with those two properties is `Lower`'s result, so they define it |
| Strings.LowerIdempotent | load_tweets.py:172 | lower-casing twice is lower-casing once |
| Strings.LowerKeepsOthers | load_tweets.py:177 | lower-casing changes no non-letter, keeps spaces as spaces and adds no comma |
| Strings.TrimLeft | load_tweets.py:177 | the result is a suffix of the input; only spaces were dropped; it does not start with a space |
| Strings.TrimRight | load_tweets.py:177 | the result is a prefix of the input; only spaces were dropped; it does not end with a space |
| Strings.Strip | load_tweets.py:177 | the result is a contiguous slice of the input, with no space at either end, and everything cut off is space |
| Strings.StripKeepsAbsent | load_tweets.py:177 | stripping adds no character that was absent |
| Strings.LastSegment | load_tweets.py:177 | `split(',')[-1]`: a suffix without the separator that either is the whole string or follows a separator |
| Strings.LastSegmentAfter | load_tweets.py:177 | the last segment is exactly what follows the last separator |
| Strings.StripExact | load_tweets.py:177 | a string whose non-space part runs from `i` to `j` strips to exactly that part |
| Strings.StripKeepsInner | load_tweets.py:177 | for non-space characters at `i` and `j - 1`, the slice `s[i..j]` lies inside what stripping keeps, so the stripped string has at least `j - i` characters |
| Geometry.PointGeometry | load_tweets.py:144-147 | the geometry text is `POINT(x y)`, as `:geo_str || '(' || :geo_coords || ')'` at line 221 builds it |
| Geometry.PolygonBody | load_tweets.py:149-160 | the body exists iff every ring has a point, and it is enclosed in parentheses |
| Geometry.BuildPolygonBody | load_tweets.py:149-160 | the nested loops over rings and points build exactly `PolygonBody`, and give None when a ring has no point |
| Geometry.RingIsClosed | load_tweets.py:155-158 | a ring's text is its points joined by commas, with the first point repeated at the end |
| Geometry.PolygonBodyShape | load_tweets.py:149-160 | the body exists iff every ring has a point; it is the ring texts joined by commas in parentheses, and every ring is closed |
| Geometry.JoinSnoc | load_tweets.py:152-156 | joining one more part appends a comma and the part |
| Geometry.PointsWithCommasJoin | load_tweets.py:155-157 | the points, each followed by a comma, then the first point, is the comma-join of the closed ring |
| Geometry.RingsTextJoin | load_tweets.py:151-158 | the rings with a comma before every ring but the first is the comma-join of the ring texts |
| Tweets.FirstPresent | load_tweets.py:250-253 | the result is None iff every candidate is missing; otherwise it is the earliest present candidate |
| Tweets.FirstPresentOfTwo | load_tweets.py:166-169 | with two candidates, the first wins when present, else the fallback |
| Tweets.DisplayText | load_tweets.py:166-169 | the text is `extended_tweet.full_text` when present, otherwise `text` |
| Tweets.CountryCode | load_tweets.py:171-174 | a code exists iff there is a place; it is the place's code lower-cased |
| Tweets.StateCandidate | load_tweets.py:177 | the candidate equals the stripped last segment of the full name up to case; it has no comma, no upper-case letter and no space at either end |
| Tweets.StateCandidateIsLowerSegment | load_tweets.py:177 | the candidate is exactly `Lower(Strip(LastSegment(fullName, ',')))`, since those properties determine it |
| Tweets.StateCode | load_tweets.py:176-181 | a state code exists iff the country code is `us` and the candidate has at most two characters, and it is that candidate |
| Tweets.StateCodeOf | load_tweets.py:176-181 | for a `us` place, the state code is the lower-cased stripped last segment when it has at most two characters, otherwise None |
| Tweets.StateCodeAustin | load_tweets.py:176-181 | a place with country code `US` and full name `Austin, TX` has state code `tx` |
| Tweets.StateCodeLongRegion | load_tweets.py:176-181 | a place with country code `US` and full name `Some City, Some Longer Region` has no state code |
| Tweets.PlaceName | load_tweets.py:183-186 | the place name exists iff there is a place, and it is the place's `full_name` |
| Tweets.Prefixed | load_tweets.py:323 | each text gets the prefix, in order |
| Tweets.TagList | load_tweets.py:323 | the hashtags with `#`, then the cashtags with `$`, in order |
| Tweets.UnprefixedAppend | load_tweets.py:323 | selecting tags by prefix distributes over concatenation |
| Tweets.UnprefixedPrefixed | load_tweets.py:323 | selecting by prefix recovers the texts given that prefix, and nothing for another prefix |
| Tweets.TagListInverse | load_tweets.py:323 | the tag list loses nothing: the hashtags and the cashtags are recovered from it, in order |
| Tweets.Urls | load_tweets.py:250-253 | the extended tweet's url entities when present, otherwise the base entities' |
| Tweets.Mentions | load_tweets.py:273-276 | the extended tweet's mentions when present, otherwise the base entities' |
| Tweets.Tags | load_tweets.py:316-323 | the extended tags when the extended entities have both hashtags and symbols, otherwise the base tags, or None when the base lacks either |
| Tweets.MediaList | load_tweets.py:342-348 | the extended tweet's media, otherwise the tweet's `extended_entities` media, otherwise no media |
| Tweets.TweetGeometryAsWritten | load_tweets.py:144-164 | the geometry as the source computes it: a POINT from `geo`; no `geo` and no place raises, and only then does `PlaceIsNull` arise; no bounding box gives null iff `geo_enabled`, and otherwise `geo_str` is unbound; a bounding box gives the MULTIPOLYGON of its body, or `EmptyRing` for the IndexError of a ring without points |
| Tweets.TweetGeometry | load_tweets.py:144-164 | a POINT from `geo`; otherwise a MULTIPOLYGON of the bounding box; otherwise null; an error iff a ring is empty |
| Tweets.GeometryExtendsAsWritten | load_tweets.py:144-164 | wherever the source's geometry succeeds, the corrected geometry has the same value; of its failures only the empty ring remains; the two differ exactly when there is no `geo` and either no place, or no bounding box with `geo_enabled` false |
| Tweets.NullPlaceFailsAsWritten | load_tweets.py:149-151 | no `geo` and no place: the source raises, while the corrected geometry is null |
| Tweets.GeoDisabledFailsAsWritten | load_tweets.py:161-164 | no bounding box and `geo_enabled` false: the source leaves `geo_str` unbound, while the corrected geometry is null |
| Tweets.DeriveGeometry | load_tweets.py:144-164 | the geometry computed with the source's loops equals `TweetGeometry` |
| Database.TweetRowOf | load_tweets.py:217-244 | the tweet row's text and source hold no NUL; it has a geometry iff one was derived; a state code only for `us` and of length at most 2 |
| Database.Intern | load_tweets.py:41-73 | after the call the url maps to the returned id; a known url changes nothing; a new url adds exactly one `urls` row, with an id no url held before; the ids stay unique |
| Database.InternTwice | load_tweets.py:41-73 | interning a url again returns the same id and changes nothing |
| Database.InternDistinct | load_tweets.py:41-73 | two different urls get two different ids, and the first keeps its id |
| Database.AddUser | load_tweets.py:117-122 | a user row is written only when its id is absent |
| Database.AddTweet | load_tweets.py:217-222 | the tweet row is written only when its id is absent; nothing else changes |
| Database.MentionedUser | load_tweets.py:286-297 | a mentioned user's row holds the mention's screen name and name, and every other column is null |
| Database.AuthorRow | load_tweets.py:117-139 | the author's row holds the url id, `updated_at` is the tweet's creation time, and the names, location and description carry no NUL, with null kept as null |
| Database.AddAuthor | load_tweets.py:111-139 | the profile url is interned first, and it is the only url added; the author is then present; a new author gets its hydrated row with that url id |
| Database.AddReplyTarget | load_tweets.py:194-215 | the reply target is present afterwards; a new one gets the unhydrated placeholder |
| Database.LinkUrls | load_tweets.py:250-268 | every url is interned, and `tweet_urls` gains exactly one row per url entity with its id |
| Database.LinkMentions | load_tweets.py:273-311 | the users gain exactly the mentioned ids, with no url; `tweet_mentions` gains exactly one row per mention |
| Database.LinkMentionsNewUser | load_tweets.py:278-297 | a user row the mention loop adds is `MentionedUser` of the first mention with that id, since later inserts do nothing |
| Database.LinkMentionsNewUsers | load_tweets.py:278-297 | every user row the mention loop adds is the row of the first mention with that id |
| Database.LinkUrlsKeys | load_tweets.py:255-256 | the url loop adds exactly the entities' expanded urls to `urls`, and no other url |
| Database.LinkMediaKeys | load_tweets.py:350-351 | the media loop adds exactly the media urls to `urls`, and no other url |
| Database.LinkTags | load_tweets.py:325-337 | `tweet_tags` gains exactly the tags with their NULs removed |
| Database.LinkMedia | load_tweets.py:350-365 | every media url is interned, and `tweet_media` gains exactly one row per medium with its url id and type |
| Database.Derive | load_tweets.py:144-323 | with the corrected geometry: the derivation fails iff the geometry fails or the urls, mentions or tags are missing; on success it holds exactly those derived values |
| Database.DeriveAsWritten | load_tweets.py:144-323 | with the source's geometry: the derivation fails iff that geometry raises or the urls, mentions or tags are missing |
| Database.DeriveExtendsAsWritten | load_tweets.py:144-164 | where the source derives a record, `Derive` gives the same values; a record without `geo` and place fails in the source but derives a null geometry here |
| Database.Load | load_tweets.py:111-365 | the writes of a new tweet, in the source's order: afterwards the tweet, its author and its reply target are present |
| Database.InsertTweet | load_tweets.py:76-365 | the record is skipped iff its id is known, and then nothing changes; a failure changes nothing and reports the derivation's error; the tweet is inserted iff its id is new and the derivation succeeds |
| Database.InsertTweetFailureWritesNothing | load_tweets.py:104-106 | a new record whose derivation fails ends as `Failed` with every table unchanged |
| Database.InsertTweetConsistent | load_tweets.py:188-215 | after any call, url ids are still unique and every foreign key (author, reply target, join rows) names an existing row |
| Database.LoadRows | load_tweets.py:104-365 | loading a new tweet changes no existing row; it adds the tweet row; users gain exactly the author, reply target and mentioned users; each join table gains exactly the tweet's rows |
| Database.LoadUrls | load_tweets.py:111-365 | loading adds exactly the profile url, the entities' urls and the media urls to `urls` |
| Database.LoadUsers | load_tweets.py:111-215 | the author's hydrated row and the reply target's placeholder, when those users were new |
| Database.InsertTweetIdempotent | load_tweets.py:92-102 | loading the same record twice leaves the tables as loading it once |
| Database.InsertTweetKeepsRows | load_tweets.py:117-122 | no existing row of any table changes, and an existing user row is never overwritten |
| Database.InsertTweetRows | load_tweets.py:217-365 | an inserted tweet has its row, author and reply target, and exactly the url, mention, tag and media rows of its record |
| Database.InsertTweetUrls | load_tweets.py:111-365 | an inserted tweet adds exactly its profile url, entity urls and media urls to `urls`, and no other url |
| Database.InsertTweetMentionedUsers | load_tweets.py:278-297 | besides the author and reply target, the users an inserted tweet adds are its mentioned users, each with the row of the first mention of its id |
| Database.InsertTweetKeyedByTweet | load_tweets.py:255-365 | every join row added is keyed by the tweet's id |
| Database.InsertTweetNoMedia | load_tweets.py:342-348 | a record without media adds no `tweet_media` row |
| Database.InsertTweetReplyTarget | load_tweets.py:188-215 | a reply's target user exists afterwards, and a new target gets the unhydrated placeholder |
| Database.InsertTweetAuthor | load_tweets.py:111-139 | an existing author row is kept; a new author gets the hydrated row with its url's id |
| Loader.Store.constructor | load_tweets.py:381-385 | a new store is empty and consistent |
| Loader.Store.GetIdUrls | load_tweets.py:41-73 | a known url returns its id and changes nothing; a new url is inserted with the next id; the result matches `Database.Intern` |
| Loader.Store.WriteAuthor | load_tweets.py:111-139 | the tables afterwards are `AddAuthor` of the tables before |
| Loader.Store.WriteReplyTarget | load_tweets.py:194-215 | the tables afterwards are `AddReplyTarget` of the tables before |
| Loader.Store.WriteTweet | load_tweets.py:217-244 | the tables afterwards are `AddTweet` of the tables before |
| Loader.Store.WriteUrls | load_tweets.py:255-268 | the url loop leaves the tables of `LinkUrls` |
| Loader.Store.WriteMention | load_tweets.py:286-311 | one mention's two inserts leave the tables of `LinkMention` |
| Loader.Store.WriteMentions | load_tweets.py:278-311 | the mention loop leaves the tables of `LinkMentions` |
| Loader.Store.WriteTags | load_tweets.py:325-337 | the tag loop leaves the tables of `LinkTags` |
| Loader.Store.WriteMedium | load_tweets.py:351-365 | one medium's inserts leave the tables of `LinkMedium` |
| Loader.Store.WriteMedia | load_tweets.py:350-365 | the media loop leaves the tables of `LinkMedia` |
| Loader.Store.InsertTweet | load_tweets.py:76-365 | the store stays consistent, and the outcome and new tables are those of `Database.InsertTweet` |
| Loader.DeriveAll | load_tweets.py:144-323 | the derivation computed step by step equals `Database.Derive` |

## Left out

- The command line, the database connection, reading the zip archives, JSON parsing and progress printing (load_tweets.py:371-404) are I/O. `Loader.Store` stands for the connection, and records arrive already parsed as `Tweets.Tweet`.
- Fields written without `remove_nulls` (the mention's `screen_name` and `name` at load_tweets.py:295-296, `place_name` at 238, `lang` at 241, and every url string at 114, 256 and 351) are stored as they come. In the source a NUL in one of them makes Postgres raise and roll the record back; the model stores the record with the NUL.
- SQL text, `ST_GeomFromText` and Postgres transactions are not modelled as such. Each statement is its effect on the tables. A transaction that raises is rolled back, so `insert_tweet` is modelled as all or nothing: every fallible derivation happens before the first write. The source runs the author insert before computing the geometry, but a rollback makes that order unobservable.
- Database.Derive / Database.InsertTweet / Loader.Store.InsertTweet: use the corrected geometry `Tweets.TweetGeometry`, not the source's. A record without coordinates and without a place is inserted with a null geometry here. The source raises at load_tweets.py:151 and writes nothing. The same goes for a record without a bounding box whose author has `geo_enabled` false. `Database.DeriveAsWritten` and `Database.DeriveExtendsAsWritten` state the difference.
- Tweets.Tweet: `extendedTweet` None stands for an absent `extended_tweet` key. A record whose `extended_tweet` is present but null is not represented. For such a record, line 168's bare `except:` falls back to `text`, while lines 251, 274, 317 and 343 raise an uncaught `TypeError`. The same holds for the other `Option` fields of the record: each stands for one of "null" and "absent", whichever the source handles.
- Coordinates are kept as the strings `str()` renders. Float formatting is not modelled.
- Strings.Lower: only maps `A`-`Z`. Python's `lower()` also folds non-ASCII letters. Country codes and US state names are ASCII.
- Strings.IsSpace is Python's `isspace` on single code points.
- Database.Intern: gives the next id of a gapless counter. A Postgres sequence also advances on an `ON CONFLICT` insert that writes nothing, so real ids can have gaps. Uniqueness and "a known url keeps its id" are what the model promises.
- The table schemas and their keys are not part of this model. The join tables are sets of whole rows, so an `ON CONFLICT DO NOTHING` on a duplicate row is the set union.
- A `bounding_box` that is present but null, and other value shapes that raise `TypeError` in the source, are not represented. An absent bounding box is `None`.
- A record without a `geo` key (a `KeyError` the source does not catch) is not represented: `geo` is an `Option` for a null value.
- A url or media url that is null is not represented: `expanded_url` and `media_url` are strings.

## Findings

| source | as written | input that shows it | evidently intended | confidence | as-written member | corrected member |
|---|---|---|---|---|---|---|
| load_tweets.py:149-151 | with `geo` null and `place` null, `tweet['place']['bounding_box']` raises `TypeError`, which `except KeyError` does not catch, so the tweet is not loaded and the loader stops | a record with `"geo": null, "place": null` | a tweet without coordinates and without place is loaded with a null geometry | high; not executed | Tweets.NullPlaceFailsAsWritten | Tweets.TweetGeometry |
| load_tweets.py:161-164 | with no bounding box and `user.geo_enabled` false, `geo_str` is never assigned (`geo_coords` already holds `'('` from line 150), so line 232 raises `UnboundLocalError` | a record with `"geo": null`, a place without `bounding_box`, and `"geo_enabled": false` | the geometry is null whatever `geo_enabled` says | high; not executed | Tweets.GeoDisabledFailsAsWritten | Tweets.TweetGeometry |
