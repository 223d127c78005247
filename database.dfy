/**
 * The loader's tables as values, and what `get_id_urls` and `insert_tweet`
 * do to them. Every `INSERT ... ON CONFLICT DO NOTHING` is "add the row if
 * its key is absent, otherwise leave the table as it is".
 */
module Database {

  import opened Wrappers
  import opened Strings
  import opened Geometry
  import opened Tweets

  /** A row of `users`. An unhydrated row has only its id; every other column is null. */
  datatype UserRow = UserRow(
    createdAt: Option<string>,
    updatedAt: Option<string>,
    screenName: Option<string>,
    name: Option<string>,
    location: Option<string>,
    urlId: Option<nat>,
    description: Option<string>,
    protected: Option<bool>,
    verified: Option<bool>,
    friendsCount: Option<int>,
    listedCount: Option<int>,
    favouritesCount: Option<int>,
    statusesCount: Option<int>,
    withheldInCountries: Option<seq<string>>)

  /** The placeholder row for a reply target that is not yet known. */
  const Unhydrated: UserRow :=
    UserRow(None, None, None, None, None, None, None, None, None, None, None, None, None, None)

  /** The placeholder row for a mentioned user: only the names the mention carries. */
  function MentionedUser(m: Mention): (row: UserRow)
    ensures row.screenName == Some(m.screenName) && row.name == Some(m.name)
    ensures row.(screenName := None, name := None) == Unhydrated
  {
    Unhydrated.(screenName := Some(m.screenName), name := Some(m.name))
  }

  /** The hydrated row of a tweet's author; `updated_at` is the tweet's creation time. */
  function AuthorRow(t: Tweet, urlId: Option<nat>): (row: UserRow)
    ensures row.urlId == urlId && row.updatedAt == Some(t.createdAt) && row.createdAt == Some(t.user.createdAt)
    ensures row.screenName.Some? && NUL !in row.screenName.value
    ensures row.name.Some? && NUL !in row.name.value
    ensures row.location.Some? <==> t.user.location.Some?
    ensures row.location.Some? ==> NUL !in row.location.value
    ensures row.description.Some? <==> t.user.description.Some?
    ensures row.description.Some? ==> NUL !in row.description.value
    ensures row.withheldInCountries == t.user.withheldInCountries
  {
    var u := t.user;
    UserRow(
      Some(u.createdAt), Some(t.createdAt), RemoveNulls(Some(u.screenName)), RemoveNulls(Some(u.name)),
      RemoveNulls(u.location), urlId, RemoveNulls(u.description), Some(u.protected), Some(u.verified),
      Some(u.friendsCount), Some(u.listedCount), Some(u.favouritesCount), Some(u.statusesCount),
      u.withheldInCountries)
  }

  /** A row of `tweets`; `geo` is the well-known text given to `ST_GeomFromText`, or null. */
  datatype TweetRow = TweetRow(
    userId: int,
    createdAt: string,
    inReplyToStatusId: Option<int>,
    inReplyToUserId: Option<int>,
    quotedStatusId: Option<int>,
    geo: Option<string>,
    retweetCount: Option<int>,
    quoteCount: Option<int>,
    favoriteCount: Option<int>,
    withheldCopyright: Option<bool>,
    withheldInCountries: Option<seq<string>>,
    placeName: Option<string>,
    countryCode: Option<string>,
    stateCode: Option<string>,
    lang: Option<string>,
    text: string,
    source: Option<string>)

  /** The row written for a tweet with the given geometry. */
  function TweetRowOf(t: Tweet, geo: Option<Wkt>): (row: TweetRow)
    ensures NUL !in row.text
    ensures row.source.Some? ==> NUL !in row.source.value
    ensures row.geo.Some? <==> geo.Some?
    ensures row.stateCode.Some? ==> row.countryCode == Some("us") && |row.stateCode.value| <= 2
  {
    TweetRow(
      t.user.id, t.createdAt, t.inReplyToStatusId, t.inReplyToUserId, t.quotedStatusId,
      if geo.Some? then Some(geo.value.Text()) else None,
      t.retweetCount, t.quoteCount, t.favoriteCount, t.withheldCopyright, t.withheldInCountries,
      PlaceName(t.place), CountryCode(t.place), StateCode(t.place), t.lang,
      StripNulls(DisplayText(t)), RemoveNulls(t.source))
  }

  /**
   * The seven tables. `urls` maps each url string to its `id_urls`, and
   * `nextUrlId` is the next value of the id sequence.
   */
  datatype Db = Db(
    users: map<int, UserRow>,
    tweets: map<int, TweetRow>,
    urls: map<string, nat>,
    nextUrlId: nat,
    tweetUrls: set<(int, nat)>,
    tweetMentions: set<(int, int)>,
    tweetTags: set<(int, string)>,
    tweetMedia: set<(int, nat, string)>)

  const Empty: Db := Db(map[], map[], map[], 0, {}, {}, {}, {})

  /** Url ids come from the sequence, and no two url strings share an id. */
  predicate UrlsConsistent(db: Db) {
    && (forall u :: u in db.urls ==> db.urls[u] < db.nextUrlId)
    && (forall u, v :: u in db.urls && v in db.urls && u != v ==> db.urls[u] != db.urls[v])
  }

  /** Every foreign key names an existing row. */
  predicate KeysReferenced(db: Db) {
    && (forall id :: id in db.users && db.users[id].urlId.Some? ==> db.users[id].urlId.value in db.urls.Values)
    && (forall id :: id in db.tweets ==> db.tweets[id].userId in db.users)
    && (forall id :: id in db.tweets && db.tweets[id].inReplyToUserId.Some? ==>
          db.tweets[id].inReplyToUserId.value in db.users)
    && (forall row :: row in db.tweetUrls ==> row.0 in db.tweets && row.1 in db.urls.Values)
    && (forall row :: row in db.tweetMentions ==> row.0 in db.tweets && row.1 in db.users)
    && (forall row :: row in db.tweetTags ==> row.0 in db.tweets)
    && (forall row :: row in db.tweetMedia ==> row.0 in db.tweets && row.1 in db.urls.Values)
  }

  predicate Consistent(db: Db) {
    UrlsConsistent(db) && KeysReferenced(db)
  }

  /** `after` still holds every row of `before`, unchanged: nothing is updated or deleted. */
  predicate Extends(before: Db, after: Db) {
    && (forall id :: id in before.users ==> id in after.users && after.users[id] == before.users[id])
    && (forall id :: id in before.tweets ==> id in after.tweets && after.tweets[id] == before.tweets[id])
    && (forall u :: u in before.urls ==> u in after.urls && after.urls[u] == before.urls[u])
    && before.nextUrlId <= after.nextUrlId
    && before.tweetUrls <= after.tweetUrls
    && before.tweetMentions <= after.tweetMentions
    && before.tweetTags <= after.tweetTags
    && before.tweetMedia <= after.tweetMedia
  }

  lemma ExtendsTransitive(a: Db, b: Db, c: Db)
    requires Extends(a, b) && Extends(b, c)
    ensures Extends(a, c)
  {
  }

  /** A url id known before is known after. */
  lemma ExtendsKeepsUrlIds(before: Db, after: Db)
    requires Extends(before, after)
    ensures before.urls.Values <= after.urls.Values
  {
    forall id | id in before.urls.Values
      ensures id in after.urls.Values
    {
      var u :| u in before.urls && before.urls[u] == id;
      assert after.urls[u] == id;
    }
  }

  /** The tables after interning a url, and the url's id. */
  datatype Interned = Interned(db: Db, id: nat)

  /**
   * `get_id_urls`: the id of `url`, adding a row with the next id of the
   * sequence when the url is new. A known url changes nothing; a new one
   * adds exactly one row, and only to `urls`.
   */
  function Intern(db: Db, url: string): (r: Interned)
    ensures url in r.db.urls && r.db.urls[url] == r.id
    ensures url in db.urls ==> r.db == db
    ensures url !in db.urls ==>
      && r.db.urls.Keys == db.urls.Keys + {url}
      && r.db == db.(urls := r.db.urls, nextUrlId := r.db.nextUrlId)
    ensures Extends(db, r.db)
    ensures UrlsConsistent(db) ==> UrlsConsistent(r.db) && (url !in db.urls ==> r.id !in db.urls.Values)
  {
    if url in db.urls then Interned(db, db.urls[url])
    else Interned(db.(urls := db.urls[url := db.nextUrlId], nextUrlId := db.nextUrlId + 1), db.nextUrlId)
  }

  /** `INSERT INTO users ... ON CONFLICT DO NOTHING`: the first row written for an id stays. */
  function AddUser(db: Db, id: int, row: UserRow): (r: Db)
    ensures id in r.users && Extends(db, r)
    ensures r == db.(users := r.users)
    ensures r.users.Keys == db.users.Keys + {id}
    ensures id !in db.users ==> r.users[id] == row
  {
    if id in db.users then db else db.(users := db.users[id := row])
  }

  /** `INSERT INTO tweets ... ON CONFLICT DO NOTHING`. */
  function AddTweet(db: Db, id: int, row: TweetRow): (r: Db)
    ensures id in r.tweets && Extends(db, r)
    ensures r == db.(tweets := r.tweets)
    ensures id !in db.tweets ==> r.tweets == db.tweets[id := row]
  {
    if id in db.tweets then db else db.(tweets := db.tweets[id := row])
  }

  /** The `tweet_urls` rows of a tweet's url entities, given ids for all their urls. */
  function UrlRows(urls: map<string, nat>, tid: int, entities: seq<UrlEntity>): set<(int, nat)>
    requires forall e :: e in entities ==> e.expandedUrl in urls
  {
    set e | e in entities :: (tid, urls[e.expandedUrl])
  }

  /** The expanded urls of a tweet's url entities. */
  function EntityUrls(entities: seq<UrlEntity>): set<string> {
    set e | e in entities :: e.expandedUrl
  }

  /** The media urls of a tweet's media. */
  function MediaUrls(media: seq<Medium>): set<string> {
    set m | m in media :: m.mediaUrl
  }

  /** The author's profile url, if the profile has one. */
  function ProfileUrls(t: Tweet): set<string> {
    if t.user.url.Some? then {t.user.url.value} else {}
  }

  /** One iteration of the url loop: intern the expanded url, then link it to the tweet. */
  function LinkUrl(db: Db, tid: int, e: UrlEntity): Db {
    var ix := Intern(db, e.expandedUrl);
    ix.db.(tweetUrls := ix.db.tweetUrls + {(tid, ix.id)})
  }

  /** The url loop over a tweet's url entities, in order. */
  function LinkUrls(db: Db, tid: int, entities: seq<UrlEntity>): (r: Db)
    ensures Extends(db, r)
    ensures r == db.(urls := r.urls, nextUrlId := r.nextUrlId, tweetUrls := r.tweetUrls)
    ensures forall e :: e in entities ==> e.expandedUrl in r.urls
    ensures r.tweetUrls == db.tweetUrls + UrlRows(r.urls, tid, entities)
    ensures UrlsConsistent(db) ==> UrlsConsistent(r)
  {
    if entities == [] then db
    else
      var init, last := entities[..|entities| - 1], entities[|entities| - 1];
      var prev := LinkUrls(db, tid, init);
      var r := LinkUrl(prev, tid, last);
      UrlRowsSnoc(prev.urls, r.urls, tid, entities);
      r
  }

  /** The rows of a longer list, once every url keeps its id. */
  lemma UrlRowsSnoc(before: map<string, nat>, after: map<string, nat>, tid: int, entities: seq<UrlEntity>)
    requires entities != []
    requires forall e :: e in entities[..|entities| - 1] ==> e.expandedUrl in before
    requires forall u :: u in before ==> u in after && after[u] == before[u]
    requires entities[|entities| - 1].expandedUrl in after
    ensures forall e :: e in entities ==> e.expandedUrl in after
    ensures UrlRows(after, tid, entities)
      == UrlRows(before, tid, entities[..|entities| - 1])
         + {(tid, after[entities[|entities| - 1].expandedUrl])}
  {
    var init := entities[..|entities| - 1];
    assert entities == init + [entities[|entities| - 1]];
    forall e | e in entities ensures e.expandedUrl in after {
      if e in init {}
    }
  }

  /** The `tweet_mentions` rows of a tweet's mentions. */
  function MentionRows(tid: int, mentions: seq<Mention>): set<(int, int)> {
    set m | m in mentions :: (tid, m.id)
  }

  /** One iteration of the mention loop: a placeholder user if the id is new, then the link. */
  function LinkMention(db: Db, tid: int, m: Mention): Db {
    var withUser := AddUser(db, m.id, MentionedUser(m));
    withUser.(tweetMentions := withUser.tweetMentions + {(tid, m.id)})
  }

  /** The mention loop over a tweet's mentions, in order. */
  function LinkMentions(db: Db, tid: int, mentions: seq<Mention>): (r: Db)
    ensures Extends(db, r)
    ensures r == db.(users := r.users, tweetMentions := r.tweetMentions)
    ensures r.users.Keys == db.users.Keys + set m | m in mentions :: m.id
    ensures forall id :: id in r.users && id !in db.users ==> r.users[id].urlId.None?
    ensures r.tweetMentions == db.tweetMentions + MentionRows(tid, mentions)
  {
    if mentions == [] then db
    else
      var init, last := mentions[..|mentions| - 1], mentions[|mentions| - 1];
      assert mentions == init + [last];
      LinkMention(LinkMentions(db, tid, init), tid, last)
  }

  /** The `tweet_tags` rows of a tweet's tags, null characters removed. */
  function TagRows(tid: int, tags: seq<string>): set<(int, string)> {
    set tag | tag in tags :: (tid, StripNulls(tag))
  }

  /** The tag loop over a tweet's tags, in order. */
  function LinkTags(db: Db, tid: int, tags: seq<string>): (r: Db)
    ensures r == db.(tweetTags := db.tweetTags + TagRows(tid, tags))
  {
    if tags == [] then db
    else
      var init, last := tags[..|tags| - 1], tags[|tags| - 1];
      assert tags == init + [last];
      var prev := LinkTags(db, tid, init);
      prev.(tweetTags := prev.tweetTags + {(tid, StripNulls(last))})
  }

  /** The `tweet_media` rows of a tweet's media, given ids for all their urls. */
  function MediaRows(urls: map<string, nat>, tid: int, media: seq<Medium>): set<(int, nat, string)>
    requires forall m :: m in media ==> m.mediaUrl in urls
  {
    set m | m in media :: (tid, urls[m.mediaUrl], m.mediaType)
  }

  /** One iteration of the media loop: intern the media url, then link it with the media type. */
  function LinkMedium(db: Db, tid: int, m: Medium): Db {
    var ix := Intern(db, m.mediaUrl);
    ix.db.(tweetMedia := ix.db.tweetMedia + {(tid, ix.id, m.mediaType)})
  }

  /** The rows of a longer media list, once every url keeps its id. */
  lemma MediaRowsSnoc(before: map<string, nat>, after: map<string, nat>, tid: int, media: seq<Medium>)
    requires media != []
    requires forall m :: m in media[..|media| - 1] ==> m.mediaUrl in before
    requires forall u :: u in before ==> u in after && after[u] == before[u]
    requires media[|media| - 1].mediaUrl in after
    ensures forall m :: m in media ==> m.mediaUrl in after
    ensures MediaRows(after, tid, media)
      == MediaRows(before, tid, media[..|media| - 1])
         + {(tid, after[media[|media| - 1].mediaUrl], media[|media| - 1].mediaType)}
  {
    var init := media[..|media| - 1];
    assert media == init + [media[|media| - 1]];
    forall m | m in media ensures m.mediaUrl in after {
      if m in init {}
    }
  }

  /** The media loop over a tweet's media, in order. */
  function LinkMedia(db: Db, tid: int, media: seq<Medium>): (r: Db)
    ensures Extends(db, r)
    ensures r == db.(urls := r.urls, nextUrlId := r.nextUrlId, tweetMedia := r.tweetMedia)
    ensures forall m :: m in media ==> m.mediaUrl in r.urls
    ensures r.tweetMedia == db.tweetMedia + MediaRows(r.urls, tid, media)
    ensures UrlsConsistent(db) ==> UrlsConsistent(r)
  {
    if media == [] then db
    else
      var init, last := media[..|media| - 1], media[|media| - 1];
      var prev := LinkMedia(db, tid, init);
      var r := LinkMedium(prev, tid, last);
      MediaRowsSnoc(prev.urls, r.urls, tid, media);
      r
  }

  /** One url entity more adds its url to the entity urls. */
  lemma EntityUrlsSnoc(entities: seq<UrlEntity>)
    requires entities != []
    ensures EntityUrls(entities) == EntityUrls(entities[..|entities| - 1]) + {entities[|entities| - 1].expandedUrl}
  {
    assert entities == entities[..|entities| - 1] + [entities[|entities| - 1]];
  }

  /** One medium more adds its url to the media urls. */
  lemma MediaUrlsSnoc(media: seq<Medium>)
    requires media != []
    ensures MediaUrls(media) == MediaUrls(media[..|media| - 1]) + {media[|media| - 1].mediaUrl}
  {
    assert media == media[..|media| - 1] + [media[|media| - 1]];
  }

  /** The url loop adds exactly the expanded urls of the entities to `urls`, and no other url. */
  lemma {:induction false} LinkUrlsKeys(db: Db, tid: int, entities: seq<UrlEntity>)
    ensures LinkUrls(db, tid, entities).urls.Keys == db.urls.Keys + EntityUrls(entities)
  {
    if entities != [] {
      var init, last := entities[..|entities| - 1], entities[|entities| - 1];
      var prev := LinkUrls(db, tid, init);
      assert LinkUrls(db, tid, entities) == LinkUrl(prev, tid, last);
      assert LinkUrl(prev, tid, last).urls.Keys == prev.urls.Keys + {last.expandedUrl};
      EntityUrlsSnoc(entities);
      LinkUrlsKeys(db, tid, init);
    }
  }

  /** The media loop adds exactly the media urls to `urls`, and no other url. */
  lemma {:induction false} LinkMediaKeys(db: Db, tid: int, media: seq<Medium>)
    ensures LinkMedia(db, tid, media).urls.Keys == db.urls.Keys + MediaUrls(media)
  {
    if media != [] {
      var init, last := media[..|media| - 1], media[|media| - 1];
      var prev := LinkMedia(db, tid, init);
      assert LinkMedia(db, tid, media) == LinkMedium(prev, tid, last);
      assert LinkMedium(prev, tid, last).urls.Keys == prev.urls.Keys + {last.mediaUrl};
      MediaUrlsSnoc(media);
      LinkMediaKeys(db, tid, init);
    }
  }

  /** The author's url (interned first, when the profile has one) and the author's row. */
  function AddAuthor(db: Db, t: Tweet): (r: Db)
    ensures Extends(db, r) && t.user.id in r.users
    ensures r == db.(users := r.users, urls := r.urls, nextUrlId := r.nextUrlId)
    ensures r.users.Keys == db.users.Keys + {t.user.id}
    ensures t.user.url.Some? ==> t.user.url.value in r.urls
    ensures r.urls.Keys == db.urls.Keys + ProfileUrls(t)
    ensures t.user.id !in db.users ==>
      r.users[t.user.id] == AuthorRow(t, if t.user.url.Some? then Some(r.urls[t.user.url.value]) else None)
    ensures UrlsConsistent(db) ==> UrlsConsistent(r)
  {
    match t.user.url
    case None => AddUser(db, t.user.id, AuthorRow(t, None))
    case Some(url) =>
      var ix := Intern(db, url);
      AddUser(ix.db, t.user.id, AuthorRow(t, Some(ix.id)))
  }

  /** An unhydrated row for the reply target, when the tweet replies to a user not yet known. */
  function AddReplyTarget(db: Db, t: Tweet): (r: Db)
    ensures Extends(db, r)
    ensures r == db.(users := r.users)
    ensures r.users.Keys == db.users.Keys + ReplyTargets(t)
    ensures t.inReplyToUserId.Some? && t.inReplyToUserId.value !in db.users ==>
      r.users[t.inReplyToUserId.value] == Unhydrated
  {
    if t.inReplyToUserId.Some? then AddUser(db, t.inReplyToUserId.value, Unhydrated) else db
  }

  /** The user the tweet replies to, if any. */
  function ReplyTargets(t: Tweet): set<int> {
    if t.inReplyToUserId.Some? then {t.inReplyToUserId.value} else {}
  }

  /** What the loader derives from a record before it writes a row. */
  datatype Derived = Derived(
    geo: Option<Wkt>,
    urls: seq<UrlEntity>,
    mentions: seq<Mention>,
    tags: seq<string>,
    media: seq<Medium>)

  /** Why a record could not be loaded: its transaction is rolled back. */
  datatype LoadError =
    | BadGeometry(cause: GeoError)
    | MissingUrls      // neither the extended nor the base entities list urls
    | MissingMentions  // neither lists user mentions
    | MissingTags      // the base entities lack hashtags or symbols

  /** The derivations, in the order the source performs them; the first to fail decides the error. */
  function Derive(t: Tweet): (r: Result<Derived, LoadError>)
    ensures r.Success? ==>
      && TweetGeometry(t) == Success(r.value.geo)
      && Urls(t) == Some(r.value.urls)
      && Mentions(t) == Some(r.value.mentions)
      && Tags(t) == Some(r.value.tags)
      && r.value.media == MediaList(t)
    ensures r.Failure? <==>
      TweetGeometry(t).Failure? || Urls(t).None? || Mentions(t).None? || Tags(t).None?
  {
    match TweetGeometry(t)
    case Failure(e) => Failure(BadGeometry(e))
    case Success(geo) =>
      if Urls(t).None? then Failure(MissingUrls)
      else if Mentions(t).None? then Failure(MissingMentions)
      else if Tags(t).None? then Failure(MissingTags)
      else Success(Derived(geo, Urls(t).value, Mentions(t).value, Tags(t).value, MediaList(t)))
  }

  /**
   * The derivation with the geometry exactly as the source computes it, so
   * that a null place or an unbound `geo_str` makes the record fail.
   */
  function DeriveAsWritten(t: Tweet): (r: Result<Derived, LoadError>)
    ensures r.Failure? <==>
      TweetGeometryAsWritten(t).Failure? || Urls(t).None? || Mentions(t).None? || Tags(t).None?
    ensures r.Success? ==> TweetGeometryAsWritten(t) == Success(r.value.geo)
  {
    match TweetGeometryAsWritten(t)
    case Failure(e) => Failure(BadGeometry(e))
    case Success(geo) =>
      if Urls(t).None? then Failure(MissingUrls)
      else if Mentions(t).None? then Failure(MissingMentions)
      else if Tags(t).None? then Failure(MissingTags)
      else Success(Derived(geo, Urls(t).value, Mentions(t).value, Tags(t).value, MediaList(t)))
  }

  /**
   * Where the source derives a record, the corrected derivation gives the
   * same values; a record without coordinates and without a place fails in
   * the source but derives a null geometry here.
   */
  lemma DeriveExtendsAsWritten(t: Tweet)
    ensures DeriveAsWritten(t).Success? ==> Derive(t) == DeriveAsWritten(t)
    ensures Derive(t).Failure? ==> DeriveAsWritten(t).Failure?
    ensures t.geo.None? && t.place.None? ==>
      DeriveAsWritten(t) == Failure(BadGeometry(PlaceIsNull)) && (Derive(t).Success? ==> Derive(t).value.geo.None?)
  {
    GeometryExtendsAsWritten(t);
  }

  /** The writes of one new tweet, in the source's order. */
  function Load(db: Db, t: Tweet, d: Derived): (r: Db)
    ensures t.id in r.tweets && t.user.id in r.users
    ensures ReplyTargets(t) <= r.users.Keys
    ensures d.urls == [] && d.media == [] ==> r.urls.Keys == db.urls.Keys + ProfileUrls(t)
  {
    var withAuthor := AddAuthor(db, t);
    var withReply := AddReplyTarget(withAuthor, t);
    var withTweet := AddTweet(withReply, t.id, TweetRowOf(t, d.geo));
    var withUrls := LinkUrls(withTweet, t.id, d.urls);
    var withMentions := LinkMentions(withUrls, t.id, d.mentions);
    var withTags := LinkTags(withMentions, t.id, d.tags);
    LinkMedia(withTags, t.id, d.media)
  }

  /** How `insert_tweet` ended. */
  datatype Outcome = Skipped | Inserted | Failed(error: LoadError)

  /** The tables after `insert_tweet`, and how it ended. */
  datatype Step = Step(db: Db, outcome: Outcome)

  /**
   * `insert_tweet` as one atomic transition: a tweet already present is
   * skipped; a record whose derivations fail leaves every table as it was
   * (the transaction rolls back); otherwise all of its rows are written.
   */
  function InsertTweet(db: Db, t: Tweet): (r: Step)
    ensures t.id in db.tweets ==> r == Step(db, Skipped)
    ensures r.outcome == Skipped <==> t.id in db.tweets
    ensures r.outcome.Failed? ==> r.db == db && Derive(t) == Failure(r.outcome.error)
    ensures r.outcome == Inserted <==> t.id !in db.tweets && Derive(t).Success?
    ensures r.outcome == Inserted ==> t.id in r.db.tweets
  {
    if t.id in db.tweets then Step(db, Skipped)
    else match Derive(t)
      case Failure(e) => Step(db, Failed(e))
      case Success(d) => Step(Load(db, t, d), Inserted)
  }

  /** Rows of other tables stay referenced when only urls are added. */
  lemma KeysReferencedMoreUrls(before: Db, after: Db)
    requires KeysReferenced(before) && Extends(before, after)
    requires after == before.(urls := after.urls, nextUrlId := after.nextUrlId)
    ensures KeysReferenced(after)
  {
    ExtendsKeepsUrlIds(before, after);
  }

  /** Rows stay referenced when a user row without a url, or with a known url, is added. */
  lemma KeysReferencedMoreUsers(before: Db, after: Db)
    requires KeysReferenced(before) && Extends(before, after)
    requires after == before.(users := after.users)
    requires forall id :: id in after.users && id !in before.users ==>
      after.users[id].urlId.None? || after.users[id].urlId.value in after.urls.Values
    ensures KeysReferenced(after)
  {
    forall id | id in after.tweets && after.tweets[id].inReplyToUserId.Some?
      ensures after.tweets[id].inReplyToUserId.value in after.users
    {
      var target := before.tweets[id].inReplyToUserId.value;
      assert target in before.users;
    }
    forall id | id in before.tweets
      ensures before.tweets[id].userId in after.users
    {
      assert before.tweets[id].userId in before.users;
    }
    forall row | row in before.tweetMentions
      ensures row.1 in after.users
    {
      assert row.1 in before.users;
    }
  }

  /** The tweet row keeps every key referenced when its author and reply target exist. */
  lemma AddTweetReferenced(db: Db, id: int, row: TweetRow)
    requires KeysReferenced(db) && id !in db.tweets
    requires row.userId in db.users
    requires row.inReplyToUserId.Some? ==> row.inReplyToUserId.value in db.users
    ensures KeysReferenced(AddTweet(db, id, row))
  {
  }

  /** The mention loop keeps every key referenced once the tweet row exists. */
  lemma LinkMentionsReferenced(db: Db, tid: int, mentions: seq<Mention>)
    requires KeysReferenced(db) && tid in db.tweets
    ensures KeysReferenced(LinkMentions(db, tid, mentions))
  {
    var r := LinkMentions(db, tid, mentions);
    var middle := r.(tweetMentions := db.tweetMentions);
    KeysReferencedMoreUsers(db, middle);
    forall row | row in r.tweetMentions
      ensures row.0 in r.tweets && row.1 in r.users
    {
      if row !in db.tweetMentions {
        var m :| m in mentions && row == (tid, m.id);
      }
    }
  }

  /** The tag loop keeps every key referenced once the tweet row exists. */
  lemma LinkTagsReferenced(db: Db, tid: int, tags: seq<string>)
    requires KeysReferenced(db) && tid in db.tweets
    ensures KeysReferenced(LinkTags(db, tid, tags))
  {
  }

  /** The url loop keeps every key referenced once the tweet row exists. */
  lemma LinkUrlsReferenced(db: Db, tid: int, entities: seq<UrlEntity>)
    requires KeysReferenced(db) && tid in db.tweets
    ensures KeysReferenced(LinkUrls(db, tid, entities))
  {
    var r := LinkUrls(db, tid, entities);
    ExtendsKeepsUrlIds(db, r);
    forall row | row in r.tweetUrls
      ensures row.0 in r.tweets && row.1 in r.urls.Values
    {
      if row !in db.tweetUrls {
        var e :| e in entities && row == (tid, r.urls[e.expandedUrl]);
      }
    }
  }

  /** The media loop keeps every key referenced once the tweet row exists. */
  lemma LinkMediaReferenced(db: Db, tid: int, media: seq<Medium>)
    requires KeysReferenced(db) && tid in db.tweets
    ensures KeysReferenced(LinkMedia(db, tid, media))
  {
    var r := LinkMedia(db, tid, media);
    ExtendsKeepsUrlIds(db, r);
    forall row | row in r.tweetMedia
      ensures row.0 in r.tweets && row.1 in r.urls.Values
    {
      if row !in db.tweetMedia {
        var m :| m in media && row == (tid, r.urls[m.mediaUrl], m.mediaType);
      }
    }
  }

  /** The author step keeps every key referenced: the author's url id is a known one. */
  lemma AddAuthorReferenced(db: Db, t: Tweet)
    requires KeysReferenced(db)
    ensures KeysReferenced(AddAuthor(db, t))
  {
    var r := AddAuthor(db, t);
    match t.user.url
    case None =>
      KeysReferencedMoreUsers(db, r);
    case Some(url) =>
      var ix := Intern(db, url);
      KeysReferencedMoreUrls(db, ix.db);
      KeysReferencedMoreUsers(ix.db, r);
  }

  /** Loading a new tweet keeps url ids drawn from the sequence and distinct. */
  lemma LoadUrlsConsistent(db: Db, t: Tweet, d: Derived)
    requires UrlsConsistent(db)
    ensures UrlsConsistent(Load(db, t, d))
  {
    var withAuthor := AddAuthor(db, t);
    var withReply := AddReplyTarget(withAuthor, t);
    assert UrlsConsistent(withReply);
    var withTweet := AddTweet(withReply, t.id, TweetRowOf(t, d.geo));
    assert UrlsConsistent(withTweet);
    var withUrls := LinkUrls(withTweet, t.id, d.urls);
    var withMentions := LinkMentions(withUrls, t.id, d.mentions);
    assert UrlsConsistent(withMentions);
    var withTags := LinkTags(withMentions, t.id, d.tags);
    assert UrlsConsistent(withTags);
  }

  /**
   * Loading a new tweet keeps every foreign key satisfied: the author and
   * the reply target exist before the tweet row that names them, and every
   * join row names the tweet and an existing user or url.
   */
  lemma LoadReferenced(db: Db, t: Tweet, d: Derived)
    requires KeysReferenced(db) && t.id !in db.tweets
    ensures KeysReferenced(Load(db, t, d))
  {
    var withAuthor := AddAuthor(db, t);
    AddAuthorReferenced(db, t);
    var withReply := AddReplyTarget(withAuthor, t);
    KeysReferencedMoreUsers(withAuthor, withReply);
    var row := TweetRowOf(t, d.geo);
    var withTweet := AddTweet(withReply, t.id, row);
    AddTweetReferenced(withReply, t.id, row);
    var withUrls := LinkUrls(withTweet, t.id, d.urls);
    LinkUrlsReferenced(withTweet, t.id, d.urls);
    var withMentions := LinkMentions(withUrls, t.id, d.mentions);
    LinkMentionsReferenced(withUrls, t.id, d.mentions);
    var withTags := LinkTags(withMentions, t.id, d.tags);
    LinkTagsReferenced(withMentions, t.id, d.tags);
    LinkMediaReferenced(withTags, t.id, d.media);
  }

  /** `insert_tweet` keeps the store consistent, whatever the record. */
  lemma InsertTweetConsistent(db: Db, t: Tweet)
    requires Consistent(db)
    ensures Consistent(InsertTweet(db, t).db)
  {
    if t.id !in db.tweets && Derive(t).Success? {
      LoadUrlsConsistent(db, t, Derive(t).value);
      LoadReferenced(db, t, Derive(t).value);
    }
  }

  /** Interning the same url again returns the same id and changes nothing. */
  lemma InternTwice(db: Db, url: string)
    ensures Intern(Intern(db, url).db, url) == Intern(db, url)
  {
  }

  /** Two different urls interned one after the other get two different ids, and the first keeps its id. */
  lemma InternDistinct(db: Db, u: string, v: string)
    requires UrlsConsistent(db) && u != v
    ensures var first := Intern(db, u);
      var second := Intern(first.db, v);
      first.id != second.id && second.db.urls[u] == first.id
  {
    var first := Intern(db, u);
    var second := Intern(first.db, v);
    assert first.db.urls[u] == first.id;
  }

  /** Once every url of the entities has an id, adding urls does not change their rows. */
  lemma UrlRowsStable(before: map<string, nat>, after: map<string, nat>, tid: int, entities: seq<UrlEntity>)
    requires forall e :: e in entities ==> e.expandedUrl in before
    requires forall u :: u in before ==> u in after && after[u] == before[u]
    ensures forall e :: e in entities ==> e.expandedUrl in after
    ensures UrlRows(after, tid, entities) == UrlRows(before, tid, entities)
  {
  }

  /**
   * The tables after loading a new tweet: nothing existing changes, the tweet
   * row is added, the users table gains exactly the author, the reply target
   * and the mentioned users, and each join table gains exactly the rows of
   * the tweet's urls, mentions, tags and media, all keyed by the tweet's id.
   */
  lemma {:induction false} LoadRows(db: Db, t: Tweet, d: Derived)
    requires t.id !in db.tweets
    ensures var r := Load(db, t, d);
      && Extends(db, r)
      && r.tweets == db.tweets[t.id := TweetRowOf(t, d.geo)]
      && r.users.Keys == db.users.Keys + {t.user.id} + ReplyTargets(t) + (set m | m in d.mentions :: m.id)
      && (forall e :: e in d.urls ==> e.expandedUrl in r.urls)
      && (forall m :: m in d.media ==> m.mediaUrl in r.urls)
      && r.tweetUrls == db.tweetUrls + UrlRows(r.urls, t.id, d.urls)
      && r.tweetMentions == db.tweetMentions + MentionRows(t.id, d.mentions)
      && r.tweetTags == db.tweetTags + TagRows(t.id, d.tags)
      && r.tweetMedia == db.tweetMedia + MediaRows(r.urls, t.id, d.media)
  {
    var withAuthor := AddAuthor(db, t);
    var withReply := AddReplyTarget(withAuthor, t);
    var withTweet := AddTweet(withReply, t.id, TweetRowOf(t, d.geo));
    var withUrls := LinkUrls(withTweet, t.id, d.urls);
    var withMentions := LinkMentions(withUrls, t.id, d.mentions);
    var withTags := LinkTags(withMentions, t.id, d.tags);
    var r := LinkMedia(withTags, t.id, d.media);
    assert r == Load(db, t, d);
    ExtendsTransitive(db, withAuthor, withReply);
    ExtendsTransitive(db, withReply, withTweet);
    ExtendsTransitive(db, withTweet, withUrls);
    ExtendsTransitive(db, withUrls, withMentions);
    ExtendsTransitive(db, withMentions, r);
    UrlRowsStable(withUrls.urls, r.urls, t.id, d.urls);
  }

  /** The author's row and the reply target's placeholder, when those users were new. */
  lemma {:induction false} LoadUsers(db: Db, t: Tweet, d: Derived)
    requires t.id !in db.tweets
    ensures var r := Load(db, t, d);
      && t.user.id in r.users
      && (t.user.url.Some? ==> t.user.url.value in r.urls)
      && (t.user.id !in db.users ==>
            r.users[t.user.id] == AuthorRow(t, if t.user.url.Some? then Some(r.urls[t.user.url.value]) else None))
      && (t.inReplyToUserId.Some? && t.inReplyToUserId.value !in db.users && t.inReplyToUserId.value != t.user.id ==>
            r.users[t.inReplyToUserId.value] == Unhydrated)
  {
    var withAuthor := AddAuthor(db, t);
    var withReply := AddReplyTarget(withAuthor, t);
    var withTweet := AddTweet(withReply, t.id, TweetRowOf(t, d.geo));
    var withUrls := LinkUrls(withTweet, t.id, d.urls);
    var withMentions := LinkMentions(withUrls, t.id, d.mentions);
    var withTags := LinkTags(withMentions, t.id, d.tags);
    var r := LinkMedia(withTags, t.id, d.media);
    assert r == Load(db, t, d);
    ExtendsTransitive(withAuthor, withReply, withTweet);
    ExtendsTransitive(withAuthor, withTweet, withUrls);
    ExtendsTransitive(withAuthor, withUrls, withMentions);
    ExtendsTransitive(withAuthor, withMentions, r);
  }

  /** Re-processing a record leaves the tables as processing it once did. */
  lemma InsertTweetIdempotent(db: Db, t: Tweet)
    ensures InsertTweet(InsertTweet(db, t).db, t).db == InsertTweet(db, t).db
  {
  }

  /**
   * First writer wins: no user row that existed is changed, whether by the
   * author's insert, a mention's placeholder or the reply target's
   * placeholder; and no other existing row changes either.
   */
  lemma InsertTweetKeepsRows(db: Db, t: Tweet)
    ensures Extends(db, InsertTweet(db, t).db)
    ensures forall id :: id in db.users ==>
      id in InsertTweet(db, t).db.users && InsertTweet(db, t).db.users[id] == db.users[id]
  {
    if InsertTweet(db, t).outcome == Inserted {
      LoadRows(db, t, Derive(t).value);
    }
  }

  /**
   * A loaded tweet's rows: the tweet row itself, the author and reply target
   * in `users`, and exactly the join rows of its urls, mentions, tags and
   * media, keyed by its id.
   */
  lemma InsertTweetRows(db: Db, t: Tweet)
    requires t.id !in db.tweets && Derive(t).Success?
    ensures var r := InsertTweet(db, t).db; var d := Derive(t).value;
      && r.tweets == db.tweets[t.id := TweetRowOf(t, d.geo)]
      && t.user.id in r.users
      && (t.inReplyToUserId.Some? ==> t.inReplyToUserId.value in r.users)
      && (forall e :: e in d.urls ==> e.expandedUrl in r.urls)
      && (forall m :: m in d.media ==> m.mediaUrl in r.urls)
      && r.tweetUrls == db.tweetUrls + UrlRows(r.urls, t.id, d.urls)
      && r.tweetMentions == db.tweetMentions + MentionRows(t.id, d.mentions)
      && r.tweetTags == db.tweetTags + TagRows(t.id, d.tags)
      && r.tweetMedia == db.tweetMedia + MediaRows(r.urls, t.id, d.media)
  {
    LoadRows(db, t, Derive(t).value);
  }

  /** Every join row `insert_tweet` adds is keyed by the tweet's id. */
  lemma InsertTweetKeyedByTweet(db: Db, t: Tweet)
    ensures var r := InsertTweet(db, t).db;
      && (forall row :: row in r.tweetUrls - db.tweetUrls ==> row.0 == t.id)
      && (forall row :: row in r.tweetMentions - db.tweetMentions ==> row.0 == t.id)
      && (forall row :: row in r.tweetTags - db.tweetTags ==> row.0 == t.id)
      && (forall row :: row in r.tweetMedia - db.tweetMedia ==> row.0 == t.id)
  {
    if InsertTweet(db, t).outcome == Inserted {
      LoadRows(db, t, Derive(t).value);
    }
  }

  /** A tweet with an empty media list adds no `tweet_media` row. */
  lemma InsertTweetNoMedia(db: Db, t: Tweet)
    requires MediaList(t) == []
    ensures InsertTweet(db, t).db.tweetMedia == db.tweetMedia
  {
    if InsertTweet(db, t).outcome == Inserted {
      LoadRows(db, t, Derive(t).value);
    }
  }

  /**
   * A reply to a user with no row yet creates that user's unhydrated
   * placeholder (unless the user is the author), so the tweet row's foreign
   * key holds.
   */
  lemma InsertTweetReplyTarget(db: Db, t: Tweet)
    requires t.id !in db.tweets && Derive(t).Success? && t.inReplyToUserId.Some?
    ensures var r := InsertTweet(db, t).db; var target := t.inReplyToUserId.value;
      && target in r.users
      && r.tweets[t.id].inReplyToUserId == Some(target)
      && (target !in db.users && target != t.user.id ==> r.users[target] == Unhydrated)
  {
    LoadRows(db, t, Derive(t).value);
    LoadUsers(db, t, Derive(t).value);
  }

  /** The author's row is written only when the author is new, and then hydrated from the record. */
  lemma InsertTweetAuthor(db: Db, t: Tweet)
    requires t.id !in db.tweets && Derive(t).Success?
    ensures var r := InsertTweet(db, t).db;
      && t.user.id in r.users
      && (t.user.id in db.users ==> r.users[t.user.id] == db.users[t.user.id])
      && (t.user.url.Some? ==> t.user.url.value in r.urls)
      && (t.user.id !in db.users ==>
            r.users[t.user.id] == AuthorRow(t, if t.user.url.Some? then Some(r.urls[t.user.url.value]) else None))
  {
    LoadRows(db, t, Derive(t).value);
    LoadUsers(db, t, Derive(t).value);
  }

  /** The user row of a mention's id, when that id first appears at index `i` of the mentions. */
  predicate FirstMentionRow(ms: seq<Mention>, id: int, row: UserRow) {
    exists i :: 0 <= i < |ms| && ms[i].id == id && row == MentionedUser(ms[i])
      && forall k :: 0 <= k < i ==> ms[k].id != id
  }

  /** A first mention stays the first one when a mention is appended. */
  lemma FirstMentionRowSnoc(init: seq<Mention>, last: Mention, id: int, row: UserRow)
    requires FirstMentionRow(init, id, row)
    ensures FirstMentionRow(init + [last], id, row)
  {
    var ms := init + [last];
    var i :| 0 <= i < |init| && init[i].id == id && row == MentionedUser(init[i])
      && forall k :: 0 <= k < i ==> init[k].id != id;
    assert ms[i] == init[i];
    assert forall k :: 0 <= k < i ==> ms[k] == init[k];
  }

  /** An appended mention whose id none of the earlier ones has is the first mention of that id. */
  lemma FirstMentionRowLast(init: seq<Mention>, last: Mention)
    requires forall k :: 0 <= k < |init| ==> init[k].id != last.id
    ensures FirstMentionRow(init + [last], last.id, MentionedUser(last))
  {
    var ms := init + [last];
    assert ms[|init|] == last;
    assert forall k :: 0 <= k < |init| ==> ms[k] == init[k];
  }

  /** A user row the mention loop adds is the placeholder of the first mention with that id. */
  lemma {:induction false} LinkMentionsNewUser(db: Db, tid: int, ms: seq<Mention>, id: int)
    requires id in LinkMentions(db, tid, ms).users && id !in db.users
    ensures FirstMentionRow(ms, id, LinkMentions(db, tid, ms).users[id])
  {
    var init, last := ms[..|ms| - 1], ms[|ms| - 1];
    assert ms == init + [last];
    var prev := LinkMentions(db, tid, init);
    var r := LinkMentions(db, tid, ms);
    assert r == LinkMention(prev, tid, last);
    if id in prev.users {
      LinkMentionsNewUser(db, tid, init, id);
      FirstMentionRowSnoc(init, last, id, prev.users[id]);
    } else {
      forall k | 0 <= k < |init|
        ensures init[k].id != last.id
      {
        assert init[k] in init;
      }
      FirstMentionRowLast(init, last);
    }
  }

  /** Every user row the mention loop adds is the placeholder of the first mention with that id. */
  lemma LinkMentionsNewUsers(db: Db, tid: int, ms: seq<Mention>)
    ensures var r := LinkMentions(db, tid, ms);
      forall id :: id in r.users && id !in db.users ==> FirstMentionRow(ms, id, r.users[id])
  {
    var r := LinkMentions(db, tid, ms);
    forall id | id in r.users && id !in db.users
      ensures FirstMentionRow(ms, id, r.users[id])
    {
      LinkMentionsNewUser(db, tid, ms, id);
    }
  }

  /**
   * The users a loaded tweet adds besides its author and reply target are
   * the mentioned users, each with the screen name and name of the first
   * mention of its id.
   */
  lemma InsertTweetMentionedUsers(db: Db, t: Tweet)
    requires t.id !in db.tweets && Derive(t).Success?
    ensures var r := InsertTweet(db, t).db; var d := Derive(t).value;
      forall id :: id in r.users && id !in db.users && id != t.user.id && id !in ReplyTargets(t) ==>
        FirstMentionRow(d.mentions, id, r.users[id])
  {
    var d := Derive(t).value;
    var withAuthor := AddAuthor(db, t);
    var withReply := AddReplyTarget(withAuthor, t);
    var withTweet := AddTweet(withReply, t.id, TweetRowOf(t, d.geo));
    var withUrls := LinkUrls(withTweet, t.id, d.urls);
    var withMentions := LinkMentions(withUrls, t.id, d.mentions);
    var withTags := LinkTags(withMentions, t.id, d.tags);
    var r := LinkMedia(withTags, t.id, d.media);
    assert r == InsertTweet(db, t).db;
    assert r.users == withMentions.users;
    forall id | id in r.users && id !in db.users && id != t.user.id && id !in ReplyTargets(t)
      ensures FirstMentionRow(d.mentions, id, r.users[id])
    {
      assert id !in withUrls.users;
      LinkMentionsNewUser(withUrls, t.id, d.mentions, id);
    }
  }

  /** Loading a tweet adds exactly the profile url, the entities' urls and the media urls to `urls`. */
  lemma LoadUrls(db: Db, t: Tweet, d: Derived)
    ensures Load(db, t, d).urls.Keys == db.urls.Keys + ProfileUrls(t) + EntityUrls(d.urls) + MediaUrls(d.media)
  {
    var withAuthor := AddAuthor(db, t);
    var withReply := AddReplyTarget(withAuthor, t);
    var withTweet := AddTweet(withReply, t.id, TweetRowOf(t, d.geo));
    var withUrls := LinkUrls(withTweet, t.id, d.urls);
    var withMentions := LinkMentions(withUrls, t.id, d.mentions);
    var withTags := LinkTags(withMentions, t.id, d.tags);
    LinkUrlsKeys(withTweet, t.id, d.urls);
    LinkMediaKeys(withTags, t.id, d.media);
  }

  /** A loaded tweet adds exactly its profile url, entity urls and media urls to `urls`, and no other url. */
  lemma InsertTweetUrls(db: Db, t: Tweet)
    requires t.id !in db.tweets && Derive(t).Success?
    ensures var r := InsertTweet(db, t).db; var d := Derive(t).value;
      r.urls.Keys == db.urls.Keys + ProfileUrls(t) + EntityUrls(d.urls) + MediaUrls(d.media)
  {
    LoadUrls(db, t, Derive(t).value);
  }

  /** A new record whose derivation fails leaves every table as it was: the transaction is all or nothing. */
  lemma InsertTweetFailureWritesNothing(db: Db, t: Tweet)
    requires t.id !in db.tweets && Derive(t).Failure?
    ensures InsertTweet(db, t) == Step(db, Failed(Derive(t).error))
  {
  }
}
