/**
 * The loader against a store whose tables change in place: one field per
 * table, and the two database-facing procedures as methods that issue the
 * source's statements one after another.
 */
module Loader {

  import opened Wrappers
  import opened Strings
  import opened Geometry
  import opened Tweets
  import opened Database

  class Store {
    var users: map<int, UserRow>
    var tweets: map<int, TweetRow>
    var urls: map<string, nat>
    var nextUrlId: nat
    var tweetUrls: set<(int, nat)>
    var tweetMentions: set<(int, int)>
    var tweetTags: set<(int, string)>
    var tweetMedia: set<(int, nat, string)>

    /** The contents of all seven tables. */
    function Tables(): Db
      reads this
    {
      Db(users, tweets, urls, nextUrlId, tweetUrls, tweetMentions, tweetTags, tweetMedia)
    }

    /** Url ids are unique and every foreign key names an existing row. */
    predicate Valid()
      reads this
    {
      Consistent(Tables())
    }

    /** An empty database. */
    constructor ()
      ensures Tables() == Empty && Valid()
    {
      users, tweets, urls, nextUrlId := map[], map[], map[], 0;
      tweetUrls, tweetMentions, tweetTags, tweetMedia := {}, {}, {}, {};
    }

    /**
     * `get_id_urls`: try to insert the url; when the url is already there
     * (the insert returns no row), look its id up instead.
     */
    method GetIdUrls(url: string) returns (id: nat)
      modifies this
      ensures Interned(Tables(), id) == Intern(old(Tables()), url)
      ensures url in old(urls) ==> id == old(urls)[url] && Tables() == old(Tables())
      ensures url !in old(urls) ==> id == old(nextUrlId) && urls == old(urls)[url := id]
    {
      if url !in urls {
        // a new url takes the next id of the sequence
        id := nextUrlId;
        urls := urls[url := id];
        nextUrlId := nextUrlId + 1;
      } else {
        // a known url keeps the id it already has
        id := urls[url];
      }
    }

    /** The author row, with the profile url interned first. */
    method WriteAuthor(t: Tweet)
      modifies this
      ensures Tables() == AddAuthor(old(Tables()), t)
    {
      var authorUrl: Option<nat> := None;
      if t.user.url.Some? {
        var urlId := GetIdUrls(t.user.url.value);
        authorUrl := Some(urlId);
      }
      if t.user.id !in users {
        users := users[t.user.id := AuthorRow(t, authorUrl)];
      }
    }

    /** An unhydrated placeholder for the user replied to, so that the foreign key holds. */
    method WriteReplyTarget(t: Tweet)
      modifies this
      ensures Tables() == AddReplyTarget(old(Tables()), t)
    {
      if t.inReplyToUserId.Some? && t.inReplyToUserId.value !in users {
        users := users[t.inReplyToUserId.value := Unhydrated];
      }
    }

    /** The tweet row itself. */
    method WriteTweet(id: int, row: TweetRow)
      modifies this
      ensures Tables() == AddTweet(old(Tables()), id, row)
    {
      if id !in tweets {
        tweets := tweets[id := row];
      }
    }

    /** One `tweet_urls` row per url entity, each url interned first. */
    method WriteUrls(tid: int, es: seq<UrlEntity>)
      modifies this
      ensures Tables() == LinkUrls(old(Tables()), tid, es)
    {
      ghost var db := Tables();
      for i := 0 to |es|
        invariant Tables() == LinkUrls(db, tid, es[..i])
      {
        assert es[..i + 1][..i] == es[..i];
        var urlId := GetIdUrls(es[i].expandedUrl);
        tweetUrls := tweetUrls + {(tid, urlId)};
      }
      assert es[..|es|] == es;
    }

    /** A minimal user row for a mentioned user not yet known, and its `tweet_mentions` row. */
    method WriteMention(tid: int, m: Mention)
      modifies this
      ensures Tables() == LinkMention(old(Tables()), tid, m)
    {
      if m.id !in users {
        users := users[m.id := MentionedUser(m)];
      }
      tweetMentions := tweetMentions + {(tid, m.id)};
    }

    /** The mention loop. */
    method WriteMentions(tid: int, ms: seq<Mention>)
      modifies this
      ensures Tables() == LinkMentions(old(Tables()), tid, ms)
    {
      ghost var db := Tables();
      for i := 0 to |ms|
        invariant Tables() == LinkMentions(db, tid, ms[..i])
      {
        LinkMentionsSnoc(db, tid, ms, i);
        WriteMention(tid, ms[i]);
      }
      assert ms[..|ms|] == ms;
    }

    /** One `tweet_tags` row per tag, with NUL characters removed. */
    method WriteTags(tid: int, ts: seq<string>)
      modifies this
      ensures Tables() == LinkTags(old(Tables()), tid, ts)
    {
      ghost var db := Tables();
      for i := 0 to |ts|
        invariant Tables() == LinkTags(db, tid, ts[..i])
      {
        assert ts[..i + 1][..i] == ts[..i];
        tweetTags := tweetTags + {(tid, StripNulls(ts[i]))};
      }
      assert ts[..|ts|] == ts;
    }

    /** The `tweet_media` row of one medium, its url interned first. */
    method WriteMedium(tid: int, m: Medium)
      modifies this
      ensures Tables() == LinkMedium(old(Tables()), tid, m)
    {
      var urlId := GetIdUrls(m.mediaUrl);
      tweetMedia := tweetMedia + {(tid, urlId, m.mediaType)};
    }

    /** The media loop. */
    method WriteMedia(tid: int, media: seq<Medium>)
      modifies this
      ensures Tables() == LinkMedia(old(Tables()), tid, media)
    {
      ghost var db := Tables();
      for i := 0 to |media|
        invariant Tables() == LinkMedia(db, tid, media[..i])
      {
        LinkMediaSnoc(db, tid, media, i);
        WriteMedium(tid, media[i]);
      }
      assert media[..|media|] == media;
    }

    /**
     * `insert_tweet`: skip a tweet already present; otherwise derive the
     * record's values and, if that succeeds, write its rows in the source's
     * order. A failing derivation writes nothing (the transaction is rolled
     * back), so the new tables are always those of `Database.InsertTweet`.
     */
    method InsertTweet(t: Tweet) returns (outcome: Outcome)
      requires Valid()
      modifies this
      ensures Valid()
      ensures Step(Tables(), outcome) == Database.InsertTweet(old(Tables()), t)
    {
      ghost var db := Tables();
      InsertTweetConsistent(db, t);
      // a tweet that is already loaded is left alone
      if t.id in tweets {
        return Skipped;
      }
      var derived := DeriveAll(t);
      if derived.Failure? {
        return Failed(derived.error);
      }
      var d := derived.value;
      WriteAuthor(t);
      WriteReplyTarget(t);
      WriteTweet(t.id, TweetRowOf(t, d.geo));
      WriteUrls(t.id, d.urls);
      WriteMentions(t.id, d.mentions);
      WriteTags(t.id, d.tags);
      WriteMedia(t.id, d.media);
      return Inserted;
    }
  }

  /** One more mention extends the mention loop by one step. */
  lemma LinkMentionsSnoc(db: Db, tid: int, ms: seq<Mention>, i: nat)
    requires i < |ms|
    ensures LinkMentions(db, tid, ms[..i + 1]) == LinkMention(LinkMentions(db, tid, ms[..i]), tid, ms[i])
  {
    assert ms[..i + 1][..i] == ms[..i];
  }

  /** One more medium extends the media loop by one step. */
  lemma LinkMediaSnoc(db: Db, tid: int, media: seq<Medium>, i: nat)
    requires i < |media|
    ensures LinkMedia(db, tid, media[..i + 1]) == LinkMedium(LinkMedia(db, tid, media[..i]), tid, media[i])
  {
    assert media[..i + 1][..i] == media[..i];
  }

  /** The values `insert_tweet` computes from the record before its first write. */
  method DeriveAll(t: Tweet) returns (r: Result<Derived, LoadError>)
    ensures r == Derive(t)
  {
    var geo := DeriveGeometry(t);
    if geo.Failure? {
      return Failure(BadGeometry(geo.error));
    }
    var urls := Urls(t);
    if urls.None? {
      return Failure(MissingUrls);
    }
    var mentions := Mentions(t);
    if mentions.None? {
      return Failure(MissingMentions);
    }
    var tags := Tags(t);
    if tags.None? {
      return Failure(MissingTags);
    }
    return Success(Derived(geo.value, urls.value, mentions.value, tags.value, MediaList(t)));
  }
}
