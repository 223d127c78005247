/**
 * A decoded tweet record, with each JSON field that may be null or absent
 * as an Option, and the values the loader derives from it before writing
 * any row.
 */
module Tweets {

  import opened Wrappers
  import opened Strings
  import opened Geometry

  /** The author object of a tweet (`tweet['user']`). */
  datatype User = User(
    id: int,
    createdAt: string,
    screenName: string,
    name: string,
    location: Option<string>,
    url: Option<string>,
    description: Option<string>,
    protected: bool,
    verified: bool,
    friendsCount: int,
    listedCount: int,
    favouritesCount: int,
    statusesCount: int,
    withheldInCountries: Option<seq<string>>,
    geoEnabled: bool)

  /** An element of `entities.urls`. */
  datatype UrlEntity = UrlEntity(expandedUrl: string)

  /** An element of `entities.user_mentions`. */
  datatype Mention = Mention(id: int, screenName: string, name: string)

  /** An element of `extended_entities.media`. */
  datatype Medium = Medium(mediaUrl: string, mediaType: string)

  /**
   * An `entities` object. A None list is a missing key (a KeyError in the
   * source); hashtags and symbols hold the entities' `text` fields.
   */
  datatype Entities = Entities(
    urls: Option<seq<UrlEntity>>,
    userMentions: Option<seq<Mention>>,
    hashtags: Option<seq<string>>,
    symbols: Option<seq<string>>)

  /**
   * The `extended_tweet` object of a long tweet. `media` is
   * `extended_entities.media`, None when either key is missing.
   */
  datatype ExtendedTweet = ExtendedTweet(
    fullText: Option<string>,
    entities: Option<Entities>,
    media: Option<seq<Medium>>)

  /**
   * A `place` object. `boundingBox` is `bounding_box.coordinates`, a list of
   * rings of points, None when either key is missing.
   */
  datatype Place = Place(countryCode: string, fullName: string, boundingBox: Option<seq<seq<Point>>>)

  /**
   * A tweet. `geo` is the pair `geo.coordinates` when `geo` is not null;
   * `media` is the top-level `extended_entities.media`, None when missing.
   */
  datatype Tweet = Tweet(
    id: int,
    user: User,
    createdAt: string,
    inReplyToStatusId: Option<int>,
    inReplyToUserId: Option<int>,
    quotedStatusId: Option<int>,
    geo: Option<Point>,
    place: Option<Place>,
    retweetCount: Option<int>,
    quoteCount: Option<int>,
    favoriteCount: Option<int>,
    withheldCopyright: Option<bool>,
    withheldInCountries: Option<seq<string>>,
    lang: Option<string>,
    text: string,
    source: Option<string>,
    extendedTweet: Option<ExtendedTweet>,
    entities: Entities,
    media: Option<seq<Medium>>)

  /**
   * The first present value among candidates listed in order of precedence:
   * the source's chains of `try`/`except KeyError` fallbacks.
   */
  function FirstPresent<T>(candidates: seq<Option<T>>): (r: Option<T>)
    ensures r.None? <==> forall i :: 0 <= i < |candidates| ==> candidates[i].None?
    ensures r.Some? ==>
      exists i :: 0 <= i < |candidates| && candidates[i] == r && forall k :: 0 <= k < i ==> candidates[k].None?
  {
    if candidates == [] then None
    else if candidates[0].Some? then candidates[0]
    else
      var r := FirstPresent(candidates[1..]);
      assert r.Some? ==>
        exists i :: 1 <= i < |candidates| && candidates[i] == r && forall k :: 0 <= k < i ==> candidates[k].None?;
      r
  }

  /** With two candidates, the first one wins whenever it is present. */
  lemma FirstPresentOfTwo<T>(preferred: Option<T>, fallback: Option<T>)
    ensures FirstPresent([preferred, fallback]) == if preferred.Some? then preferred else fallback
  {
    assert [preferred, fallback][1..] == [fallback];
  }

  /** A value present in the extended tweet: `tweet['extended_tweet'][...]`. */
  function ExtendedEntities(t: Tweet): Option<Entities> {
    if t.extendedTweet.Some? then t.extendedTweet.value.entities else None
  }

  /** The text of the tweet: `extended_tweet.full_text` when present, otherwise `text`. */
  function DisplayText(t: Tweet): (r: string)
    ensures t.extendedTweet.Some? && t.extendedTweet.value.fullText.Some? ==> r == t.extendedTweet.value.fullText.value
    ensures t.extendedTweet.None? || t.extendedTweet.value.fullText.None? ==> r == t.text
  {
    var extended := if t.extendedTweet.Some? then t.extendedTweet.value.fullText else None;
    FirstPresentOfTwo(extended, Some(t.text));
    FirstPresent([extended, Some(t.text)]).value
  }

  /** The country code: the place's `country_code` lower-cased, or None when there is no place. */
  function CountryCode(place: Option<Place>): (r: Option<string>)
    ensures r.Some? <==> place.Some?
    ensures r.Some? ==> SameIgnoringCase(r.value, place.value.countryCode) && NoUpper(r.value)
  {
    if place.None? then None else Some(Lower(place.value.countryCode))
  }

  /**
   * `full_name.split(',')[-1].strip().lower()`: the place's last comma-separated
   * segment, trimmed and lower-cased.
   */
  function StateCandidate(fullName: string): (r: string)
    ensures SameIgnoringCase(r, Strip(LastSegment(fullName, ',')))
    ensures ',' !in r && NoUpper(r)
    ensures r == [] || (!IsSpace(r[0]) && !IsSpace(r[|r| - 1]))
  {
    var last := LastSegment(fullName, ',');
    var segment := Strip(last);
    StripKeepsAbsent(last, ',');
    LowerKeepsOthers(segment);
    Lower(segment)
  }

  /**
   * The state code: only for places in the United States (country code "us"),
   * the state candidate of the place's full name when it has at most two
   * characters, otherwise None.
   */
  function StateCode(place: Option<Place>): (r: Option<string>)
    ensures r.Some? <==> CountryCode(place) == Some("us") && |StateCandidate(place.value.fullName)| <= 2
    ensures r.Some? ==> r.value == StateCandidate(place.value.fullName)
  {
    if CountryCode(place) == Some("us") then
      var candidate := StateCandidate(place.value.fullName);
      if |candidate| > 2 then None else Some(candidate)
    else None
  }

  /** The state candidate is determined: it is the lower-cased, stripped last segment of the full name. */
  lemma StateCandidateIsLowerSegment(fullName: string)
    ensures StateCandidate(fullName) == Lower(Strip(LastSegment(fullName, ',')))
  {
    LowerUnique(Strip(LastSegment(fullName, ',')), StateCandidate(fullName));
  }

  /** The state code of a US place, given the last segment of its full name. */
  lemma StateCodeOf(place: Place, segment: string)
    requires Lower(place.countryCode) == "us" && LastSegment(place.fullName, ',') == segment
    ensures var candidate := Lower(Strip(segment));
      StateCode(Some(place)) == if |candidate| <= 2 then Some(candidate) else None
  {
    StateCandidateIsLowerSegment(place.fullName);
  }

  /** The last comma-separated segment of "Austin, TX". */
  lemma AustinSegment(name: string, segment: string)
    requires name == "Austin, TX" && segment == " TX"
    ensures LastSegment(name, ',') == segment
  {
    assert name[6] == ',' && name[7..] == segment;
    LastSegmentAfter(name, ',', 6);
  }

  /** " TX" strips to "TX", which lower-cases to "tx". */
  lemma AustinCandidate(segment: string)
    requires segment == " TX"
    ensures Lower(Strip(segment)) == "tx"
  {
    StripExact(segment, 1, 3);
    assert segment[1..3] == "TX";
    assert Lower("TX") == "tx";
  }

  /** "US" lower-cases to "us". */
  lemma LowerUS(code: string)
    requires code == "US"
    ensures Lower(code) == "us"
  {
  }

  /** A US place named "Austin, TX" has the state code "tx". */
  lemma StateCodeAustin(austin: Place)
    requires austin.countryCode == "US" && austin.fullName == "Austin, TX"
    ensures StateCode(Some(austin)) == Some("tx")
  {
    LowerUS(austin.countryCode);
    AustinSegment(austin.fullName, " TX");
    AustinCandidate(" TX");
    StateCodeOf(austin, " TX");
  }

  /** The last comma-separated segment of "Some City, Some Longer Region". */
  lemma LongRegionSegment(name: string, segment: string)
    requires name == "Some City, Some Longer Region" && segment == " Some Longer Region"
    ensures LastSegment(name, ',') == segment
  {
    assert name == "Some City," + segment;
    assert name[9] == ',' && name[10..] == segment;
    assert ',' !in segment;
    LastSegmentAfter(name, ',', 9);
  }

  /** " Some Longer Region" keeps more than two characters once stripped and lower-cased. */
  lemma LongRegionCandidate(segment: string)
    requires segment == " Some Longer Region"
    ensures |Lower(Strip(segment))| > 2
  {
    assert segment[1] == 'S' && segment[18] == 'n';
    StripKeepsInner(segment, 1, 19);
  }

  /** A US place named "Some City, Some Longer Region" has no state code: its last segment is too long. */
  lemma StateCodeLongRegion(region: Place)
    requires region.countryCode == "US" && region.fullName == "Some City, Some Longer Region"
    ensures StateCode(Some(region)) == None
  {
    LowerUS(region.countryCode);
    LongRegionSegment(region.fullName, " Some Longer Region");
    LongRegionCandidate(" Some Longer Region");
    StateCodeOf(region, " Some Longer Region");
  }

  /** The place name column: the place's `full_name`, or None when there is no place. */
  function PlaceName(place: Option<Place>): (r: Option<string>)
    ensures r.Some? <==> place.Some?
    ensures r.Some? ==> r.value == place.value.fullName
  {
    if place.None? then None else Some(place.value.fullName)
  }

  /** Each text with `prefix` in front of it. */
  function Prefixed(prefix: char, texts: seq<string>): (r: seq<string>)
    ensures |r| == |texts|
    ensures forall i :: 0 <= i < |texts| ==> r[i] == [prefix] + texts[i]
  {
    seq(|texts|, i requires 0 <= i < |texts| => [prefix] + texts[i])
  }

  /** The tag list: every hashtag prefixed with `#`, then every cashtag prefixed with `$`. */
  function TagList(hashtags: seq<string>, cashtags: seq<string>): (r: seq<string>)
    ensures |r| == |hashtags| + |cashtags|
    ensures forall i :: 0 <= i < |hashtags| ==> r[i] == "#" + hashtags[i]
    ensures forall k :: 0 <= k < |cashtags| ==> r[|hashtags| + k] == "$" + cashtags[k]
  {
    Prefixed('#', hashtags) + Prefixed('$', cashtags)
  }

  /** The texts of the tags that start with `prefix`, with the prefix removed. */
  function Unprefixed(prefix: char, tags: seq<string>): seq<string> {
    if tags == [] then []
    else
      var rest := Unprefixed(prefix, tags[1..]);
      if tags[0] != [] && tags[0][0] == prefix then [tags[0][1..]] + rest else rest
  }

  lemma {:induction false} UnprefixedAppend(prefix: char, a: seq<string>, b: seq<string>)
    ensures Unprefixed(prefix, a + b) == Unprefixed(prefix, a) + Unprefixed(prefix, b)
  {
    if a == [] {
      assert a + b == b;
    } else {
      assert (a + b)[0] == a[0];
      assert (a + b)[1..] == a[1..] + b;
      UnprefixedAppend(prefix, a[1..], b);
    }
  }

  lemma {:induction false} UnprefixedPrefixed(p: char, q: char, texts: seq<string>)
    ensures Unprefixed(p, Prefixed(q, texts)) == if p == q then texts else []
  {
    if texts != [] {
      assert Prefixed(q, texts)[1..] == Prefixed(q, texts[1..]);
      assert ([q] + texts[0])[1..] == texts[0];
      UnprefixedPrefixed(p, q, texts[1..]);
    }
  }

  /**
   * The tag list loses nothing: the hashtags are the `#` tags and the
   * cashtags the `$` tags, each in its original order, prefix removed.
   */
  lemma TagListInverse(hashtags: seq<string>, cashtags: seq<string>)
    ensures Unprefixed('#', TagList(hashtags, cashtags)) == hashtags
    ensures Unprefixed('$', TagList(hashtags, cashtags)) == cashtags
  {
    UnprefixedAppend('#', Prefixed('#', hashtags), Prefixed('$', cashtags));
    UnprefixedAppend('$', Prefixed('#', hashtags), Prefixed('$', cashtags));
    UnprefixedPrefixed('#', '#', hashtags);
    UnprefixedPrefixed('#', '$', cashtags);
    UnprefixedPrefixed('$', '#', hashtags);
    UnprefixedPrefixed('$', '$', cashtags);
  }

  /** The URL entities: extended ones when the extended tweet lists them, otherwise the base ones. */
  function Urls(t: Tweet): (r: Option<seq<UrlEntity>>)
    ensures ExtendedEntities(t).Some? && ExtendedEntities(t).value.urls.Some? ==> r == ExtendedEntities(t).value.urls
    ensures ExtendedEntities(t).None? || ExtendedEntities(t).value.urls.None? ==> r == t.entities.urls
  {
    var extended := if ExtendedEntities(t).Some? then ExtendedEntities(t).value.urls else None;
    FirstPresentOfTwo(extended, t.entities.urls);
    FirstPresent([extended, t.entities.urls])
  }

  /** The mention entities, with the same precedence as the URL entities. */
  function Mentions(t: Tweet): (r: Option<seq<Mention>>)
    ensures ExtendedEntities(t).Some? && ExtendedEntities(t).value.userMentions.Some? ==> r == ExtendedEntities(t).value.userMentions
    ensures ExtendedEntities(t).None? || ExtendedEntities(t).value.userMentions.None? ==> r == t.entities.userMentions
  {
    var extended := if ExtendedEntities(t).Some? then ExtendedEntities(t).value.userMentions else None;
    FirstPresentOfTwo(extended, t.entities.userMentions);
    FirstPresent([extended, t.entities.userMentions])
  }

  /** Hashtags and symbols of one entities object, when it has both lists. */
  function TagSources(e: Entities): Option<(seq<string>, seq<string>)> {
    if e.hashtags.Some? && e.symbols.Some? then Some((e.hashtags.value, e.symbols.value)) else None
  }

  /**
   * The tags of the tweet: from the extended entities when they have both
   * hashtags and symbols, otherwise from the base entities (None when those
   * lack either list).
   */
  function Tags(t: Tweet): (r: Option<seq<string>>)
    ensures ExtendedEntities(t).Some? && TagSources(ExtendedEntities(t).value).Some? ==>
      var (h, c) := TagSources(ExtendedEntities(t).value).value; r == Some(TagList(h, c))
    ensures (ExtendedEntities(t).None? || TagSources(ExtendedEntities(t).value).None?) ==>
      (r.Some? <==> TagSources(t.entities).Some?)
    ensures (ExtendedEntities(t).None? || TagSources(ExtendedEntities(t).value).None?) && r.Some? ==>
      r.value == TagList(t.entities.hashtags.value, t.entities.symbols.value)
  {
    var extended := if ExtendedEntities(t).Some? then TagSources(ExtendedEntities(t).value) else None;
    FirstPresentOfTwo(extended, TagSources(t.entities));
    var sources := FirstPresent([extended, TagSources(t.entities)]);
    if sources.None? then None else Some(TagList(sources.value.0, sources.value.1))
  }

  /** The media of the extended tweet. */
  function ExtendedMedia(t: Tweet): Option<seq<Medium>> {
    if t.extendedTweet.Some? then t.extendedTweet.value.media else None
  }

  /** The media: the extended tweet's, otherwise the tweet's own, otherwise none. */
  function MediaList(t: Tweet): (r: seq<Medium>)
    ensures ExtendedMedia(t).Some? ==> r == ExtendedMedia(t).value
    ensures ExtendedMedia(t).None? && t.media.Some? ==> r == t.media.value
    ensures ExtendedMedia(t).None? && t.media.None? ==> r == []
  {
    FirstPresentOfTwo(ExtendedMedia(t), t.media);
    FirstPresent([ExtendedMedia(t), t.media]).GetOr([])
  }

  /** Why deriving a tweet's geometry raised. */
  datatype GeoError =
    | PlaceIsNull    // `tweet['place']['bounding_box']` on a null place: TypeError
    | GeoStrUnbound  // no bounding box and `geo_enabled` false: `geo_str` is never assigned
    | EmptyRing      // a ring without points: `poly[0]` raises IndexError

  /**
   * The geometry exactly as the source computes it: a POINT from `geo`,
   * otherwise a MULTIPOLYGON from the place's bounding box; a missing
   * bounding box gives a null geometry only when the author has
   * `geo_enabled`; a null place raises.
   */
  function TweetGeometryAsWritten(t: Tweet): (r: Result<Option<Wkt>, GeoError>)
    ensures t.geo.Some? ==> r == Success(Some(PointGeometry(t.geo.value)))
    ensures r == Failure(PlaceIsNull) <==> t.geo.None? && t.place.None?
    ensures r == Failure(GeoStrUnbound) <==>
      t.geo.None? && t.place.Some? && t.place.value.boundingBox.None? && !t.user.geoEnabled
    ensures r == Success(None) <==>
      t.geo.None? && t.place.Some? && t.place.value.boundingBox.None? && t.user.geoEnabled
    ensures t.geo.None? && t.place.Some? && t.place.value.boundingBox.Some? ==>
      var body := PolygonBody(t.place.value.boundingBox.value);
      (body.None? ==> r == Failure(EmptyRing)) &&
      (body.Some? ==> r == Success(Some(Wkt("MULTIPOLYGON", body.value))))
  {
    if t.geo.Some? then Success(Some(PointGeometry(t.geo.value)))
    else if t.place.None? then Failure(PlaceIsNull)
    else if t.place.value.boundingBox.None? then
      if t.user.geoEnabled then Success(None) else Failure(GeoStrUnbound)
    else match PolygonBody(t.place.value.boundingBox.value)
      case Some(body) => Success(Some(Wkt("MULTIPOLYGON", body)))
      case None => Failure(EmptyRing)
  }

  /**
   * The geometry with the intended fallback chain: a POINT from `geo`,
   * otherwise a MULTIPOLYGON from the place's bounding box, otherwise null.
   * Only a malformed bounding box (a ring without points) is an error.
   */
  function TweetGeometry(t: Tweet): (r: Result<Option<Wkt>, GeoError>)
    ensures t.geo.Some? ==> r == Success(Some(PointGeometry(t.geo.value)))
    ensures t.geo.None? && (t.place.None? || t.place.value.boundingBox.None?) ==> r == Success(None)
    ensures r.Failure? <==>
      t.geo.None? && t.place.Some? && t.place.value.boundingBox.Some? && !AllNonEmpty(t.place.value.boundingBox.value)
    ensures r.Success? && r.value.Some? && t.geo.None? ==>
      r.value.value.kind == "MULTIPOLYGON" && Some(r.value.value.body) == PolygonBody(t.place.value.boundingBox.value)
  {
    if t.geo.Some? then Success(Some(PointGeometry(t.geo.value)))
    else if t.place.None? || t.place.value.boundingBox.None? then Success(None)
    else match PolygonBody(t.place.value.boundingBox.value)
      case Some(body) => Success(Some(Wkt("MULTIPOLYGON", body)))
      case None => Failure(EmptyRing)
  }

  /**
   * Wherever the source's geometry succeeds, the intended one gives the same
   * value, and the two differ on exactly the two shapes the source fails on
   * by mistake: no geo and no place, or no geo, no bounding box and
   * `geo_enabled` false.
   */
  lemma GeometryExtendsAsWritten(t: Tweet)
    ensures TweetGeometryAsWritten(t).Success? ==> TweetGeometry(t) == TweetGeometryAsWritten(t)
    ensures TweetGeometryAsWritten(t).Failure? ==>
      (TweetGeometry(t).Failure? <==> TweetGeometryAsWritten(t).error == EmptyRing)
    ensures TweetGeometryAsWritten(t) != TweetGeometry(t) <==>
      t.geo.None? && (t.place.None? || (t.place.value.boundingBox.None? && !t.user.geoEnabled))
  {
  }

  /** A tweet with neither coordinates nor a place fails in the source, but has a null geometry as intended. */
  lemma NullPlaceFailsAsWritten(t: Tweet)
    requires t.geo.None? && t.place.None?
    ensures TweetGeometryAsWritten(t) == Failure(PlaceIsNull)
    ensures TweetGeometry(t) == Success(None)
  {
  }

  /** A place without a bounding box fails in the source when the author is not geo-enabled. */
  lemma GeoDisabledFailsAsWritten(t: Tweet)
    requires t.geo.None? && t.place.Some? && t.place.value.boundingBox.None? && !t.user.geoEnabled
    ensures TweetGeometryAsWritten(t) == Failure(GeoStrUnbound)
    ensures TweetGeometry(t) == Success(None)
  {
  }

  /** The geometry, computed with the source's nested loops for the bounding box. */
  method DeriveGeometry(t: Tweet) returns (r: Result<Option<Wkt>, GeoError>)
    ensures r == TweetGeometry(t)
  {
    if t.geo.Some? {
      return Success(Some(PointGeometry(t.geo.value)));
    }
    if t.place.None? || t.place.value.boundingBox.None? {
      return Success(None);
    }
    var body := BuildPolygonBody(t.place.value.boundingBox.value);
    if body.None? {
      return Failure(EmptyRing);
    }
    return Success(Some(Wkt("MULTIPOLYGON", body.value)));
  }
}
