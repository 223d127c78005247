/**
 * The geometry text the loader hands to PostGIS: a well-known-text literal
 * (OGC Simple Feature Access, Part 1, section 7), `kind(body)`, where the body
 * is either one point or a parenthesised list of closed rings.
 * Coordinates arrive already rendered as text (`str(point[0])`); their
 * rendering is not part of this model.
 */
module Geometry {

  import opened Wrappers

  /** A coordinate pair as rendered text, in the order the record gives it. */
  datatype Point = Point(x: string, y: string)

  /** A well-known-text geometry: `kind` is `POINT` or `MULTIPOLYGON`, `body` the coordinates. */
  datatype Wkt = Wkt(kind: string, body: string) {

    /** The value of the SQL expression `geo_str || '(' || geo_coords || ')'`. */
    function Text(): string {
      kind + "(" + body + ")"
    }
  }

  /** `str(p[0]) + ' ' + str(p[1])`. */
  function PointText(p: Point): string {
    p.x + " " + p.y
  }

  /** The geometry of a tweet that carries exact coordinates. */
  function PointGeometry(p: Point): (w: Wkt)
    ensures w.Text() == "POINT(" + p.x + " " + p.y + ")"
  {
    Wkt("POINT", PointText(p))
  }

  /** What the inner loop appends for a ring: every point, each followed by a comma. */
  function PointsWithCommas(ps: seq<Point>): string {
    if ps == [] then "" else PointsWithCommas(ps[..|ps| - 1]) + PointText(ps[|ps| - 1]) + ","
  }

  /** One ring as the source writes it: its points, then its first point again, in parentheses. */
  function RingText(ring: seq<Point>): string
    requires ring != []
  {
    "(" + PointsWithCommas(ring) + PointText(ring[0]) + ")"
  }

  /** Every ring has a first point, so that the ring can be closed. */
  predicate AllNonEmpty(rings: seq<seq<Point>>) {
    forall i :: 0 <= i < |rings| ==> rings[i] != []
  }

  /** The rings' texts, separated by commas, as the outer loop appends them. */
  function RingsText(rings: seq<seq<Point>>): string
    requires AllNonEmpty(rings)
  {
    if rings == [] then ""
    else if |rings| == 1 then RingText(rings[0])
    else RingsText(rings[..|rings| - 1]) + "," + RingText(rings[|rings| - 1])
  }

  /**
   * The MULTIPOLYGON body built from a bounding box's coordinate rings, or
   * None when a ring has no point (`poly[0]` raises IndexError).
   */
  function PolygonBody(rings: seq<seq<Point>>): (r: Option<string>)
    ensures r.Some? <==> AllNonEmpty(rings)
    ensures r.Some? ==> |r.value| >= 2 && r.value[0] == '(' && r.value[|r.value| - 1] == ')'
  {
    if AllNonEmpty(rings) then Some("(" + RingsText(rings) + ")") else None
  }

  /** Appending one ring to the rings' text, as one iteration of the outer loop does. */
  lemma RingsTextSnoc(rings: seq<seq<Point>>, i: nat)
    requires i < |rings| && AllNonEmpty(rings[..i + 1])
    ensures AllNonEmpty(rings[..i])
    ensures RingsText(rings[..i + 1])
      == (if i == 0 then "" else RingsText(rings[..i]) + ",") + RingText(rings[i])
  {
    assert rings[..i + 1][..i] == rings[..i];
    assert rings[..i + 1][i] == rings[i];
  }

  /** Appending one point to a ring's text, as one iteration of the inner loop does. */
  lemma PointsWithCommasSnoc(ps: seq<Point>, j: nat)
    requires j < |ps|
    ensures PointsWithCommas(ps[..j + 1]) == PointsWithCommas(ps[..j]) + PointText(ps[j]) + ","
  {
    assert ps[..j + 1][..j] == ps[..j];
  }

  /** Regrouping the pieces of one ring's text. */
  lemma ConcatRing(head: string, points: string, first: string)
    ensures head + "(" + points + first + ")" == head + ("(" + points + first + ")")
  {
  }

  /**
   * The source's nested loops (an accumulator string that starts as `(`,
   * grows ring by ring and point by point, and is closed with `)`).
   */
  method BuildPolygonBody(rings: seq<seq<Point>>) returns (body: Option<string>)
    ensures body == PolygonBody(rings)
  {
    var acc := "(";
    for i := 0 to |rings|
      invariant AllNonEmpty(rings[..i])
      invariant acc == "(" + RingsText(rings[..i])
    {
      if i > 0 {
        acc := acc + ",";
      }
      ghost var head := acc;
      acc := acc + "(";
      var poly := rings[i];
      for j := 0 to |poly|
        invariant acc == head + "(" + PointsWithCommas(poly[..j])
      {
        PointsWithCommasSnoc(poly, j);
        acc := acc + PointText(poly[j]) + ",";
      }
      if poly == [] {
        assert !AllNonEmpty(rings);
        return None;
      }
      assert poly[..|poly|] == poly;
      acc := acc + PointText(poly[0]) + ")";
      ConcatRing(head, PointsWithCommas(poly), PointText(poly[0]));
      assert acc == head + RingText(poly);
      assert AllNonEmpty(rings[..i + 1]);
      RingsTextSnoc(rings, i);
    }
    assert rings[..|rings|] == rings;
    body := Some(acc + ")");
  }

  /** `','.join(parts)`. */
  function Join(parts: seq<string>): string {
    if parts == [] then ""
    else if |parts| == 1 then parts[0]
    else parts[0] + "," + Join(parts[1..])
  }

  /** The rendered text of each point. */
  function PointTexts(ps: seq<Point>): (r: seq<string>)
    ensures |r| == |ps| && forall i :: 0 <= i < |ps| ==> r[i] == PointText(ps[i])
  {
    seq(|ps|, i requires 0 <= i < |ps| => PointText(ps[i]))
  }

  /** Joining one more part appends a comma and that part. */
  lemma {:induction false} JoinSnoc(parts: seq<string>, last: string)
    requires parts != []
    ensures Join(parts + [last]) == Join(parts) + "," + last
  {
    if |parts| == 1 {
      assert (parts + [last])[1..] == [last];
    } else {
      assert (parts + [last])[1..] == parts[1..] + [last];
      JoinSnoc(parts[1..], last);
    }
  }

  /** The points-with-commas text followed by one more point is the comma-separated list of all of them. */
  lemma {:induction false} PointsWithCommasJoin(ps: seq<Point>, q: Point)
    ensures PointsWithCommas(ps) + PointText(q) == Join(PointTexts(ps + [q]))
  {
    if ps == [] {
      assert PointTexts(ps + [q]) == [PointText(q)];
    } else {
      var init, last := ps[..|ps| - 1], ps[|ps| - 1];
      assert init + [last] == ps;
      PointsWithCommasJoin(init, last);
      JoinSnoc(PointTexts(ps), PointText(q));
      assert PointTexts(ps) + [PointText(q)] == PointTexts(ps + [q]);
    }
  }

  /**
   * Every ring is closed: its text is the comma-separated list of its points
   * followed by its first point once more, in parentheses.
   */
  lemma RingIsClosed(ring: seq<Point>)
    requires ring != []
    ensures RingText(ring) == "(" + Join(PointTexts(ring + [ring[0]])) + ")"
  {
    PointsWithCommasJoin(ring, ring[0]);
  }

  /** The ring texts of a bounding box. */
  function RingTexts(rings: seq<seq<Point>>): (r: seq<string>)
    requires AllNonEmpty(rings)
    ensures |r| == |rings| && forall i :: 0 <= i < |rings| ==> r[i] == RingText(rings[i])
  {
    seq(|rings|, i requires 0 <= i < |rings| => RingText(rings[i]))
  }

  /** The ring texts of one more ring: one more text at the end. */
  lemma RingTextsSnoc(rings: seq<seq<Point>>)
    requires rings != [] && AllNonEmpty(rings)
    ensures AllNonEmpty(rings[..|rings| - 1])
    ensures RingTexts(rings) == RingTexts(rings[..|rings| - 1]) + [RingText(rings[|rings| - 1])]
  {
    var init := rings[..|rings| - 1];
    assert AllNonEmpty(init);
    forall i | 0 <= i < |rings|
      ensures RingTexts(rings)[i] == (RingTexts(init) + [RingText(rings[|rings| - 1])])[i]
    {
      if i < |init| {
        assert init[i] == rings[i];
      }
    }
  }

  /** The rings' text is the comma-separated list of the ring texts. */
  lemma {:induction false} RingsTextJoin(rings: seq<seq<Point>>)
    requires AllNonEmpty(rings)
    ensures RingsText(rings) == Join(RingTexts(rings))
  {
    if |rings| == 1 {
      assert RingTexts(rings) == [RingText(rings[0])];
    } else if |rings| > 1 {
      var init := rings[..|rings| - 1];
      RingTextsSnoc(rings);
      RingsTextJoin(init);
      JoinSnoc(RingTexts(init), RingText(rings[|rings| - 1]));
    }
  }

  /**
   * The MULTIPOLYGON body is `(` + the rings joined by commas + `)`, and every
   * ring in it is closed by repeating its first point.
   */
  lemma PolygonBodyShape(rings: seq<seq<Point>>)
    ensures PolygonBody(rings).Some? <==> AllNonEmpty(rings)
    ensures AllNonEmpty(rings) ==> PolygonBody(rings) == Some("(" + Join(RingTexts(rings)) + ")")
    ensures forall i :: 0 <= i < |rings| && rings[i] != [] ==>
      RingText(rings[i]) == "(" + Join(PointTexts(rings[i] + [rings[i][0]])) + ")"
  {
    if AllNonEmpty(rings) {
      RingsTextJoin(rings);
    }
    forall i | 0 <= i < |rings| && rings[i] != []
      ensures RingText(rings[i]) == "(" + Join(PointTexts(rings[i] + [rings[i][0]])) + ")"
    {
      RingIsClosed(rings[i]);
    }
  }
}
