/**
 * The field type of geocode elements. Stored coordinates are "latitude,longitude"
 * pairs; the index takes GeoJSON, whose positions are longitude first
 * (section 3.1.1 of RFC 7946), so every pair is swapped on the way in.
 */
module Geocode {
  import opened Wrappers
  import opened PhpStrings
  import opened Values
  import opened FieldType

  /** `(float) $tmp[i]`, 0 when the piece is missing. */
  function Coordinate(p: Parsers, parts: seq<string>, i: nat): real {
    if i < |parts| then p.textToFloat(parts[i]) else 0.0
  }

  /** A stored "latitude,longitude" text as a GeoJSON position: longitude, then latitude. */
  function SwappedPair(p: Parsers, point: string): (real, real) {
    var tmp := Explode(point, ",");
    (Coordinate(p, tmp, 1), Coordinate(p, tmp, 0))
  }

  function PositionValue(pos: (real, real)): Value {
    Arr([Num(pos.0), Num(pos.1)])
  }

  /** The position of "lat,lon" is (lon, lat). */
  lemma SwappedPairOfLatLon(p: Parsers, lat: string, lon: string)
    requires ',' !in lat && ',' !in lon
    ensures SwappedPair(p, lat + "," + lon) == (p.textToFloat(lon), p.textToFloat(lat))
  {
    ExplodeAround(lat, ",", lon);
    ExplodeWithout(lon, ",");
  }

  // ---------------------------------------------------------------------
  // Splitting the stored points

  predicate IsPointSeparator(c: char) {
    c == ':' || c == ';'
  }

  /** The split as the code writes it: the pattern `[\:\;]` has `[` and `]` as its delimiters, so it matches `:;` only. */
  function SplitPointsAsWritten(text: string): seq<string> {
    Explode(text, ":;")
  }

  /** The split the code means: features end at `:` and points at `;`, so both separate points. */
  function SplitPoints(text: string): (parts: seq<string>)
    ensures |parts| >= 1
    decreases |text|
  {
    if text == [] then [""]
    else if IsPointSeparator(text[0]) then [""] + SplitPoints(text[1..])
    else
      var rest := SplitPoints(text[1..]);
      [[text[0]] + rest[0]] + rest[1..]
  }

  function SeparatorCount(text: string): nat {
    if text == [] then 0
    else (if IsPointSeparator(text[0]) then 1 else 0) + SeparatorCount(text[1..])
  }

  /** The corrected split yields one piece more than there are separators, and no piece holds a separator. */
  lemma {:induction false} SplitPointsPieces(text: string)
    ensures |SplitPoints(text)| == SeparatorCount(text) + 1
    ensures forall piece :: piece in SplitPoints(text) ==> ':' !in piece && ';' !in piece
    decreases |text|
  {
    if text != [] {
      SplitPointsPieces(text[1..]);
      var rest := SplitPoints(text[1..]);
      if !IsPointSeparator(text[0]) {
        assert forall piece :: piece in rest[1..] ==> piece in rest;
        assert rest[0] in rest;
      }
    }
  }

  /** A text without separators is one point for both splits. */
  lemma {:induction false} SplitPointsSingle(text: string)
    requires forall i :: 0 <= i < |text| ==> !IsPointSeparator(text[i])
    ensures SplitPoints(text) == [text]
    ensures SplitPointsAsWritten(text) == [text]
    decreases |text|
  {
    if text != [] {
      SplitPointsSingle(text[1..]);
      assert [text[0]] + text[1..] == text;
    }
    ExplodeWithout(text, ":;");
  }

  /** A separator after a separator-free piece ends that piece. */
  lemma {:induction false} SplitPointsAround(a: string, c: char, b: string)
    requires forall i :: 0 <= i < |a| ==> !IsPointSeparator(a[i])
    requires IsPointSeparator(c)
    ensures SplitPoints(a + [c] + b) == [a] + SplitPoints(b)
    decreases |a|
  {
    var t := a + [c] + b;
    if a == [] {
      assert t[1..] == b;
    } else {
      assert t[1..] == a[1..] + [c] + b;
      SplitPointsAround(a[1..], c, b);
      assert [a[0]] + a[1..] == a;
    }
  }

  /** Two points separated by `;` come out as one point of the split as written, and as two of the corrected one. */
  lemma SplitPointsAsWrittenMissesPolygon()
    ensures var text := "10,20" + ";" + "30,40";
            SplitPointsAsWritten(text) == [text] && SplitPoints(text) == ["10,20", "30,40"]
  {
    var a, b := "10,20", "30,40";
    var text := a + ";" + b;
    assert ':' !in text;
    ExplodeWithout(text, ":;");
    SplitPointsAround(a, ';', b);
    SplitPointsSingle(b);
  }

  // ---------------------------------------------------------------------
  // getIndexingFragment

  /** The polygon of the pieces: every piece swapped, in the order of the pieces. */
  function PolygonPositions(p: Parsers, points: seq<string>): (r: seq<Value>)
    ensures |r| == |points|
  {
    seq(|points|, i requires 0 <= i < |points| => PositionValue(SwappedPair(p, points[i])))
  }

  function PointValue(pos: (real, real)): Value {
    Obj([("type", Str("point")), ("coordinates", PositionValue(pos))])
  }

  function PolygonValue(positions: seq<Value>): Value {
    Obj([("type", Str("polygon")), ("coordinates", Arr(positions))])
  }

  /**
   * The members of the element's fragment for non-empty content whose stored
   * points split into `points`: the raw content under the default suffix, then
   * a `gp` point for one piece or a `-gs` polygon for several.
   */
  function MembersOfPoints(p: Parsers, defaultSuffix: string, c: Value, points: seq<string>): seq<(string, Value)>
    requires |points| >= 1
  {
    var members := [(DataTypeSuffix(None, defaultSuffix), c)];
    if |points| == 1 then ObjPut(members, SuffixGeoPoint, PointValue(SwappedPair(p, points[0])))
    else ObjPut(members, DataTypeSuffix(Some(SuffixGeoShape), defaultSuffix), PolygonValue(PolygonPositions(p, points)))
  }

  /** The fragment members as the code builds them, with the split as written. */
  function FragmentMembers(p: Parsers, defaultSuffix: string, c: Value): seq<(string, Value)> {
    var text := p.geocodePoints(ToText(p, c));
    if !PhpStrings.Truthy(text) then [(DataTypeSuffix(None, defaultSuffix), c)]
    else MembersOfPoints(p, defaultSuffix, c, SplitPointsAsWritten(text))
  }

  /** `getIndexingFragment($content, $options)` of the element with key `key`, as the code computes it. */
  function IndexingFragment(p: Parsers, key: string, defaultSuffix: string, content: Value, options: Options): Fragment {
    var c := SerializeIfArray(p, content);
    if c == Str("") then p.genericFragment(key, defaultSuffix, c, options)
    else map[key := Obj(FragmentMembers(p, defaultSuffix, c))]
  }

  /** The fragment members with the corrected split, at every `:` and `;`. */
  function FragmentMembersCorrected(p: Parsers, defaultSuffix: string, c: Value): seq<(string, Value)> {
    var text := p.geocodePoints(ToText(p, c));
    if !PhpStrings.Truthy(text) then [(DataTypeSuffix(None, defaultSuffix), c)]
    else MembersOfPoints(p, defaultSuffix, c, SplitPoints(text))
  }

  /** `getIndexingFragment` with the corrected split. */
  function IndexingFragmentCorrected(p: Parsers, key: string, defaultSuffix: string, content: Value, options: Options): Fragment {
    var c := SerializeIfArray(p, content);
    if c == Str("") then p.genericFragment(key, defaultSuffix, c, options)
    else map[key := Obj(FragmentMembersCorrected(p, defaultSuffix, c))]
  }

  /** The positions of a polygon, built one point at a time. */
  method PolygonCoordinates(p: Parsers, points: seq<string>) returns (coordinates: seq<Value>)
    ensures |coordinates| == |points|
    ensures forall i :: 0 <= i < |points| ==>
              coordinates[i] == Arr([Num(Coordinate(p, Explode(points[i], ","), 1)),
                                     Num(Coordinate(p, Explode(points[i], ","), 0))])
    ensures coordinates == PolygonPositions(p, points)
  {
    coordinates := [];
    var i := 0;
    while i < |points|
      invariant 0 <= i <= |points|
      invariant coordinates == PolygonPositions(p, points[..i])
    {
      var tmp := Explode(points[i], ",");
      coordinates := coordinates + [Arr([Num(Coordinate(p, tmp, 1)), Num(Coordinate(p, tmp, 0))])];
      assert points[..i + 1] == points[..i] + [points[i]];
      i := i + 1;
    }
    assert points[..i] == points;
  }

  /** `getIndexingFragment`, building the fragment step by step as the code does. */
  method GetIndexingFragment(p: Parsers, key: string, defaultSuffix: string, content: Value, options: Options)
    returns (r: Fragment)
    ensures r == IndexingFragment(p, key, defaultSuffix, content, options)
  {
    var c := SerializeIfArray(p, content);
    if c == Str("") {
      return p.genericFragment(key, defaultSuffix, c, options);
    }
    var members := [(DataTypeSuffix(None, defaultSuffix), c)];
    var text := p.geocodePoints(ToText(p, c));
    if PhpStrings.Truthy(text) {
      var points := SplitPointsAsWritten(text);
      if |points| == 1 {
        var tmp := Explode(points[0], ",");
        members := ObjPut(members, SuffixGeoPoint, PointValue((Coordinate(p, tmp, 1), Coordinate(p, tmp, 0))));
      } else {
        var coordinates := PolygonCoordinates(p, points);
        members := ObjPut(members, DataTypeSuffix(Some(SuffixGeoShape), defaultSuffix), PolygonValue(coordinates));
      }
    }
    r := map[key := Obj(members)];
  }

  /**
   * Empty content is the generic element's; any other content keeps its raw
   * value first, under `key`, unless the default suffix is `gs` and a polygon
   * overwrites it.
   */
  lemma IndexingFragmentRaw(p: Parsers, key: string, defaultSuffix: string, content: Value, options: Options)
    ensures var r := IndexingFragment(p, key, defaultSuffix, content, options);
            var c := SerializeIfArray(p, content);
            (c == Str("") ==> r == p.genericFragment(key, defaultSuffix, c, options)) &&
            (c != Str("") ==> r.Keys == {key} && r[key].Obj? && |r[key].members| >= 1 &&
                              (defaultSuffix != SuffixGeoShape ==> r[key].members[0] == ("-" + defaultSuffix, c)))
  {
    var c := SerializeIfArray(p, content);
    if c != Str("") {
      var raw := DataTypeSuffix(None, defaultSuffix);
      assert raw != SuffixGeoPoint by { assert raw[0] == '-'; }
      if defaultSuffix != SuffixGeoShape {
        DataTypeSuffixKeys(defaultSuffix, SuffixGeoShape, defaultSuffix);
      }
    }
  }

  /** One stored point "lat,lon" becomes the `gp` point at (lon, lat). */
  lemma IndexingFragmentPoint(p: Parsers, key: string, defaultSuffix: string, content: Value, options: Options,
                              lat: string, lon: string)
    requires SerializeIfArray(p, content) != Str("")
    requires p.geocodePoints(ToText(p, SerializeIfArray(p, content))) == lat + "," + lon
    requires forall i :: 0 <= i < |lat| ==> lat[i] != ',' && !IsPointSeparator(lat[i])
    requires forall i :: 0 <= i < |lon| ==> lon[i] != ',' && !IsPointSeparator(lon[i])
    ensures var r := IndexingFragment(p, key, defaultSuffix, content, options);
            ("gp", PointValue((p.textToFloat(lon), p.textToFloat(lat)))) in r[key].members
  {
    var text := lat + "," + lon;
    assert forall i :: 0 <= i < |text| ==> !IsPointSeparator(text[i]) by {
      forall i | 0 <= i < |text| ensures !IsPointSeparator(text[i]) {
        if i < |lat| { assert text[i] == lat[i]; }
        else if i > |lat| { assert text[i] == lon[i - |lat| - 1]; }
      }
    }
    assert PhpStrings.Truthy(text) by { assert |text| >= 1 && text[|lat|] == ','; }
    SplitPointsSingle(text);
    SwappedPairOfLatLon(p, lat, lon);
  }

  /**
   * Points separated by `:;` become the `-gs` polygon: the piece `lat,lon` at
   * each place becomes the position (lon, lat) at that place.
   */
  lemma IndexingFragmentPolygon(p: Parsers, key: string, defaultSuffix: string, content: Value, options: Options)
    requires SerializeIfArray(p, content) != Str("")
    requires |SplitPointsAsWritten(p.geocodePoints(ToText(p, SerializeIfArray(p, content))))| > 1
    ensures var points := SplitPointsAsWritten(p.geocodePoints(ToText(p, SerializeIfArray(p, content))));
            var r := IndexingFragment(p, key, defaultSuffix, content, options);
            ("-gs", PolygonValue(PolygonPositions(p, points))) in r[key].members &&
            forall i, lat, lon :: 0 <= i < |points| && points[i] == lat + "," + lon && ',' !in lat && ',' !in lon ==>
              PolygonPositions(p, points)[i] == PositionValue((p.textToFloat(lon), p.textToFloat(lat)))
  {
    forall lat, lon | ',' !in lat && ',' !in lon {
      SwappedPairOfLatLon(p, lat, lon);
    }
    assert SplitPointsAsWritten("") == [""];
    SplitPointsSingle("0");
    assert DataTypeSuffix(Some(SuffixGeoShape), defaultSuffix) == "-gs";
  }

  /**
   * With the corrected split, points separated by `:` or `;` become the `-gs`
   * polygon, each `lat,lon` piece as the position (lon, lat) at its place.
   */
  lemma IndexingFragmentPolygonCorrected(p: Parsers, key: string, defaultSuffix: string, content: Value, options: Options)
    requires SerializeIfArray(p, content) != Str("")
    requires |SplitPoints(p.geocodePoints(ToText(p, SerializeIfArray(p, content))))| > 1
    ensures var points := SplitPoints(p.geocodePoints(ToText(p, SerializeIfArray(p, content))));
            var r := IndexingFragmentCorrected(p, key, defaultSuffix, content, options);
            ("-gs", PolygonValue(PolygonPositions(p, points))) in r[key].members &&
            forall i, lat, lon :: 0 <= i < |points| && points[i] == lat + "," + lon && ',' !in lat && ',' !in lon ==>
              PolygonPositions(p, points)[i] == PositionValue((p.textToFloat(lon), p.textToFloat(lat)))
  {
    forall lat, lon | ',' !in lat && ',' !in lon {
      SwappedPairOfLatLon(p, lat, lon);
    }
    assert SplitPoints("") == [""];
    SplitPointsSingle("0");
    assert DataTypeSuffix(Some(SuffixGeoShape), defaultSuffix) == "-gs";
  }

  /**
   * The stored points `10,20;30,40` stay one piece, so the code indexes the
   * `gp` point made of the first two comma-separated parts, `10` and `20;30`,
   * swapped.
   */
  lemma IndexingFragmentTwoPointsAsWritten(p: Parsers, key: string, defaultSuffix: string, content: Value, options: Options)
    requires SerializeIfArray(p, content) != Str("")
    requires p.geocodePoints(ToText(p, SerializeIfArray(p, content))) == "10,20;30,40"
    ensures ("gp", PointValue((p.textToFloat("20;30"), p.textToFloat("10")))) in IndexingFragment(p, key, defaultSuffix, content, options)[key].members
  {
    var c := SerializeIfArray(p, content);
    TwoPointsText();
    SwappedPairOfTwoPoints(p);
    assert FragmentMembers(p, defaultSuffix, c) == MembersOfPoints(p, defaultSuffix, c, ["10,20;30,40"]);
  }

  /** With the corrected split, `10,20;30,40` gives the polygon of its two positions. */
  lemma IndexingFragmentTwoPointsCorrected(p: Parsers, key: string, defaultSuffix: string, content: Value, options: Options)
    requires SerializeIfArray(p, content) != Str("")
    requires p.geocodePoints(ToText(p, SerializeIfArray(p, content))) == "10,20;30,40"
    ensures ("-gs", PolygonValue([PositionValue(SwappedPair(p, "10,20")), PositionValue(SwappedPair(p, "30,40"))]))
              in IndexingFragmentCorrected(p, key, defaultSuffix, content, options)[key].members
  {
    TwoPointsText();
    IndexingFragmentPolygonCorrected(p, key, defaultSuffix, content, options);
    TwoPointsPolygon(p);
  }

  lemma TwoPointsPolygon(p: Parsers)
    ensures PolygonPositions(p, ["10,20", "30,40"]) == [PositionValue(SwappedPair(p, "10,20")), PositionValue(SwappedPair(p, "30,40"))]
  {
  }

  /** How the two splits cut `10,20;30,40`. */
  lemma TwoPointsText()
    ensures PhpStrings.Truthy("10,20;30,40")
    ensures SplitPointsAsWritten("10,20;30,40") == ["10,20;30,40"]
    ensures SplitPoints("10,20;30,40") == ["10,20", "30,40"]
  {
    var text := "10,20;30,40";
    assert text == "10,20" + ";" + "30,40";
    assert text[0] == '1';
    SplitPointsAsWrittenMissesPolygon();
  }

  /** Read as one point, `10,20;30,40` has the comma-separated parts `10`, `20;30` and `40`. */
  lemma SwappedPairOfTwoPoints(p: Parsers)
    ensures SwappedPair(p, "10,20;30,40") == (p.textToFloat("20;30"), p.textToFloat("10"))
  {
    var parts := Explode("10,20;30,40", ",");
    TwoPointsParts();
    assert Coordinate(p, parts, 1) == p.textToFloat("20;30");
    assert Coordinate(p, parts, 0) == p.textToFloat("10");
  }

  lemma TwoPointsParts()
    ensures Explode("10,20;30,40", ",") == ["10", "20;30", "40"]
  {
    var tail := "20;30" + "," + "40";
    assert "10,20;30,40" == "10" + "," + tail;
    ExplodeAround("10", ",", tail);
    ExplodeAround("20;30", ",", "40");
    ExplodeWithout("40", ",");
  }

  // ---------------------------------------------------------------------
  // Queries

  /** `getRewrittenTerm($term)`: only the reserved literals have a query-string form; every other term is null. */
  function RewrittenTerm(term: Term): (r: Option<Term>)
    ensures r == ReservedTerm(Term(term.text, StripMiddle(term.field)))
  {
    ReservedTerm(Term(term.text, StripMiddle(term.field)))
  }

  /** A three-part field loses its middle part, and a term that is not reserved is null. */
  lemma RewrittenTermFields(text: string, a: string, b: string, c: string)
    requires '\\' !in a && '\\' !in b && '\\' !in c
    ensures var r := RewrittenTerm(Term(text, a + "\\/" + b + "\\/" + c));
            (r.Some? <==> Lower(text) == "[blank]" || Lower(text) == "[set]") &&
            (r.Some? ==> r.value.text == a + "\\/" + c)
  {
    StripMiddleThreeParts(a, b, c);
  }

  function EnvelopeValue(lower: (real, real), upper: (real, real)): Value {
    Obj([("shape", Obj([("type", Str("envelope")),
                        ("coordinates", Arr([PositionValue(lower), PositionValue(upper)]))]))])
  }

  /** `getFilterForRangeQuery($lower, $upper)`: the envelope between two "lat,lon" corners, keyed by the field without backslashes. */
  function FilterForRangeQuery(p: Parsers, lower: Term, upper: Term): (r: Fragment)
    ensures forall k :: k in r ==> '\\' !in k
  {
    map[RemoveBackslashes(lower.field) := EnvelopeValue(SwappedPair(p, lower.text), SwappedPair(p, upper.text))]
  }

  /** The corners come out longitude first. */
  lemma FilterForRangeQueryCorners(p: Parsers, lowerLat: string, lowerLon: string, upperLat: string, upperLon: string, field: string, upperField: string)
    requires ',' !in lowerLat && ',' !in lowerLon && ',' !in upperLat && ',' !in upperLon
    ensures FilterForRangeQuery(p, Term(lowerLat + "," + lowerLon, field), Term(upperLat + "," + upperLon, upperField)) ==
            map[RemoveBackslashes(field) := EnvelopeValue((p.textToFloat(lowerLon), p.textToFloat(lowerLat)),
                                                         (p.textToFloat(upperLon), p.textToFloat(upperLat)))]
  {
    SwappedPairOfLatLon(p, lowerLat, lowerLon);
    SwappedPairOfLatLon(p, upperLat, upperLon);
  }

  /**
   * `getFilterForPhraseQuery($query)`: the texts of the rewritten terms joined
   * by spaces, searched as a place, keyed by the last term's field without
   * backslashes ("" without terms).
   */
  function FilterForPhraseQuery(p: Parsers, terms: seq<Term>): (r: Fragment)
    ensures |r| == 1 && forall k :: k in r ==> '\\' !in k
  {
    var rewritten := seq(|terms|, i requires 0 <= i < |terms| => p.rewriteTermFieldSpec(terms[i]));
    var texts := seq(|rewritten|, i requires 0 <= i < |rewritten| => rewritten[i].text);
    var box := p.parseGisSearch(Join(texts, " "));
    var field := if rewritten == [] then "" else rewritten[|rewritten| - 1].field;
    map[RemoveBackslashes(field) := EnvelopeValue((box.minLongitude, box.minLatitude), (box.maxLongitude, box.maxLatitude))]
  }
}
