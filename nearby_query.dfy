/**
 * The nearby-known-places query (`nearbyKnownPlaces` in
 * app/Http/Controllers/Api/FlareController.php): keep the known places strictly closer than
 * the radius to the query point, order them by that distance, and give each the number of
 * flares strictly closer than the radius to the place itself.
 */
module NearbyQuery {

  import opened Wrappers
  import opened Records

  /** Metres; used when the request names no radius. */
  const DefaultRadius: real := 200.0

  /** A known place paired with its distance from the query point. */
  datatype Candidate = Candidate(place: KnownPlace, distance: real)

  /** One entry of the response: the place's fields, its distance and its flare count. */
  datatype NearbyPlace = NearbyPlace(place: KnownPlace, distance: real, flareCount: nat)

  /**
   * The `radius` field of the request: left out, sent as null (or empty, which the framework's
   * default middleware turns into null; `nullable|numeric` accepts it), or sent as a number.
   */
  type RadiusParam = Field<real>

  /** The response: the ranked places, or a server error when the query cannot be built. */
  datatype Response = Places(entries: seq<NearbyPlace>) | ServerError

  /**
   * `$request->input('radius', 200)`: the default replaces only a missing field, so a field
   * sent empty stays null (None).
   */
  function EffectiveRadius(radius: RadiusParam): (r: Option<real>)
    ensures radius == Omitted ==> r == Some(DefaultRadius)
    ensures radius == Null ==> r == None
    ensures radius.Given? ==> r == Some(radius.value)
  {
    match radius
    case Omitted => Some(DefaultRadius)
    case Null => None
    case Given(m) => Some(m)
  }

  /** The SQL `distance` column: from the query point to the place. */
  function DistanceFrom(sqlDistance: DistanceFn, lat: real, lon: real, place: KnownPlace): real {
    sqlDistance(lat, lon, place.lat, place.lon)
  }

  /** The `having distance < radius` filter, in table order, each survivor with its distance. */
  function Candidates(places: seq<KnownPlace>, sqlDistance: DistanceFn, lat: real, lon: real, radius: real): (cs: seq<Candidate>)
    ensures |cs| <= |places|
  {
    if |places| == 0 then []
    else
      var d := DistanceFrom(sqlDistance, lat, lon, places[0]);
      var rest := Candidates(places[1..], sqlDistance, lat, lon, radius);
      if d < radius then [Candidate(places[0], d)] + rest else rest
  }

  /** The known places of a sequence of candidates, in order. */
  function PlacesOf(cs: seq<Candidate>): (ps: seq<KnownPlace>)
    ensures |ps| == |cs|
    ensures forall i :: 0 <= i < |cs| ==> ps[i] == cs[i].place
  {
    seq(|cs|, i requires 0 <= i < |cs| => cs[i].place)
  }

  /** The known places of a response, in order. */
  function ResultPlaces(rs: seq<NearbyPlace>): seq<KnownPlace> {
    seq(|rs|, i requires 0 <= i < |rs| => rs[i].place)
  }

  predicate SortedByDistance(cs: seq<Candidate>) {
    forall i, j :: 0 <= i < j < |cs| ==> cs[i].distance <= cs[j].distance
  }

  /** Puts `c` before the first candidate that is not nearer than it. */
  function InsertByDistance(c: Candidate, cs: seq<Candidate>): (r: seq<Candidate>)
    ensures multiset(r) == multiset(cs) + multiset{c}
    ensures |r| == |cs| + 1
    ensures r[0] == c || (|cs| > 0 && r[0] == cs[0])
  {
    if |cs| == 0 then [c]
    else if c.distance <= cs[0].distance then [c] + cs
    else
      assert cs == [cs[0]] + cs[1..];
      [cs[0]] + InsertByDistance(c, cs[1..])
  }

  lemma {:induction false} InsertKeepsSorted(c: Candidate, cs: seq<Candidate>)
    requires SortedByDistance(cs)
    ensures SortedByDistance(InsertByDistance(c, cs))
  {
    if |cs| > 0 && c.distance > cs[0].distance {
      var t := InsertByDistance(c, cs[1..]);
      InsertKeepsSorted(c, cs[1..]);
      assert cs[0].distance <= t[0].distance;
      assert InsertByDistance(c, cs) == [cs[0]] + t;
    }
  }

  /** The `orderBy("distance")` step; candidates at equal distance keep their table order. */
  function SortByDistance(cs: seq<Candidate>): (r: seq<Candidate>)
    ensures multiset(r) == multiset(cs)
    ensures SortedByDistance(r)
  {
    if |cs| == 0 then []
    else
      assert cs == [cs[0]] + cs[1..];
      var sorted := SortByDistance(cs[1..]);
      InsertKeepsSorted(cs[0], sorted);
      InsertByDistance(cs[0], sorted)
  }

  /** The flares strictly closer than `radius` to (lat, lon): the SQL `whereRaw` condition. */
  function FlaresNear(flares: map<FlareId, Flare>, sqlDistance: DistanceFn, lat: real, lon: real, radius: real): (near: set<FlareId>)
    ensures near <= flares.Keys
  {
    set id | id in flares && sqlDistance(lat, lon, flares[id].latitude, flares[id].longitude) < radius
  }

  /** The SQL `COUNT(*)` of flares strictly closer than `radius` to (lat, lon). */
  function FlareCount(flares: map<FlareId, Flare>, sqlDistance: DistanceFn, lat: real, lon: real, radius: real): (n: nat)
    ensures n <= |flares|
  {
    var near := FlaresNear(flares, sqlDistance, lat, lon, radius);
    SubsetCardinality(near, flares.Keys);
    |near|
  }

  lemma FlareCountIsSqlCount(flares: map<FlareId, Flare>, sqlDistance: DistanceFn, lat: real, lon: real, radius: real)
    ensures FlareCount(flares, sqlDistance, lat, lon, radius)
            == |set id | id in flares && sqlDistance(lat, lon, flares[id].latitude, flares[id].longitude) < radius|
  {
    assert FlaresNear(flares, sqlDistance, lat, lon, radius)
           == set id | id in flares && sqlDistance(lat, lon, flares[id].latitude, flares[id].longitude) < radius;
  }

  lemma {:induction false} SubsetCardinality<T>(a: set<T>, b: set<T>)
    requires a <= b
    ensures |a| <= |b|
  {
    if a != {} {
      var x :| x in a;
      SubsetCardinality(a - {x}, b - {x});
    }
  }

  /** Filter, order and count for a radius that is a number. */
  function RankedWithin(
    lat: real, lon: real, r: real,
    knownPlaces: seq<KnownPlace>, flares: map<FlareId, Flare>, sqlDistance: DistanceFn): (result: seq<NearbyPlace>)
    ensures |result| <= |knownPlaces|
  {
    var ranked := SortByDistance(Candidates(knownPlaces, sqlDistance, lat, lon, r));
    assert |ranked| == |multiset(ranked)|;
    seq(|ranked|, i requires 0 <= i < |ranked| =>
      NearbyPlace(ranked[i].place, ranked[i].distance,
                  FlareCount(flares, sqlDistance, ranked[i].place.lat, ranked[i].place.lon, r)))
  }

  /**
   * `nearbyKnownPlaces`: `knownPlaces` is the table in the order the database reads it and
   * `flares` the whole flares table. Distances are not rounded here. A null radius reaches
   * `having("distance", "<", null)`, which the query builder refuses, so the request fails.
   */
  function NearbyKnownPlaces(
    lat: real, lon: real, radius: RadiusParam,
    knownPlaces: seq<KnownPlace>, flares: map<FlareId, Flare>, sqlDistance: DistanceFn): (res: Response)
    ensures res.ServerError? <==> radius == Null
    ensures res.Places? ==> |res.entries| <= |knownPlaces|
  {
    match EffectiveRadius(radius)
    case None => ServerError
    case Some(r) => Places(RankedWithin(lat, lon, r, knownPlaces, flares, sqlDistance))
  }

  /** The evidently intended radius: 200 m whenever the request gives no number. */
  function IntendedRadius(radius: RadiusParam): (r: real)
    ensures radius.Given? ==> r == radius.value
    ensures !radius.Given? ==> r == DefaultRadius
  {
    if radius.Given? then radius.value else DefaultRadius
  }

  /** `nearbyKnownPlaces` with an empty radius treated like a missing one. */
  function NearbyKnownPlacesDefaulted(
    lat: real, lon: real, radius: RadiusParam,
    knownPlaces: seq<KnownPlace>, flares: map<FlareId, Flare>, sqlDistance: DistanceFn): (res: Response)
    ensures res.Places?
  {
    Places(RankedWithin(lat, lon, IntendedRadius(radius), knownPlaces, flares, sqlDistance))
  }

  // ---------------------------------------------------------------------------------------
  // Properties of the filter

  /** Every candidate is strictly inside the radius and carries its own distance. */
  lemma {:induction false} CandidatesAreInside(places: seq<KnownPlace>, sqlDistance: DistanceFn, lat: real, lon: real, radius: real)
    ensures forall c :: c in Candidates(places, sqlDistance, lat, lon, radius) ==>
              c.distance == DistanceFrom(sqlDistance, lat, lon, c.place) && c.distance < radius
  {
    if |places| > 0 {
      CandidatesAreInside(places[1..], sqlDistance, lat, lon, radius);
    }
  }

  /** The filter drops exactly the places at or beyond the radius and keeps every other one, with its multiplicity. */
  lemma {:induction false} CandidatesAreFilteredSubset(places: seq<KnownPlace>, sqlDistance: DistanceFn, lat: real, lon: real, radius: real)
    ensures forall p :: multiset(PlacesOf(Candidates(places, sqlDistance, lat, lon, radius)))[p]
                        == if DistanceFrom(sqlDistance, lat, lon, p) < radius then multiset(places)[p] else 0
  {
    if |places| > 0 {
      var rest := Candidates(places[1..], sqlDistance, lat, lon, radius);
      CandidatesAreFilteredSubset(places[1..], sqlDistance, lat, lon, radius);
      assert places == [places[0]] + places[1..];
      var d := DistanceFrom(sqlDistance, lat, lon, places[0]);
      if d < radius {
        assert PlacesOf([Candidate(places[0], d)] + rest) == [places[0]] + PlacesOf(rest);
      }
    }
  }

  lemma PlacesOfCons(c: Candidate, cs: seq<Candidate>)
    ensures PlacesOf([c] + cs) == [c.place] + PlacesOf(cs)
  {
  }

  lemma PlacesOfTail(cs: seq<Candidate>)
    requires |cs| > 0
    ensures multiset(PlacesOf(cs)) == multiset{cs[0].place} + multiset(PlacesOf(cs[1..]))
  {
    assert cs == [cs[0]] + cs[1..];
    PlacesOfCons(cs[0], cs[1..]);
  }

  lemma InsertStep(c: Candidate, cs: seq<Candidate>)
    requires |cs| > 0 && c.distance > cs[0].distance
    ensures InsertByDistance(c, cs) == [cs[0]] + InsertByDistance(c, cs[1..])
  {
  }

  lemma SortStep(cs: seq<Candidate>)
    requires |cs| > 0
    ensures SortByDistance(cs) == InsertByDistance(cs[0], SortByDistance(cs[1..]))
  {
  }

  lemma {:induction false} InsertKeepsPlaces(c: Candidate, cs: seq<Candidate>)
    ensures multiset(PlacesOf(InsertByDistance(c, cs))) == multiset(PlacesOf(cs)) + multiset{c.place}
  {
    if |cs| == 0 || c.distance <= cs[0].distance {
      assert InsertByDistance(c, cs) == [c] + cs;
      PlacesOfCons(c, cs);
    } else {
      var t := InsertByDistance(c, cs[1..]);
      InsertStep(c, cs);
      PlacesOfCons(cs[0], t);
      InsertKeepsPlaces(c, cs[1..]);
      PlacesOfTail(cs);
    }
  }

  /** Sorting keeps the same places, each as often as before. */
  lemma {:induction false} SortKeepsPlaces(cs: seq<Candidate>)
    ensures multiset(PlacesOf(SortByDistance(cs))) == multiset(PlacesOf(cs))
  {
    if |cs| > 0 {
      SortStep(cs);
      InsertKeepsPlaces(cs[0], SortByDistance(cs[1..]));
      SortKeepsPlaces(cs[1..]);
      PlacesOfTail(cs);
    }
  }

  // ---------------------------------------------------------------------------------------
  // Properties of the query

  /** The response's places are the ordered candidates' places. */
  lemma RankedWithinPlaces(
    lat: real, lon: real, r: real,
    knownPlaces: seq<KnownPlace>, flares: map<FlareId, Flare>, sqlDistance: DistanceFn)
    ensures ResultPlaces(RankedWithin(lat, lon, r, knownPlaces, flares, sqlDistance))
            == PlacesOf(SortByDistance(Candidates(knownPlaces, sqlDistance, lat, lon, r)))
  {
  }

  /** Every entry is strictly inside the radius and carries its distance from the query point. */
  lemma RankedWithinIsInside(
    lat: real, lon: real, r: real,
    knownPlaces: seq<KnownPlace>, flares: map<FlareId, Flare>, sqlDistance: DistanceFn)
    ensures var result := RankedWithin(lat, lon, r, knownPlaces, flares, sqlDistance);
            forall i :: 0 <= i < |result| ==>
              result[i].distance == DistanceFrom(sqlDistance, lat, lon, result[i].place) && result[i].distance < r
  {
    var result := RankedWithin(lat, lon, r, knownPlaces, flares, sqlDistance);
    var filtered := Candidates(knownPlaces, sqlDistance, lat, lon, r);
    var ranked := SortByDistance(filtered);
    CandidatesAreInside(knownPlaces, sqlDistance, lat, lon, r);
    forall i | 0 <= i < |result|
      ensures result[i].distance == DistanceFrom(sqlDistance, lat, lon, result[i].place) && result[i].distance < r
    {
      assert ranked[i] in multiset(filtered);
    }
  }

  /** The entries hold exactly the known places strictly inside the radius, each as often as the table does. */
  lemma RankedWithinIsFilteredSubset(
    lat: real, lon: real, r: real,
    knownPlaces: seq<KnownPlace>, flares: map<FlareId, Flare>, sqlDistance: DistanceFn)
    ensures forall p :: multiset(ResultPlaces(RankedWithin(lat, lon, r, knownPlaces, flares, sqlDistance)))[p]
                        == if DistanceFrom(sqlDistance, lat, lon, p) < r then multiset(knownPlaces)[p] else 0
  {
    RankedWithinPlaces(lat, lon, r, knownPlaces, flares, sqlDistance);
    CandidatesAreFilteredSubset(knownPlaces, sqlDistance, lat, lon, r);
    SortKeepsPlaces(Candidates(knownPlaces, sqlDistance, lat, lon, r));
  }

  /** Each entry's count is taken around the entry's own place. */
  lemma RankedWithinCounts(
    lat: real, lon: real, r: real,
    knownPlaces: seq<KnownPlace>, flares: map<FlareId, Flare>, sqlDistance: DistanceFn)
    ensures var result := RankedWithin(lat, lon, r, knownPlaces, flares, sqlDistance);
            forall i :: 0 <= i < |result| ==>
              result[i].flareCount == |set id | id in flares
                 && sqlDistance(result[i].place.lat, result[i].place.lon, flares[id].latitude, flares[id].longitude) < r|
  {
    var result := RankedWithin(lat, lon, r, knownPlaces, flares, sqlDistance);
    forall i | 0 <= i < |result|
      ensures result[i].flareCount == |set id | id in flares
                && sqlDistance(result[i].place.lat, result[i].place.lon, flares[id].latitude, flares[id].longitude) < r|
    {
      FlareCountIsSqlCount(flares, sqlDistance, result[i].place.lat, result[i].place.lon, r);
    }
  }

  /**
   * For a numeric radius the query lists exactly the known places strictly inside it (each
   * as often as the table holds it), nearest first, each with its distance from the query
   * point. Each entry's flare count is the number of flares strictly inside the radius around
   * that place's own coordinates, not the query point's.
   */
  lemma RankedWithinIsRankedSubset(
    lat: real, lon: real, r: real,
    knownPlaces: seq<KnownPlace>, flares: map<FlareId, Flare>, sqlDistance: DistanceFn)
    ensures var result := RankedWithin(lat, lon, r, knownPlaces, flares, sqlDistance);
            && (forall i :: 0 <= i < |result| ==>
                  result[i].distance == DistanceFrom(sqlDistance, lat, lon, result[i].place) && result[i].distance < r)
            && (forall i, j :: 0 <= i < j < |result| ==> result[i].distance <= result[j].distance)
            && (forall p :: multiset(ResultPlaces(result))[p]
                            == if DistanceFrom(sqlDistance, lat, lon, p) < r then multiset(knownPlaces)[p] else 0)
            && (forall i :: 0 <= i < |result| ==>
                  result[i].flareCount == |set id | id in flares
                     && sqlDistance(result[i].place.lat, result[i].place.lon, flares[id].latitude, flares[id].longitude) < r|)
  {
    RankedWithinIsInside(lat, lon, r, knownPlaces, flares, sqlDistance);
    RankedWithinIsFilteredSubset(lat, lon, r, knownPlaces, flares, sqlDistance);
    RankedWithinCounts(lat, lon, r, knownPlaces, flares, sqlDistance);
  }

  /** A wider radius never counts fewer flares around a place. */
  lemma FlareCountMonotone(
    flares: map<FlareId, Flare>, sqlDistance: DistanceFn, lat: real, lon: real, r1: real, r2: real)
    requires r1 <= r2
    ensures FlareCount(flares, sqlDistance, lat, lon, r1) <= FlareCount(flares, sqlDistance, lat, lon, r2)
  {
    SubsetCardinality(FlaresNear(flares, sqlDistance, lat, lon, r1), FlaresNear(flares, sqlDistance, lat, lon, r2));
  }

  /**
   * A place's flare count does not depend on where the query was made: two answers with the
   * same radius that both list a place give it the same count.
   */
  lemma CountIndependentOfQueryPoint(
    lat1: real, lon1: real, lat2: real, lon2: real, radius: RadiusParam,
    knownPlaces: seq<KnownPlace>, flares: map<FlareId, Flare>, sqlDistance: DistanceFn)
    ensures var a := NearbyKnownPlaces(lat1, lon1, radius, knownPlaces, flares, sqlDistance);
            var b := NearbyKnownPlaces(lat2, lon2, radius, knownPlaces, flares, sqlDistance);
            a.Places? && b.Places? ==>
              forall i, j :: 0 <= i < |a.entries| && 0 <= j < |b.entries| && a.entries[i].place == b.entries[j].place ==>
                a.entries[i].flareCount == b.entries[j].flareCount
  {
  }

  /**
   * The query as written: a missing radius means 200 m, a numeric one is used as given, and
   * the ranked, filtered, counted list of the lemma above is the answer; only an empty radius
   * fails.
   */
  lemma NearbyKnownPlacesAreRankedSubset(
    lat: real, lon: real, radius: RadiusParam,
    knownPlaces: seq<KnownPlace>, flares: map<FlareId, Flare>, sqlDistance: DistanceFn)
    ensures var res := NearbyKnownPlaces(lat, lon, radius, knownPlaces, flares, sqlDistance);
            var r := if radius.Given? then radius.value else DefaultRadius;
            res.Places? ==>
            && (forall i :: 0 <= i < |res.entries| ==>
                  res.entries[i].distance == DistanceFrom(sqlDistance, lat, lon, res.entries[i].place)
                  && res.entries[i].distance < r)
            && (forall i, j :: 0 <= i < j < |res.entries| ==> res.entries[i].distance <= res.entries[j].distance)
            && (forall p :: multiset(ResultPlaces(res.entries))[p]
                            == if DistanceFrom(sqlDistance, lat, lon, p) < r then multiset(knownPlaces)[p] else 0)
            && (forall i :: 0 <= i < |res.entries| ==>
                  res.entries[i].flareCount == |set id | id in flares
                     && sqlDistance(res.entries[i].place.lat, res.entries[i].place.lon,
                                    flares[id].latitude, flares[id].longitude) < r|)
  {
    if radius != Null {
      RankedWithinIsRankedSubset(lat, lon, if radius.Given? then radius.value else DefaultRadius, knownPlaces, flares, sqlDistance);
    }
  }

  // ---------------------------------------------------------------------------------------
  // An empty radius

  /**
   * As written, a request with an empty radius fails even when a known place stands at the
   * query point, where the defaulted query lists it.
   */
  lemma {:induction false} EmptyRadiusFails(
    lat: real, lon: real, knownPlaces: seq<KnownPlace>, flares: map<FlareId, Flare>, sqlDistance: DistanceFn)
    requires |knownPlaces| > 0 && DistanceFrom(sqlDistance, lat, lon, knownPlaces[0]) < DefaultRadius
    ensures NearbyKnownPlaces(lat, lon, Null, knownPlaces, flares, sqlDistance) == ServerError
    ensures knownPlaces[0] in ResultPlaces(NearbyKnownPlacesDefaulted(lat, lon, Null, knownPlaces, flares, sqlDistance).entries)
  {
    var entries := NearbyKnownPlacesDefaulted(lat, lon, Null, knownPlaces, flares, sqlDistance).entries;
    RankedWithinIsFilteredSubset(lat, lon, DefaultRadius, knownPlaces, flares, sqlDistance);
    assert knownPlaces == [knownPlaces[0]] + knownPlaces[1..];
    assert multiset(knownPlaces)[knownPlaces[0]] > 0;
    assert multiset(ResultPlaces(entries))[knownPlaces[0]] > 0;
  }

  /**
   * The defaulted query answers an empty radius exactly as a missing one, and agrees with the
   * query as written on every request that does not fail.
   */
  lemma DefaultedQueryAgrees(
    lat: real, lon: real, radius: RadiusParam,
    knownPlaces: seq<KnownPlace>, flares: map<FlareId, Flare>, sqlDistance: DistanceFn)
    ensures NearbyKnownPlacesDefaulted(lat, lon, Null, knownPlaces, flares, sqlDistance)
            == NearbyKnownPlaces(lat, lon, Omitted, knownPlaces, flares, sqlDistance)
    ensures radius != Null ==>
              NearbyKnownPlacesDefaulted(lat, lon, radius, knownPlaces, flares, sqlDistance)
              == NearbyKnownPlaces(lat, lon, radius, knownPlaces, flares, sqlDistance)
  {
  }
}
