/**
 * The known-place assignment done when a flare is stored
 * (`store` in app/Http/Controllers/Api/FlareController.php): the known places are scanned
 * in the order the table returns them and the first one within 200 m wins.
 */
module KnownPlaceMatch {

  import opened Wrappers
  import opened Records

  /** Metres; a place at exactly this distance still matches. */
  const MatchThreshold: real := 200.0

  /** Distance from the new flare at (lat, lon) to `place`, by the haversine closure. */
  function DistanceTo(haversine: DistanceFn, lat: real, lon: real, place: KnownPlace): real {
    haversine(lat, lon, place.lat, place.lon)
  }

  predicate Within(haversine: DistanceFn, lat: real, lon: real, place: KnownPlace) {
    DistanceTo(haversine, lat, lon, place) <= MatchThreshold
  }

  /** The index of the first known place within the threshold, if any. */
  function FirstMatch(places: seq<KnownPlace>, haversine: DistanceFn, lat: real, lon: real): (k: Option<nat>)
    ensures k.Some? ==> k.value < |places| && Within(haversine, lat, lon, places[k.value])
    ensures k.Some? ==> forall j :: 0 <= j < k.value ==> !Within(haversine, lat, lon, places[j])
    ensures k.None? <==> forall j :: 0 <= j < |places| ==> !Within(haversine, lat, lon, places[j])
  {
    if |places| == 0 then None
    else if Within(haversine, lat, lon, places[0]) then Some(0)
    else
      match FirstMatch(places[1..], haversine, lat, lon)
      case None => None
      case Some(k) => Some(k + 1)
  }

  /** The identifier the matcher assigns: that of the first place within the threshold. */
  function MatchedId(places: seq<KnownPlace>, haversine: DistanceFn, lat: real, lon: real): (id: Option<PlaceId>)
    ensures id.Some? ==> id.value in PlaceIds(places)
  {
    match FirstMatch(places, haversine, lat, lon)
    case None => None
    case Some(k) => Some(places[k].id)
  }

  /**
   * The scan in `store`: walk the known places in table order, stop at the first one whose
   * haversine distance is at most 200 m and return its identifier; null when none is.
   */
  method AssignKnownPlace(knownPlaces: seq<KnownPlace>, haversine: DistanceFn, lat: real, lon: real)
    returns (knownPlaceId: Option<PlaceId>)
    ensures knownPlaceId == MatchedId(knownPlaces, haversine, lat, lon)
    ensures knownPlaceId.None? <==> forall j :: 0 <= j < |knownPlaces| ==> !Within(haversine, lat, lon, knownPlaces[j])
    ensures forall k :: 0 <= k < |knownPlaces| && Within(haversine, lat, lon, knownPlaces[k])
              && (forall j :: 0 <= j < k ==> !Within(haversine, lat, lon, knownPlaces[j]))
              ==> knownPlaceId == Some(knownPlaces[k].id)
  {
    var threshold := MatchThreshold;
    knownPlaceId := None;
    var i := 0;
    while i < |knownPlaces|
      invariant 0 <= i <= |knownPlaces|
      invariant knownPlaceId == None
      invariant forall j :: 0 <= j < i ==> !Within(haversine, lat, lon, knownPlaces[j])
    {
      var distance := haversine(lat, lon, knownPlaces[i].lat, knownPlaces[i].lon);
      if distance <= threshold {
        knownPlaceId := Some(knownPlaces[i].id);
        break;
      }
      i := i + 1;
    }
  }
}
