/**
 * The rows the application stores: users, flares and known places, as values.
 * Primary keys are not fields; a table maps each key to its row.
 */
module Records {

  import opened Wrappers

  /** Auto-incrementing integer keys of the users and flares tables. */
  type UserId = nat
  type FlareId = nat
  /** Known places are keyed by a generated UUID string. */
  type PlaceId = string

  /**
   * A distance formula in metres between (lat1, lon1) and (lat2, lon2).
   * The floating-point trigonometry behind it is not modelled.
   */
  type DistanceFn = (real, real, real, real) -> real

  /** The three categories a flare may carry. */
  datatype Category = Regular | Blue | Violet

  datatype KnownPlace = KnownPlace(id: PlaceId, name: string, lat: real, lon: real)

  datatype User = User(name: Option<string>, username: Option<string>, isAdmin: bool)

  datatype Flare = Flare(
    userId: Option<UserId>,
    latitude: real,
    longitude: real,
    note: string,
    category: Category,
    placeId: Option<nat>,
    knownPlaceId: Option<PlaceId>,
    photoPath: Option<string>)

  /** The identifiers of a sequence of known places. */
  function PlaceIds(places: seq<KnownPlace>): set<PlaceId> {
    set p | p in places :: p.id
  }
}
