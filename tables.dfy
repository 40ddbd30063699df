/**
 * The database rows the controllers change: users, flares, and the known places the
 * matcher reads. Keys of `users` and `flares` are the tables' primary keys.
 */
module Tables {

  import opened Wrappers
  import opened Records

  class Database {
    var users: map<UserId, User>
    var flares: map<FlareId, Flare>
    /** The known_places table, in the order a full read returns it. */
    var knownPlaces: seq<KnownPlace>
    /** The next value of the flares table's auto-increment key. */
    var nextFlareId: FlareId

    /**
     * Keys below the auto-increment counter; every flare owner is an existing user;
     * every assigned known place exists.
     */
    ghost predicate Valid()
      reads this
    {
      && (forall id :: id in flares ==> id < nextFlareId)
      && (forall id :: id in flares && flares[id].userId.Some? ==> flares[id].userId.value in users)
      && (forall id :: id in flares && flares[id].knownPlaceId.Some? ==> flares[id].knownPlaceId.value in PlaceIds(knownPlaces))
    }

    constructor (users: map<UserId, User>, knownPlaces: seq<KnownPlace>)
      ensures Valid()
      ensures this.users == users && this.knownPlaces == knownPlaces
      ensures flares == map[] && nextFlareId == 0
    {
      this.users := users;
      this.knownPlaces := knownPlaces;
      flares := map[];
      nextFlareId := 0;
    }
  }
}
