/**
 * The state-changing actions of the flares API (app/Http/Controllers/Api/FlareController.php):
 * create a flare, and the owner-only edit, delete, image upload and contribution.
 * `actor` is the signed-in user (`Auth::id()`); every route here requires authentication.
 */
module FlareController {

  import opened Wrappers
  import opened Records
  import opened Tables
  import KnownPlaceMatch

  const MaxNoteLength: nat := 255
  const MaxPhotoKilobytes: nat := 5120

  /** The HTTP outcome of an action. */
  datatype Status =
    | Ok             // 200
    | Created        // 201
    | Forbidden      // 403
    | NotFound       // 404
    | Unprocessable  // 422, a validation rule failed

  /**
   * An uploaded file: whether it is an image, its size in bytes, and the path the public disk gives
   * it when stored (file storage itself is not modelled).
   */
  datatype Upload = Upload(isImage: bool, bytes: nat, storedPath: string)

  /**
   * The rule `image|max:5120`: an image whose size in kilobytes, the byte count divided by
   * 1024 without rounding, is at most 5120.
   */
  predicate PhotoRule(photo: Upload)
    ensures PhotoRule(photo) ==> photo.isImage
    ensures photo.isImage ==> (PhotoRule(photo) <==> photo.bytes as real / 1024.0 <= MaxPhotoKilobytes as real)
  {
    photo.isImage && photo.bytes <= MaxPhotoKilobytes * 1024
  }

  /** The rule `nullable|image|max:5120`: no photo passes, a photo must pass `PhotoRule`. */
  predicate OptionalPhotoRule(photo: Option<Upload>)
    ensures photo.None? ==> OptionalPhotoRule(photo)
    ensures photo.Some? ==> (OptionalPhotoRule(photo) <==> PhotoRule(photo.value))
  {
    photo.None? || PhotoRule(photo.value)
  }

  /** The characters PHP's `trim` removes: space, tab, newline, carriage return, NUL, vertical tab. */
  predicate IsTrimmed(c: char) {
    c == ' ' || c == '\t' || c == '\n' || c == '\r' || c == 0 as char || c == 11 as char
  }

  /** `ltrim`: drops the leading trimmed characters. */
  function TrimStart(s: string): (t: string)
    ensures t == [] <==> forall i :: 0 <= i < |s| ==> IsTrimmed(s[i])
    ensures t != [] ==> !IsTrimmed(t[0])
  {
    if s == [] || !IsTrimmed(s[0]) then s else TrimStart(s[1..])
  }

  /** `rtrim`: drops the trailing trimmed characters. */
  function TrimEnd(s: string): (t: string)
    ensures t == [] <==> forall i :: 0 <= i < |s| ==> IsTrimmed(s[i])
  {
    if s == [] || !IsTrimmed(s[|s| - 1]) then s else TrimEnd(s[..|s| - 1])
  }

  /** PHP's `trim`. */
  function Trim(s: string): (t: string)
    ensures t == [] <==> forall i :: 0 <= i < |s| ==> IsTrimmed(s[i])
  {
    TrimEnd(TrimStart(s))
  }

  /**
   * The rule `required|string|max:255`: present, not empty once trimmed (the `required` rule
   * trims the value itself), and at most 255 characters as sent.
   */
  predicate RequiredNoteRule(note: Option<string>)
    ensures RequiredNoteRule(note) <==>
              && note.Some?
              && |note.value| <= MaxNoteLength
              && exists i :: 0 <= i < |note.value| && !IsTrimmed(note.value[i])
  {
    note.Some? && Trim(note.value) != "" && |note.value| <= MaxNoteLength
  }

  /**
   * The rule `sometimes|string|max:255`. A note left out is not checked. A note sent as null
   * fails `string`. A sent note that `trim` empties skips every rule that is not implicit, so
   * it passes whatever its length; any other note must be at most 255 characters.
   */
  predicate OptionalNoteRule(note: Field<string>)
    ensures note == Omitted ==> OptionalNoteRule(note)
    ensures note == Null ==> !OptionalNoteRule(note)
    ensures note.Given? ==>
              (OptionalNoteRule(note) <==>
                 |note.value| <= MaxNoteLength || forall i :: 0 <= i < |note.value| ==> IsTrimmed(note.value[i]))
    ensures note.Given? && RequiredNoteRule(Some(note.value)) ==> OptionalNoteRule(note)
  {
    match note
    case Omitted => true
    case Null => false
    case Given(s) => Trim(s) == "" || |s| <= MaxNoteLength
  }

  /**
   * The rule `sometimes|string|in:regular,blue,violet`: a category left out is not checked and
   * one sent as null fails `string`. Categories are a datatype, so every sent one is listed.
   */
  predicate OptionalCategoryRule(category: Field<Category>)
    ensures OptionalCategoryRule(category) <==> category != Null
  {
    !category.Null?
  }

  /** `$validated['category'] ?? 'regular'`. */
  function CategoryOrDefault(category: Option<Category>): (c: Category)
    ensures category.None? ==> c == Regular
    ensures category.Some? ==> c == category.value
  {
    category.GetOr(Regular)
  }

  /** The stored photo's path, when a photo was sent. */
  function PhotoPathOf(photo: Option<Upload>): Option<string> {
    if photo.Some? then Some(photo.value.storedPath) else None
  }

  /**
   * The common guard of update, destroy, uploadImage and contribute: a missing flare is a 404,
   * a flare `actor` does not own is a 403, and only its owner gets through (None).
   */
  function Refusal(flares: map<FlareId, Flare>, id: FlareId, actor: UserId): (s: Option<Status>)
    ensures s.None? <==> id in flares && flares[id].userId == Some(actor)
    ensures id !in flares ==> s == Some(NotFound)
    ensures id in flares && flares[id].userId != Some(actor) ==> s == Some(Forbidden)
  {
    if id !in flares then Some(NotFound)
    else if flares[id].userId != Some(actor) then Some(Forbidden)
    else None
  }

  /**
   * `store`: validate, match the point to a known place, and insert the new flare under the
   * next key. `placeId` is the Place row found or created for the request, if any.
   */
  method Store(
    db: Database, actor: UserId, haversine: DistanceFn, lat: real, lon: real,
    note: Option<string>, category: Option<Category>, placeId: Option<nat>, photo: Option<Upload>)
    returns (status: Status, id: FlareId)
    requires db.Valid() && actor in db.users
    modifies db`flares, db`nextFlareId
    ensures db.Valid()
    ensures !(RequiredNoteRule(note) && OptionalPhotoRule(photo)) ==>
              status == Unprocessable && db.flares == old(db.flares) && db.nextFlareId == old(db.nextFlareId)
    ensures RequiredNoteRule(note) && OptionalPhotoRule(photo) ==>
              && status == Created
              && id !in old(db.flares)
              && db.flares == old(db.flares)[id := Flare(Some(actor), lat, lon, note.value, CategoryOrDefault(category),
                                                         placeId, KnownPlaceMatch.MatchedId(db.knownPlaces, haversine, lat, lon),
                                                         PhotoPathOf(photo))]
  {
    if !RequiredNoteRule(note) || !OptionalPhotoRule(photo) {
      return Unprocessable, 0;
    }
    var photoPath := PhotoPathOf(photo);
    var knownPlaceId := KnownPlaceMatch.AssignKnownPlace(db.knownPlaces, haversine, lat, lon);
    id := db.nextFlareId;
    db.flares := db.flares[id := Flare(Some(actor), lat, lon, note.value, CategoryOrDefault(category),
                                       placeId, knownPlaceId, photoPath)];
    db.nextFlareId := db.nextFlareId + 1;
    status := Created;
  }

  /**
   * `update`: the owner may change the note and the category; fields left out are kept, and
   * a field sent as null is refused.
   */
  method Update(db: Database, actor: UserId, id: FlareId, note: Field<string>, category: Field<Category>)
    returns (status: Status)
    requires db.Valid()
    modifies db`flares
    ensures db.Valid()
    ensures Refusal(old(db.flares), id, actor).Some? ==>
              status == Refusal(old(db.flares), id, actor).value && db.flares == old(db.flares)
    ensures Refusal(old(db.flares), id, actor).None? && !(OptionalNoteRule(note) && OptionalCategoryRule(category)) ==>
              status == Unprocessable && db.flares == old(db.flares)
    ensures Refusal(old(db.flares), id, actor).None? && OptionalNoteRule(note) && OptionalCategoryRule(category) ==>
              && status == Ok
              && db.flares == old(db.flares)[id := old(db.flares)[id].(note := note.GetOr(old(db.flares)[id].note),
                                                                         category := category.GetOr(old(db.flares)[id].category))]
  {
    if id !in db.flares {
      return NotFound;
    }
    var flare := db.flares[id];
    if flare.userId != Some(actor) {
      return Forbidden;
    }
    if !OptionalNoteRule(note) || !OptionalCategoryRule(category) {
      return Unprocessable;
    }
    if note.Given? {
      flare := flare.(note := note.value);
    }
    if category.Given? {
      flare := flare.(category := category.value);
    }
    db.flares := db.flares[id := flare];
    status := Ok;
  }

  /** `destroy`: the owner may delete the flare. */
  method Destroy(db: Database, actor: UserId, id: FlareId) returns (status: Status)
    requires db.Valid()
    modifies db`flares
    ensures db.Valid()
    ensures Refusal(old(db.flares), id, actor).Some? ==>
              status == Refusal(old(db.flares), id, actor).value && db.flares == old(db.flares)
    ensures Refusal(old(db.flares), id, actor).None? ==> status == Ok && db.flares == old(db.flares) - {id}
  {
    if id !in db.flares {
      return NotFound;
    }
    if db.flares[id].userId != Some(actor) {
      return Forbidden;
    }
    db.flares := db.flares - {id};
    status := Ok;
  }

  /** `uploadImage`: the owner may attach a (required, valid) photo to the flare. */
  method UploadImage(db: Database, actor: UserId, id: FlareId, photo: Option<Upload>) returns (status: Status)
    requires db.Valid()
    modifies db`flares
    ensures db.Valid()
    ensures Refusal(old(db.flares), id, actor).Some? ==>
              status == Refusal(old(db.flares), id, actor).value && db.flares == old(db.flares)
    ensures Refusal(old(db.flares), id, actor).None? && !(photo.Some? && PhotoRule(photo.value)) ==>
              status == Unprocessable && db.flares == old(db.flares)
    ensures Refusal(old(db.flares), id, actor).None? && photo.Some? && PhotoRule(photo.value) ==>
              && status == Ok
              && db.flares == old(db.flares)[id := old(db.flares)[id].(photoPath := Some(photo.value.storedPath))]
  {
    if id !in db.flares {
      return NotFound;
    }
    var flare := db.flares[id];
    if flare.userId != Some(actor) {
      return Forbidden;
    }
    if photo.None? || !PhotoRule(photo.value) {
      return Unprocessable;
    }
    db.flares := db.flares[id := flare.(photoPath := Some(photo.value.storedPath))];
    status := Ok;
  }

  /** `contribute`: the owner may replace the note; a photo is validated but not kept. */
  method Contribute(db: Database, actor: UserId, id: FlareId, note: Option<string>, photo: Option<Upload>)
    returns (status: Status)
    requires db.Valid()
    modifies db`flares
    ensures db.Valid()
    ensures Refusal(old(db.flares), id, actor).Some? ==>
              status == Refusal(old(db.flares), id, actor).value && db.flares == old(db.flares)
    ensures Refusal(old(db.flares), id, actor).None? && !(RequiredNoteRule(note) && OptionalPhotoRule(photo)) ==>
              status == Unprocessable && db.flares == old(db.flares)
    ensures Refusal(old(db.flares), id, actor).None? && RequiredNoteRule(note) && OptionalPhotoRule(photo) ==>
              && status == Ok
              && db.flares == old(db.flares)[id := old(db.flares)[id].(note := note.value)]
  {
    if id !in db.flares {
      return NotFound;
    }
    var flare := db.flares[id];
    if flare.userId != Some(actor) {
      return Forbidden;
    }
    if !RequiredNoteRule(note) || !OptionalPhotoRule(photo) {
      return Unprocessable;
    }
    db.flares := db.flares[id := flare.(note := note.value)];
    status := Ok;
  }

  /** Deleting a flare one has just created leaves the flares table as it was. */
  method StoreThenDestroy(
    db: Database, actor: UserId, haversine: DistanceFn, lat: real, lon: real,
    note: Option<string>, category: Option<Category>, placeId: Option<nat>, photo: Option<Upload>)
    requires db.Valid() && actor in db.users
    requires RequiredNoteRule(note) && OptionalPhotoRule(photo)
    modifies db`flares, db`nextFlareId
    ensures db.Valid()
    ensures db.flares == old(db.flares)
  {
    var created, id := Store(db, actor, haversine, lat, lon, note, category, placeId, photo);
    var deleted := Destroy(db, actor, id);
    assert deleted == Ok;
  }
}
