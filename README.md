# Flare backend: proximity matching and access rules, modelled in Dafny

Flare is a Laravel application where signed-in users post geotagged notes ("flares"),
optionally with a photo. When a flare is stored, it is linked to a registered *known place*
if one lies within 200 m. A public query lists the known places near a point, nearest first,
and gives each one the number of flares around it. Owners may edit, delete, illustrate or
extend their own flares. Admins may delete users and flares and grant or revoke admin rights.
Admin pages sit behind a middleware that admits only admins.

This project models that core:

- `records.dfy` (`Records`): the rows, as values. These are users, flares, known places and
  the flare categories.
- `tables.dfy` (`Tables`): the `Database` class. It holds the users and flares tables as maps,
  the known places as a sequence in table order, and the flares' auto-increment counter. Its
  invariant `Valid()` says three things. Flare keys are below the counter. Every flare owner
  exists. Every assigned known place exists.
- `known_place_match.dfy` (`KnownPlaceMatch`): the first-match scan in `store`.
- `nearby_query.dfy` (`NearbyQuery`): `nearbyKnownPlaces` as a pure function. It filters,
  orders, then counts flares.
- `flare_controller.dfy` (`FlareController`): `store`, `update`, `destroy`, `uploadImage` and
  `contribute` as methods on the `Database`.
- `admin_controller.dfy` (`AdminController`): `deleteUser`, `deleteFlare` and `toggleAdmin`.
- `admin_middleware.dfy` (`AdminMiddleware`): the `EnsureUserIsAdmin` decision.
- `flare_accessors.dfy` (`FlareAccessors`): the `photo_url` and `user_display_name`
  attributes.
- `wrappers.dfy` (`Wrappers`): `Option`, standing for PHP's `null`.

Both distance formulas are parameters of type `DistanceFn`, from (lat1, lon1, lat2, lon2) to
metres. `store` uses a haversine closure. `nearbyKnownPlaces` uses a spherical
law-of-cosines expression in SQL. They are two separate parameters, and nothing assumes they
agree.

Three details of the code shape the model:

- `photo_url` follows PHP truthiness, so a photo path of `"0"` gives null, like null and `""`.
- Known places are scanned in the order the table returns them. No sort key is imposed.
- The nearby query keeps a place only at a distance strictly below the radius. The store
  match accepts a distance equal to 200 m.

## Model

| member | source | states |
|---|---|---|
| `KnownPlaceMatch.AssignKnownPlace` | app/Http/Controllers/Api/FlareController.php:62-86 | The scan returns the id of the first known place, in table order, whose haversine distance is at most 200 m. Every earlier place is farther away, and a nearer place later in the table does not change the choice: it is first match, not nearest match. The result is null exactly when no place, or an empty table, lies within 200 m. A place at exactly 200 m matches. |
| `KnownPlaceMatch.FirstMatch` | app/Http/Controllers/Api/FlareController.php:77-86 | The chosen index is in range and within the threshold, and every earlier place is not. There is no index exactly when no place is within the threshold. |
| `KnownPlaceMatch.MatchedId` | app/Http/Controllers/Api/FlareController.php:65-83 | An assigned known-place id is always the id of one of the known places scanned. |
| `FlareController.PhotoRule` | app/Http/Controllers/Api/FlareController.php:143 | `image\|max:5120`: a photo passes only if it is an image, and an image passes exactly when its size in bytes divided by 1024, unrounded, is at most 5120, so a file of 5 242 881 bytes fails. |
| `FlareController.OptionalPhotoRule` | app/Http/Controllers/Api/FlareController.php:40 | `nullable\|image\|max:5120` (also line 162): no photo passes, and a sent photo passes exactly when it meets the photo rule. |
| `FlareController.Trim` | app/Http/Controllers/Api/FlareController.php:35 | PHP's `trim`, which the `required` rule applies: the result is empty exactly when every character is a space, tab, newline, carriage return, NUL or vertical tab. |
| `FlareController.RequiredNoteRule` | app/Http/Controllers/Api/FlareController.php:35 | `required\|string\|max:255` (also line 161): a note passes exactly when it is present, at most 255 characters, and holds at least one character that `trim` keeps. A missing, empty or whitespace-only note fails. |
| `FlareController.OptionalNoteRule` | app/Http/Controllers/Api/FlareController.php:114 | `sometimes\|string\|max:255`: a note left out passes and a note sent as null fails. A sent note passes exactly when it is at most 255 characters or `trim` empties it, since a blank value skips the rules that are not implicit. Every note the required rule accepts passes too. |
| `FlareController.OptionalCategoryRule` | app/Http/Controllers/Api/FlareController.php:115 | `sometimes\|string\|in:regular,blue,violet`: a category fails exactly when it is sent as null. |
| `FlareController.CategoryOrDefault` | app/Http/Controllers/Api/FlareController.php:93 | A missing category becomes `regular`. A supplied category is kept unchanged. |
| `FlareController.Store` | app/Http/Controllers/Api/FlareController.php:30-97 | Invalid input (note missing, empty, whitespace-only or over 255 characters, or a bad photo) gives 422 and changes nothing. Otherwise the result is 201, and exactly one flare is added under a fresh key. It is owned by the actor, has the defaulted category, the first-match known place and the stored photo path. The table invariant is kept. |
| `FlareController.Refusal` | app/Http/Controllers/Api/FlareController.php:107-111 | The shared guard. A missing flare gives 404. A flare whose owner is not the actor gives 403. It lets a request through exactly when the flare exists and the actor owns it. |
| `FlareController.Update` | app/Http/Controllers/Api/FlareController.php:105-120 | A missing flare gives 404 and a non-owner gets 403, both with the flare left unchanged. A note or category sent as null, or an over-long note that is not blank, gives 422 with no change. Otherwise the result is 200: only that flare changes, taking the note and category sent and keeping any field left out. |
| `FlareController.Destroy` | app/Http/Controllers/Api/FlareController.php:122-132 | 404 or 403 leaves the table unchanged. For the owner, the result is 200 and exactly that flare is removed. |
| `FlareController.UploadImage` | app/Http/Controllers/Api/FlareController.php:134-150 | 404 or 403 leaves the table unchanged. A missing or invalid photo gives 422 with no change. Otherwise only the flare's photo path is replaced, by the stored path. |
| `FlareController.Contribute` | app/Http/Controllers/Api/FlareController.php:152-169 | 404 or 403 leaves the table unchanged. A missing, empty, whitespace-only or over-long note, or an invalid photo, gives 422. Otherwise only the flare's note is replaced, and the photo is not kept. |
| `FlareController.StoreThenDestroy` | app/Http/Controllers/Api/FlareController.php:88-131 | Deleting a flare just created by its owner gives back the flares table as it was. |
| `NearbyQuery.EffectiveRadius` | app/Http/Controllers/Api/FlareController.php:181 | `input('radius', 200)` defaults only a missing field: an omitted radius is 200 m, a numeric one is used as given, and a radius sent as null stays null. |
| `NearbyQuery.Candidates` | app/Http/Controllers/Api/FlareController.php:184-196 | The filter never yields more candidates than there are known places. |
| `NearbyQuery.CandidatesAreInside` | app/Http/Controllers/Api/FlareController.php:184-196 | Every place that passes the filter is strictly inside the radius and carries its distance from the query point. |
| `NearbyQuery.CandidatesAreFilteredSubset` | app/Http/Controllers/Api/FlareController.php:196 | The filter keeps each place strictly inside the radius as many times as the table holds it, and drops every other place. |
| `NearbyQuery.InsertByDistance` | app/Http/Controllers/Api/FlareController.php:197 | Insertion adds the one new candidate and loses none. The first entry is the new candidate or the previous first. |
| `NearbyQuery.InsertKeepsSorted` | app/Http/Controllers/Api/FlareController.php:197 | Inserting into a list ordered by distance keeps it ordered. |
| `NearbyQuery.InsertKeepsPlaces` | app/Http/Controllers/Api/FlareController.php:197 | After insertion, the known places are those before plus the inserted one. |
| `NearbyQuery.SortByDistance` | app/Http/Controllers/Api/FlareController.php:197 | The ordering step gives a permutation of its input in non-decreasing distance. |
| `NearbyQuery.SortKeepsPlaces` | app/Http/Controllers/Api/FlareController.php:197 | Ordering keeps the same known places, each as often as before. |
| `NearbyQuery.FlaresNear` | app/Http/Controllers/Api/FlareController.php:201-211 | The flares counted around a place are flares of the table. |
| `NearbyQuery.FlareCount` | app/Http/Controllers/Api/FlareController.php:200-212 | A place's flare count is at most the number of flares. |
| `NearbyQuery.FlareCountMonotone` | app/Http/Controllers/Api/FlareController.php:200-212 | Around the same point, a wider radius never counts fewer flares. |
| `NearbyQuery.RankedWithin` | app/Http/Controllers/Api/FlareController.php:184-221 | For a numeric radius, the answer never has more entries than the known-places table has rows. Its full characterisation is `RankedWithinIsRankedSubset`. |
| `NearbyQuery.RankedWithinIsInside` | app/Http/Controllers/Api/FlareController.php:184-197 | For a numeric radius, every entry is strictly inside it and carries its distance from the query point. |
| `NearbyQuery.RankedWithinIsFilteredSubset` | app/Http/Controllers/Api/FlareController.php:184-197 | For a numeric radius, the entries hold each known place strictly inside it as often as the table does, and no other place. |
| `NearbyQuery.RankedWithinIsRankedSubset` | app/Http/Controllers/Api/FlareController.php:184-221 | For a numeric radius, the entries are exactly the known places strictly inside it, none added or dropped, in non-decreasing distance, each with its distance from the query point and, as `flare_count`, the number of flares strictly inside the radius around that place's own coordinates. |
| `NearbyQuery.NearbyKnownPlaces` | app/Http/Controllers/Api/FlareController.php:171-222 | The query fails with a server error exactly when the radius is sent as null, because the query builder refuses `having` with `<` and null. Otherwise it lists at most as many places as the table holds. |
| `NearbyQuery.NearbyKnownPlacesAreRankedSubset` | app/Http/Controllers/Api/FlareController.php:171-222 | Whenever the query answers, it lists exactly the known places strictly closer than the radius (200 m when omitted), none added or dropped, in non-decreasing distance, each with its own distance. Each entry's `flare_count` is the number of flares strictly inside the radius around that place's own coordinates, so it does not depend on the query point. |
| `NearbyQuery.CountIndependentOfQueryPoint` | app/Http/Controllers/Api/FlareController.php:199-212 | Two answers with the same radius, from any two query points, give every place they both list the same flare count. |
| `NearbyQuery.IntendedRadius` | app/Http/Controllers/Api/FlareController.php:176-181 | The corrected default: a numeric radius is used as given, and an omitted or null radius means 200 m. |
| `NearbyQuery.NearbyKnownPlacesDefaulted` | app/Http/Controllers/Api/FlareController.php:171-222 | The corrected query always answers, ranking with the corrected radius. |
| `NearbyQuery.EmptyRadiusFails` | app/Http/Controllers/Api/FlareController.php:176-196 | When a known place lies within 200 m, the query as written still fails on a null radius, while the corrected query lists that place. |
| `NearbyQuery.DefaultedQueryAgrees` | app/Http/Controllers/Api/FlareController.php:171-222 | The corrected query answers a null radius exactly as the query as written answers an omitted one, and agrees with it on every radius that is not null. |
| `AdminController.DeleteUser` | app/Http/Controllers/AdminController.php:40-54 | An unknown user gives 404. Deleting oneself gives an error, and no user or flare is deleted. Otherwise exactly that user goes, with exactly the flares they own. Other users and their flares are untouched, and every remaining flare's owner still exists. |
| `AdminController.DeleteFlare` | app/Http/Controllers/AdminController.php:56-66 | An unknown flare gives 404. Otherwise exactly that flare is removed, with a success message. |
| `AdminController.ToggleAdmin` | app/Http/Controllers/AdminController.php:68-80 | Toggling oneself gives an error and leaves `is_admin` unchanged. For another user, only that user's `is_admin` is negated. The success message says "granted" exactly when the user is now an admin, and "revoked" exactly when they are not. |
| `AdminController.ToggleTwiceRestores` | app/Http/Controllers/AdminController.php:75-76 | Toggling another user twice gives back the users table unchanged. |
| `AdminMiddleware.Handle` | app/Http/Middleware/EnsureUserIsAdmin.php:11-24 | With no user, the request is redirected to the `login` route. A signed-in non-admin gets a 403 abort. The request reaches the next handler exactly when a user is present and is an admin, and it is passed on unchanged. |
| `FlareAccessors.PhotoUrl` | app/Models/Flare.php:46-49 | The URL is null exactly when the photo path is null, `""` or `"0"`. Otherwise it is the asset URL of `storage/` followed by the path. |
| `FlareAccessors.DisplayName` | app/Models/Flare.php:52-55 | The display name is the owner's username when present (even if empty). Next comes the owner's name. With no owner, or neither field, it is `Anonymous`. |

## Left out

- Distance arithmetic is not modelled. This covers the haversine closure (FlareController.php:67-75), the SQL `acos` expression, and the `round()` of the returned distance. Distances are unrounded reals. NaN or NULL results of `acos` are not modelled.
- SQL, Eloquent and pagination internals are not modelled. The tie order of `orderBy("distance")` is unspecified in SQL; the model keeps table order for ties, and the proved properties are those any correct ordering has. `KnownPlace::all()` is a sequence whose order is an input.
- File storage is not modelled. The path `->store()` gives is a field of the upload. Deleting the photo file in `deleteFlare` is not modelled. `asset()` is a function parameter.
- Validation is reduced to the rules that decide a 422: note presence and length, and photo type and size. Latitude and longitude are `required|numeric` in `store` (FlareController.php:33-34) and in `nearbyKnownPlaces` (:174-175), and the radius is `nullable|numeric` (:176). The model takes them as `real` parameters, and a radius is omitted, null or a number, so the model cannot express a request that fails those rules. Categories are a datatype, so an unknown category cannot be expressed. The `place` array rules are not modelled. Note length counts characters.
- Store, Update, Contribute: validation sees each field as the controller receives it, and the note is stored as sent. The framework's default middleware, which trims request strings and turns blank ones into null, is not modelled, because the bootstrap that installs it is not part of this model. With it, notes are stored trimmed, and a blank note reaches `update` as null and gets 422.
- `Place::firstOrCreate` and UUID generation are not modelled. The place id is an input.
- Routing, throttling, CORS and Sanctum are not modelled. Actions that require sign-in take the actor's id as a plain parameter.
- `index`, `show`, the admin listing pages and the dashboard statistics are not modelled. They only read.
- `UserController` (profile, profile photo and the user's own flares) is not modelled. It is not part of the matching and access-rule core.
- Owner comparisons use value equality. PHP's `!==` would also refuse when the driver returns `user_id` as a string; that depends on the database driver and is not modelled.
- app/Models/User.php is not part of this model. `$user->flares()` is taken to be the flares whose `user_id` is that user's id.
- Migrations are not modelled, including the `set null` foreign key on `known_place_id`. Known places are never deleted here.

## Findings

| source | as written | input that shows it | evidently intended | confidence | as-written member | corrected member |
|---|---|---|---|---|---|---|
| app/Http/Controllers/Api/FlareController.php:176-196 | `nullable\|numeric` accepts a null radius, and `input('radius', 200)` replaces only a missing field, so the radius stays null. `having("distance", "<", null)` is then refused by the query builder, and the request ends in a server error. | `GET /api/flares/nearby/known-places?latitude=0&longitude=0&radius=` (the empty field becomes null), or a JSON body with `"radius": null`, with a known place at the query point | A null radius falls back to 200 m, as an omitted one does | medium, not executed | `NearbyQuery.EmptyRadiusFails` | `NearbyQuery.NearbyKnownPlacesDefaulted` |
