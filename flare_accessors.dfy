/** The computed attributes of a flare (app/Models/Flare.php). */
module FlareAccessors {

  import opened Wrappers
  import opened Records

  const AnonymousName: string := "Anonymous"
  const StorageDirectory: string := "storage/"

  /** PHP truthiness of a nullable string: null, "" and "0" are all false. */
  predicate Truthy(s: Option<string>) {
    s.Some? && s.value != "" && s.value != "0"
  }

  /**
   * `photo_url`: the public asset URL of the stored photo, or null.
   * `asset` is the framework's URL builder, taken as a parameter.
   */
  function PhotoUrl(photoPath: Option<string>, asset: string -> string): (url: Option<string>)
    ensures url.None? <==> photoPath.None? || photoPath.value == "" || photoPath.value == "0"
    ensures url.Some? ==> url.value == asset(StorageDirectory + photoPath.value)
  {
    if Truthy(photoPath) then Some(asset(StorageDirectory + photoPath.value)) else None
  }

  /**
   * `user_display_name`: the owner's username, else the owner's name, else "Anonymous".
   * Only null falls through: an empty username is still the display name.
   */
  function DisplayName(owner: Option<User>): (name: string)
    ensures owner.Some? && owner.value.username.Some? ==> name == owner.value.username.value
    ensures owner.Some? && owner.value.username.None? && owner.value.name.Some? ==> name == owner.value.name.value
    ensures owner.None? || (owner.value.username.None? && owner.value.name.None?) ==> name == AnonymousName
  {
    match owner
    case None => AnonymousName
    case Some(u) => u.username.GetOr(u.name.GetOr(AnonymousName))
  }

}
