/**
 * The admin actions on users and flares (app/Http/Controllers/AdminController.php).
 * `actor` is the signed-in admin; the target row comes from route-model binding, which
 * answers 404 when the key names no row.
 */
module AdminController {

  import opened Wrappers
  import opened Records
  import opened Tables

  const SelfDeleteMessage: string := "You cannot delete your own account."
  const UserDeletedMessage: string := "User and all their flares have been deleted successfully."
  const FlareDeletedMessage: string := "Flare has been deleted successfully."
  const SelfToggleMessage: string := "You cannot modify your own admin status."
  const GrantedMessage: string := "User granted admin access."
  const RevokedMessage: string := "User admin access revoked."

  /** A 404, or a redirect back carrying an `error` or a `success` flash message. */
  datatype Reply = NotFound | Error(message: string) | Success(message: string)

  /** `deleteUser`: an admin deletes another user together with all of that user's flares. */
  method DeleteUser(db: Database, actor: UserId, target: UserId) returns (reply: Reply)
    requires db.Valid()
    modifies db`users, db`flares
    ensures db.Valid()
    ensures target !in old(db.users) ==>
              reply == NotFound && db.users == old(db.users) && db.flares == old(db.flares)
    ensures target in old(db.users) && target == actor ==>
              reply == Error(SelfDeleteMessage) && db.users == old(db.users) && db.flares == old(db.flares)
    ensures target in old(db.users) && target != actor ==>
              && reply == Success(UserDeletedMessage)
              && db.users == old(db.users) - {target}
              && (forall id :: id in db.flares <==> id in old(db.flares) && old(db.flares)[id].userId != Some(target))
              && (forall id :: id in db.flares ==> db.flares[id] == old(db.flares)[id])
  {
    if target !in db.users {
      return NotFound;
    }
    if target == actor {
      return Error(SelfDeleteMessage);
    }
    db.flares := map id | id in db.flares && db.flares[id].userId != Some(target) :: db.flares[id];
    db.users := db.users - {target};
    reply := Success(UserDeletedMessage);
  }

  /** `deleteFlare`: an admin deletes any flare (its photo file is removed too, not modelled). */
  method DeleteFlare(db: Database, id: FlareId) returns (reply: Reply)
    requires db.Valid()
    modifies db`flares
    ensures db.Valid()
    ensures id !in old(db.flares) ==> reply == NotFound && db.flares == old(db.flares)
    ensures id in old(db.flares) ==> reply == Success(FlareDeletedMessage) && db.flares == old(db.flares) - {id}
  {
    if id !in db.flares {
      return NotFound;
    }
    db.flares := db.flares - {id};
    reply := Success(FlareDeletedMessage);
  }

  /** `toggleAdmin`: an admin grants or revokes another user's admin flag. */
  method ToggleAdmin(db: Database, actor: UserId, target: UserId) returns (reply: Reply)
    requires db.Valid()
    modifies db`users
    ensures db.Valid()
    ensures target !in old(db.users) ==> reply == NotFound && db.users == old(db.users)
    ensures target in old(db.users) && target == actor ==>
              reply == Error(SelfToggleMessage) && db.users == old(db.users)
    ensures target in old(db.users) && target != actor ==>
              && db.users == old(db.users)[target := old(db.users)[target].(isAdmin := !old(db.users)[target].isAdmin)]
              && reply.Success?
              && (reply.message == GrantedMessage <==> db.users[target].isAdmin)
              && (reply.message == RevokedMessage <==> !db.users[target].isAdmin)
  {
    if target !in db.users {
      return NotFound;
    }
    if target == actor {
      return Error(SelfToggleMessage);
    }
    var user := db.users[target];
    user := user.(isAdmin := !user.isAdmin);
    db.users := db.users[target := user];
    var message := if user.isAdmin then GrantedMessage else RevokedMessage;
    reply := Success(message);
  }

  /** Toggling another user twice gives the users table back unchanged. */
  method ToggleTwiceRestores(db: Database, actor: UserId, target: UserId)
    requires db.Valid() && target in db.users && target != actor
    modifies db`users
    ensures db.Valid()
    ensures db.users == old(db.users)
  {
    var first := ToggleAdmin(db, actor, target);
    var second := ToggleAdmin(db, actor, target);
  }
}
