/** The admission check in front of the admin pages (app/Http/Middleware/EnsureUserIsAdmin.php). */
module AdminMiddleware {

  import opened Wrappers
  import opened Records

  const LoginRoute: string := "login"
  const AdminRequiredMessage: string := "Unauthorized. Admin access required."

  /** What the middleware does with a request: send it on, redirect it, or abort it. */
  datatype Outcome<Req> =
    | RedirectTo(route: string)
    | Abort(status: nat, message: string)
    | Next(request: Req)

  /**
   * `handle`: `user` is the request's authenticated user, if any.
   * Guests are redirected to the login route; signed-in non-admins get a 403 abort.
   */
  function Handle<Req>(request: Req, user: Option<User>): (r: Outcome<Req>)
    ensures user.None? ==> r == RedirectTo(LoginRoute)
    ensures user.Some? && !user.value.isAdmin ==> r == Abort(403, AdminRequiredMessage)
    ensures r.Next? <==> user.Some? && user.value.isAdmin
    ensures r.Next? ==> r.request == request
  {
    if user.None? || !user.value.isAdmin then
      if user.None? then RedirectTo(LoginRoute)
      else Abort(403, AdminRequiredMessage)
    else
      Next(request)
  }
}
