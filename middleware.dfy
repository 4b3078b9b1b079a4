/** The request gate (`middleware.ts`): anonymous requests for the driver
    pages are sent to the login page, everything else passes through. */
module Middleware {
  import opened Common

  /** `NextResponse.next()` or `NextResponse.redirect(...)` to a path. */
  datatype Response = Next | Redirect(target: string)

  const LoginPath: string := "/Auth/login"

  /** `middleware(req)`, for the signed-in user (if any) the session cookie
      yields and the request's path name. */
  function Gate(user: Option<Id>, pathname: string): (r: Response)
    ensures r.Redirect? <==> user.None? && |pathname| >= 7 && pathname[..7] == "/chofer"
    ensures r.Redirect? ==> r.target == "/Auth/login"
  {
    if user.None? && StartsWith(pathname, "/chofer") then Redirect(LoginPath) else Next
  }

  /** A signed-in user always passes, whatever the path. */
  lemma SignedInPasses(user: Id, pathname: string)
    ensures Gate(Some(user), pathname) == Next
  {
  }

  /** A path outside `/chofer` always passes, signed in or not. */
  lemma OtherPathsPass(user: Option<Id>, pathname: string)
    requires !StartsWith(pathname, "/chofer")
    ensures Gate(user, pathname) == Next
  {
  }

  /** Every page under `/chofer/` is protected for anonymous requests. */
  lemma DriverPagesProtected(rest: string)
    ensures Gate(None, "/chofer/" + rest) == Redirect("/Auth/login")
  {
    assert ("/chofer/" + rest)[..7] == "/chofer";
  }
}
