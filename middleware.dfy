/**
 * middleware.ts: the page gate. Public API prefixes and the public pages
 * pass; a path under `/master` or `/player` without a session cookie is
 * sent to `/login?redirect=<path>`; everything else passes.
 */
module Middleware {
  import opened Wrappers
  import opened Store

  datatype Decision = Next | RedirectToLogin(redirect: string)

  const PublicRoutes: seq<string> := ["/", "/login"]
  const PublicApiRoutes: seq<string> := ["/api/auth/login", "/api/users"]
  const ProtectedRoutes: seq<string> := ["/master", "/player"]

  /** `routes.some(route => pathname.startsWith(route))`. */
  predicate StartsWithAny(pathname: string, routes: seq<string>) {
    exists k :: 0 <= k < |routes| && StartsWith(pathname, routes[k])
  }

  /**
   * `middleware(request)` for the request's path and its `veritas_session`
   * cookie; `!request.cookies.get('veritas_session')?.value` is `Missing`.
   */
  function Decide(pathname: string, sessionCookie: Option<string>): (decision: Decision)
    ensures decision.RedirectToLogin? <==>
      && !StartsWithAny(pathname, PublicApiRoutes)
      && pathname !in PublicRoutes
      && StartsWithAny(pathname, ProtectedRoutes)
      && Missing(sessionCookie)
    ensures decision.RedirectToLogin? ==> decision.redirect == pathname
  {
    if StartsWithAny(pathname, PublicApiRoutes) then Next
    else if pathname in PublicRoutes then Next
    else if StartsWithAny(pathname, ProtectedRoutes) && Missing(sessionCookie) then RedirectToLogin(pathname)
    else Next
  }

  /** Any non-empty cookie value opens every page: its contents are never checked. */
  lemma AnySessionPasses(pathname: string, cookie: string)
    requires cookie != []
    ensures Decide(pathname, Some(cookie)) == Next
  {
  }

  /** The master and player areas, and everything below them, are closed without a session. */
  lemma ProtectedAreasRedirect(area: string, rest: string, sessionCookie: Option<string>)
    requires area in ProtectedRoutes && Missing(sessionCookie)
    ensures Decide(area + rest, sessionCookie) == RedirectToLogin(area + rest)
  {
    var pathname := area + rest;
    assert pathname[..|area|] == area;
    assert StartsWith(pathname, area);
    assert !StartsWithAny(pathname, PublicApiRoutes) by {
      assert pathname[1] == area[1];
    }
  }

  /** Whatever follows a public API prefix passes, with or without a session. */
  lemma PublicApiPrefixesPass(route: string, rest: string, sessionCookie: Option<string>)
    requires route in PublicApiRoutes
    ensures Decide(route + rest, sessionCookie) == Next
  {
  }

  /** The prefix test also covers paths that merely begin like an area, such as `/masterclass`. */
  lemma AreaPrefixIsTextual(sessionCookie: Option<string>)
    requires Missing(sessionCookie)
    ensures Decide("/masterclass", sessionCookie) == RedirectToLogin("/masterclass")
  {
    ProtectedAreasRedirect("/master", "class", sessionCookie);
  }
}
