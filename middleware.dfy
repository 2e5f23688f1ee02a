/**
 * The route guard of `src/middleware.ts`: a decision over the request path
 * and the `token` cookie. Signed-in visitors are sent away from the public
 * pages to the dashboard, anonymous visitors away from every other page to
 * the home page; everything else passes through.
 */
module Middleware {
  import opened Optional

  datatype Outcome = PassThrough | Redirect(location: string)

  const DashboardPath := "/dashboard"
  const HomePath := "/"

  predicate IsPublicPath(path: string) {
    path == "/" || path == "/login" || path == "/register"
  }

  /** `request.cookies.get('token')?.value || ''`. */
  function TokenOf(cookie: Option<string>): string {
    if cookie.Some? then cookie.value else ""
  }

  /** `middleware(request)`: an empty token counts as no token. */
  function Guard(path: string, cookie: Option<string>): (r: Outcome)
    ensures r == Redirect(DashboardPath) <==> IsPublicPath(path) && TokenOf(cookie) != ""
    ensures r == Redirect(HomePath) <==> !IsPublicPath(path) && TokenOf(cookie) == ""
    ensures r == PassThrough <==> (IsPublicPath(path) <==> TokenOf(cookie) == "")
  {
    var isPublic := IsPublicPath(path);
    var token := TokenOf(cookie);
    if isPublic && token != "" then Redirect(DashboardPath)
    else if !isPublic && token == "" then Redirect(HomePath)
    else PassThrough
  }

  /** Exactly three paths are public. */
  lemma PublicPathsExactly(path: string)
    ensures IsPublicPath(path) <==> path in {"/", "/login", "/register"}
  {
  }

  /** A missing cookie and an empty one are treated alike. */
  lemma MissingCookieIsEmptyToken(path: string)
    ensures Guard(path, None) == Guard(path, Some(""))
  {
  }

  /** No redirect loop: the page redirected to lets the same visitor through. */
  lemma NoRedirectLoop(path: string, cookie: Option<string>)
    requires Guard(path, cookie).Redirect?
    ensures Guard(Guard(path, cookie).location, cookie) == PassThrough
  {
  }
}
