/** The client router: its route table and the `beforeEach` guard that
    keeps signed-in users off the login page and signed-out users off
    protected pages. */
module NavGuard {
  import opened Wrappers
  import opened Text
  import AuthStore

  /** The route meta flags the guard reads, as their truthiness. */
  datatype Meta = Meta(requiresGuest: bool, requiresAuth: bool)

  const NoMeta: Meta := Meta(false, false)

  datatype Route = Route(path: string, name: string, meta: Meta)

  /** The declared routes, in order. */
  const Routes: seq<Route> := [
    Route("/", "Home", NoMeta),
    Route("/map", "Map", NoMeta),
    Route("/marketplace", "Marketplace", NoMeta),
    Route("/login", "Login", Meta(true, false)),
    Route("/auth/callback", "AuthCallback", NoMeta)
  ]

  const HomePath: string := "/"
  const LoginPath: string := "/login"

  /** What the guard hands to `next`. */
  datatype Decision = Proceed | Redirect(to: string)

  /** The guard: the guest check comes first, then the auth check. */
  function Guard(meta: Meta, authenticated: bool): (d: Decision)
    ensures d == Redirect(HomePath) <==> meta.requiresGuest && authenticated
    ensures d == Redirect(LoginPath) <==> !(meta.requiresGuest && authenticated) && meta.requiresAuth && !authenticated
    ensures d == Proceed <==> !(meta.requiresGuest && authenticated) && !(meta.requiresAuth && !authenticated)
  {
    if meta.requiresGuest && authenticated then Redirect(HomePath)
    else if meta.requiresAuth && !authenticated then Redirect(LoginPath)
    else Proceed
  }

  /** A path in lower case, as a case-insensitive matcher compares it. */
  function Lower(s: string): (r: string)
    ensures |r| == |s| && forall i :: 0 <= i < |s| ==> r[i] == LowerAscii(s[i])
  {
    seq(|s|, i requires 0 <= i < |s| => LowerAscii(s[i]))
  }

  /** The path without one trailing slash. */
  function DropSlash(s: string): string {
    if |s| > 0 && s[|s| - 1] == '/' then s[..|s| - 1] else s
  }

  /** The router is created with the default options, which are neither
      `strict` nor `sensitive`: a route path matches a requested path that
      equals it ignoring ASCII case and one trailing slash (`^/login/?$`
      with the `i` flag). */
  predicate PathMatches(routePath: string, path: string) {
    DropSlash(Lower(path)) == DropSlash(routePath)
  }

  /** The meta of the first route the path matches; a path matching no
      route carries no meta. */
  function MetaOf(path: string): (m: Meta)
    ensures m != NoMeta ==> exists i :: 0 <= i < |Routes| && PathMatches(Routes[i].path, path) && Routes[i].meta == m
  {
    MetaIn(Routes, path)
  }

  function MetaIn(routes: seq<Route>, path: string): (m: Meta)
    ensures m != NoMeta ==> exists i :: 0 <= i < |routes| && PathMatches(routes[i].path, path) && routes[i].meta == m
    decreases |routes|
  {
    if |routes| == 0 then NoMeta
    else if PathMatches(routes[0].path, path) then routes[0].meta
    else
      var m := MetaIn(routes[1..], path);
      assert m != NoMeta ==> exists i :: 1 <= i < |routes| && PathMatches(routes[i].path, path) && routes[i].meta == m by {
        if m != NoMeta {
          var j :| 0 <= j < |routes[1..]| && PathMatches(routes[1..][j].path, path) && routes[1..][j].meta == m;
          assert routes[j + 1] == routes[1..][j];
        }
      }
      m
  }

  /** The requested path resolves to the login route. */
  predicate IsLoginPath(path: string) {
    DropSlash(Lower(path)) == LoginPath
  }

  /** The login route is reached by its path in any ASCII case, with or
      without a trailing slash, and by nothing else. */
  lemma LoginPathSpellings(path: string)
    ensures IsLoginPath(path) <==> Lower(path) == "/login" || Lower(path) == "/login/"
    ensures IsLoginPath("/login") && IsLoginPath("/LOGIN") && IsLoginPath("/Login/")
    ensures !IsLoginPath("/") && !IsLoginPath("/login//")
  {
    var p := Lower(path);
    if Lower(path) == "/login/" {
      assert DropSlash(p) == p[..6];
    }
    assert Lower("/login") == "/login";
    assert Lower("/LOGIN") == "/login";
    assert Lower("/Login/") == "/login/";
    assert DropSlash("/login/") == "/login";
    assert Lower("/") == "/" && DropSlash("/") == "";
    assert Lower("/login//") == "/login//" && DropSlash("/login//") == "/login/";
  }

  /** The route paths as the matcher compares them. */
  lemma RoutePathForms()
    ensures DropSlash(Routes[0].path) == "" && DropSlash(Routes[1].path) == "/map"
    ensures DropSlash(Routes[2].path) == "/marketplace" && DropSlash(Routes[3].path) == LoginPath
    ensures DropSlash(Routes[4].path) == "/auth/callback"
  {
    assert Routes[0].path == "/" && Routes[1].path == "/map" && Routes[2].path == "/marketplace";
    assert Routes[3].path == "/login" && Routes[4].path == "/auth/callback";
  }

  /** The table read path by path: only the login page has any meta. */
  lemma MetaOfTable(path: string)
    ensures MetaOf(path) == if IsLoginPath(path) then Meta(true, false) else NoMeta
  {
    RoutePathForms();
    assert MetaIn(Routes[5..], path) == NoMeta;
    assert Routes[4..][1..] == Routes[5..];
    assert MetaIn(Routes[4..], path) == NoMeta;
    assert Routes[3..][1..] == Routes[4..];
    assert MetaIn(Routes[3..], path) == if IsLoginPath(path) then Meta(true, false) else NoMeta;
    assert Routes[2..][1..] == Routes[3..];
    assert MetaIn(Routes[2..], path) == MetaIn(Routes[3..], path);
    assert Routes[1..][1..] == Routes[2..];
    assert MetaIn(Routes[1..], path) == MetaIn(Routes[3..], path);
    assert MetaIn(Routes, path) == MetaIn(Routes[3..], path);
  }

  /** Navigating to a path with the auth store in a given state. */
  function Navigate(st: AuthStore.AuthState, path: string): (d: Decision)
    ensures d == Guard(MetaOf(path), AuthStore.IsAuthenticated(st))
  {
    Guard(MetaOf(path), AuthStore.IsAuthenticated(st))
  }

  /** Only the login page is guest-only and no route needs a signed-in
      user, so the guard never sends anyone to the login page and turns
      away exactly the signed-in visits to it, however the path is cased
      or ended. */
  lemma OnlyLoginIsGuarded(st: AuthStore.AuthState, path: string)
    ensures MetaOf(path).requiresGuest <==> IsLoginPath(path)
    ensures !MetaOf(path).requiresAuth
    ensures Navigate(st, path) != Redirect(LoginPath)
    ensures Navigate(st, path) == Redirect(HomePath) <==> IsLoginPath(path) && AuthStore.IsAuthenticated(st)
  {
    MetaOfTable(path);
  }

  /** Whatever the meta, following a redirect once lands on a page the
      guard lets through: there is no redirect loop. */
  lemma RedirectTargetProceeds(meta: Meta, authenticated: bool)
    requires Guard(meta, authenticated).Redirect?
    ensures Guard(MetaOf(Guard(meta, authenticated).to), authenticated) == Proceed
  {
    MetaOfTable(Guard(meta, authenticated).to);
    LoginPathSpellings(Guard(meta, authenticated).to);
  }
}
