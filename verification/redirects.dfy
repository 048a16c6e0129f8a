/** Redirects to the main platform and to the jobs service: the base path
    the app is served under, the two services' base paths derived from it,
    the redirect path with a route appended, and the authentication query
    parameters, with explicit arguments taking precedence over the token
    and user kept in local storage. Resolving the path against the page's
    origin and percent-encoding the query are not modelled: a redirect
    target is its path and its list of query parameters. */
module Redirects {
  import opened Js
  import opened Strings

  // ===========================================================================
  // Base paths
  // ===========================================================================

  /** `s.replace(/\/$/, '')`: one trailing slash dropped. */
  function StripSlash(s: string): (r: string)
    ensures s == r || s == r + "/"
    ensures |s| > 0 && s[|s| - 1] == '/' ==> |r| == |s| - 1
  {
    if |s| > 0 && s[|s| - 1] == '/' then s[..|s| - 1] else s
  }

  /** `getBaseUrl`: the configured base path without one trailing slash,
      `""` when none is configured or there is no window. */
  function BaseUrl(hasWindow: bool, configured: Option<string>): (r: string)
    ensures !hasWindow || configured.None? ==> r == []
    ensures hasWindow && configured.Some? ==> configured.value == r || configured.value == r + "/"
  {
    if !hasWindow then []
    else match configured
      case None => []
      case Some(b) => StripSlash(b)
  }

  const Profiling: string := "/profiling"
  const Jobs: string := "/jobs"

  /** `s.replace(pat, rep)` with a string pattern: the first occurrence
      replaced, if any. */
  function ReplaceFirst(s: string, pat: string, rep: string): (r: string)
    ensures !Contains(s, pat) ==> r == s
    ensures Contains(s, pat) ==> |r| == |s| - |pat| + |rep|
  {
    var k := IndexOf(s, pat);
    if k == -1 then s else s[..k] + rep + s[k + |pat|..]
  }

  /** `getSomethingXUrl`: the base with its first `/profiling` removed;
      without one, the base, or `/` for an empty base. */
  function SomethingXUrl(base: string): (r: string)
    ensures !Contains(base, Profiling) ==> r == Or(base, "/")
    ensures Contains(base, Profiling) ==> |r| == |base| - |Profiling|
    ensures Contains(base, Profiling) ==>
              var k := IndexOf(base, Profiling); r == base[..k] + base[k + |Profiling|..]
  {
    if Contains(base, Profiling) then ReplaceFirst(base, Profiling, []) else Or(base, "/")
  }

  /** `getJobsUrl`: the base with its first `/profiling` replaced by
      `/jobs`; without one, the base followed by `/jobs`. */
  function JobsUrl(base: string): (r: string)
    ensures !Contains(base, Profiling) ==> r == base + Jobs
    ensures Contains(base, Profiling) ==>
              var k := IndexOf(base, Profiling); r == base[..k] + Jobs + base[k + |Profiling|..]
  {
    if Contains(base, Profiling) then ReplaceFirst(base, Profiling, Jobs) else base + Jobs
  }

  /** `pat` occurs at `k` and nowhere before. */
  predicate FirstAt(s: string, pat: string, k: int) {
    OccursAt(s, pat, k) && forall j :: 0 <= j < k ==> !OccursAt(s, pat, j)
  }

  /** The first occurrence is the one `indexOf` finds. */
  lemma FirstAtIsIndexOf(s: string, pat: string, k: int)
    requires FirstAt(s, pat, k)
    ensures IndexOf(s, pat) == k
  {
    assert IndexOf(s, pat) != -1;
  }

  /** Replacing the first occurrence of `pat`, found by position: the text
      before it and after it are kept, and `rep` sits in its place. */
  lemma ReplaceFirstAt(s: string, pat: string, rep: string, k: int)
    requires FirstAt(s, pat, k)
    ensures ReplaceFirst(s, pat, rep) == s[..k] + rep + s[k + |pat|..]
  {
    FirstAtIsIndexOf(s, pat, k);
  }

  /** Both service paths cut the base at its first `/profiling`: the main
      platform's path drops that segment, and the jobs path puts `/jobs`
      in its place. */
  lemma ProfilingSegmentReplaced(base: string, k: int)
    requires FirstAt(base, Profiling, k)
    ensures SomethingXUrl(base) == base[..k] + base[k + |Profiling|..]
    ensures JobsUrl(base) == base[..k] + Jobs + base[k + |Profiling|..]
  {
    ReplaceFirstAt(base, Profiling, [], k);
    ReplaceFirstAt(base, Profiling, Jobs, k);
  }

  /** The jobs service sits where `/profiling` was removed from the main
      platform's path; without `/profiling` it is the main platform's path
      followed by `/jobs`, except that the root `/` is not doubled. */
  lemma JobsBesideSomethingX(base: string)
    ensures var k := IndexOf(base, Profiling);
            var main := SomethingXUrl(base);
            && (k != -1 ==> k <= |main| && JobsUrl(base) == main[..k] + Jobs + main[k..])
            && (k == -1 && base != [] ==> JobsUrl(base) == main + Jobs)
            && (base == [] ==> main == "/" && JobsUrl(base) == Jobs)
  {
    var k := IndexOf(base, Profiling);
    if k != -1 {
      var main := SomethingXUrl(base);
      assert main == base[..k] + base[k + |Profiling|..];
      assert main[..k] == base[..k];
      assert main[k..] == base[k + |Profiling|..];
    }
  }

  // ===========================================================================
  // Redirect paths
  // ===========================================================================

  /** The route as appended to a path: nothing for an empty route, else
      the route with a leading slash added when it has none. */
  function RouteSuffix(route: string): (r: string)
    ensures route == [] <==> r == []
    ensures r != [] ==> r[0] == '/'
  {
    if route == [] then []
    else if StartsWith(route, "/") then route
    else "/" + route
  }

  /** The path `buildRedirectUrl` resolves: the base without one trailing
      slash, then the route. */
  function FullPath(baseUrl: string, route: string): (r: string)
    ensures route == [] ==> r == StripSlash(baseUrl)
    ensures |StripSlash(baseUrl)| <= |r| && r[..|StripSlash(baseUrl)|] == StripSlash(baseUrl)
    ensures route != [] && route[0] == '/' ==> |route| <= |r| && r[|r| - |route|..] == route
  {
    StripSlash(baseUrl) + RouteSuffix(route)
  }

  /** A route with or without its leading slash leads to the same path,
      and the route is kept whole at the end of the path. */
  lemma RouteSlashOptional(baseUrl: string, route: string)
    requires route != [] && route[0] != '/'
    ensures FullPath(baseUrl, "/" + route) == FullPath(baseUrl, route)
    ensures var p := FullPath(baseUrl, route);
            |p| > |route| && p[|p| - |route| - 1] == '/' && p[|p| - |route|..] == route
  {
    assert StartsWith("/" + route, "/") by {
      assert ("/" + route)[0..1] == "/";
    }
    assert !StartsWith(route, "/") by {
      assert route[0..1] != "/";
    }
  }

  // ===========================================================================
  // Query parameters
  // ===========================================================================

  /** A user as read from an argument or from storage: `email`, `name` and
      `userType`, `""` when missing. */
  datatype User = User(email: string, name: string, userType: string)

  /** A redirect target: the path and the query parameters set on it. */
  datatype Target = Target(path: string, query: seq<(string, string)>)

  function Param(key: string, value: string): seq<(string, string)> {
    if value != [] then [(key, value)] else []
  }

  /** The parameters `buildRedirectUrl` sets, in order: the token and the
      user's email, name and type, each only when it is non-empty. */
  function QueryParams(token: string, user: Option<User>): (r: seq<(string, string)>)
    ensures |r| <= 4
    ensures |r| == 0 <==> token == [] && (user.None? || user.value == User([], [], []))
  {
    var u := if user.Some? then user.value else User([], [], []);
    Param("token", token) + Param("email", u.email) + Param("name", u.name) + Param("userType", u.userType)
  }

  /** A parameter is present, with its value, exactly when that value is
      non-empty, and only these four are ever set. */
  lemma QueryParamsPresent(token: string, user: Option<User>)
    ensures var q := QueryParams(token, user);
            var u := if user.Some? then user.value else User([], [], []);
            && (("token", token) in q <==> token != [])
            && (("email", u.email) in q <==> u.email != [])
            && (("name", u.name) in q <==> u.name != [])
            && (("userType", u.userType) in q <==> u.userType != [])
            && (forall p :: p in q ==> p.0 in ["token", "email", "name", "userType"] && p.1 != [])
  {
    var u := if user.Some? then user.value else User([], [], []);
    var a, b, c, d := Param("token", token), Param("email", u.email), Param("name", u.name), Param("userType", u.userType);
    assert QueryParams(token, user) == a + b + c + d;
  }

  /** The key of the parameter at position `i` of the list made of four
      blocks of at most one parameter each, keyed in turn. */
  lemma BlockKey(a: seq<(string, string)>, b: seq<(string, string)>, c: seq<(string, string)>,
                 d: seq<(string, string)>, i: int)
    requires |a| <= 1 && |b| <= 1 && |c| <= 1 && |d| <= 1
    requires (forall p :: p in a ==> p.0 == "token") && (forall p :: p in b ==> p.0 == "email")
    requires (forall p :: p in c ==> p.0 == "name") && (forall p :: p in d ==> p.0 == "userType")
    requires 0 <= i < |a + b + c + d|
    ensures var q := a + b + c + d;
            && (i < |a| ==> q[i].0 == "token")
            && (|a| <= i < |a| + |b| ==> q[i].0 == "email")
            && (|a| + |b| <= i < |a| + |b| + |c| ==> q[i].0 == "name")
            && (|a| + |b| + |c| <= i ==> q[i].0 == "userType")
  {
    var q := a + b + c + d;
    if i < |a| {
      assert q[i] == a[i] && a[i] in a;
    } else if i < |a| + |b| {
      assert q[i] == b[i - |a|] && b[i - |a|] in b;
    } else if i < |a| + |b| + |c| {
      assert q[i] == c[i - |a| - |b|] && c[i - |a| - |b|] in c;
    } else {
      assert q[i] == d[i - |a| - |b| - |c|] && d[i - |a| - |b| - |c|] in d;
    }
  }

  /** Each parameter is set at most once. */
  lemma QueryParamsSetOnce(token: string, user: Option<User>)
    ensures var q := QueryParams(token, user);
            forall i, j :: 0 <= i < j < |q| ==> q[i].0 != q[j].0
  {
    var u := if user.Some? then user.value else User([], [], []);
    var a, b, c, d := Param("token", token), Param("email", u.email), Param("name", u.name), Param("userType", u.userType);
    var q := QueryParams(token, user);
    assert q == a + b + c + d;
    forall i, j | 0 <= i < j < |q|
      ensures q[i].0 != q[j].0
    {
      BlockKey(a, b, c, d, i);
      BlockKey(a, b, c, d, j);
    }
  }

  // ===========================================================================
  // Redirects
  // ===========================================================================

  /** `buildRedirectUrl`. */
  function BuildRedirect(baseUrl: string, route: string, token: string, user: Option<User>): (r: Target)
    ensures |StripSlash(baseUrl)| <= |r.path| && r.path[..|StripSlash(baseUrl)|] == StripSlash(baseUrl)
    ensures route == [] ==> r.path == StripSlash(baseUrl)
    ensures ("token", token) in r.query <==> token != []
    ensures forall p :: p in r.query ==> p.0 in ["token", "email", "name", "userType"] && p.1 != []
  {
    QueryParamsPresent(token, user);
    Target(FullPath(baseUrl, route), QueryParams(token, user))
  }

  /** The user kept in storage: none (missing or empty), text that parses
      as JSON to a user or to `null`, or text that does not parse. */
  datatype StoredUser = NoStoredUser | ParsesTo(user: Option<User>) | Malformed

  /** The token used: the argument, else the stored one (`""` when none). */
  function ResolveToken(token: string, stored: string): (r: string)
    ensures token != [] ==> r == token
    ensures token == [] ==> r == stored
  {
    Or(token, stored)
  }

  /** The user used: the argument, else the stored one; `None` in the
      outer option when the stored text has to be parsed and does not
      parse, which throws. */
  function ResolveUser(user: Option<User>, stored: StoredUser): (r: Option<Option<User>>)
    ensures user.Some? ==> r == Some(user)
    ensures r.None? <==> user.None? && stored.Malformed?
  {
    if user.Some? then Some(user)
    else match stored
      case NoStoredUser => Some(None)
      case ParsesTo(u) => Some(u)
      case Malformed => None
  }

  /** The path the main-platform redirect falls back to after an error, as
      written: the route is appended to the main platform's path without
      dropping its trailing slash. */
  function FallbackPathAsWritten(somethingXUrl: string, route: string): (r: string)
    ensures route == [] ==> r == somethingXUrl
    ensures route != [] ==>
              |somethingXUrl| < |r| && r[..|somethingXUrl|] == somethingXUrl
              && r[|somethingXUrl|..] == RouteSuffix(route) && r[|somethingXUrl|] == '/'
  {
    if route == [] then somethingXUrl else somethingXUrl + RouteSuffix(route)
  }

  /** Served from the root, the main platform's path is `/`, and the
      fallback path of a route begins with two slashes, which a browser
      reads as a host name; the regular path has one. */
  lemma FallbackDoubleSlash()
    ensures SomethingXUrl(BaseUrl(true, Some("/"))) == "/"
    ensures FallbackPathAsWritten("/", "/about-us") == "//about-us"
    ensures FullPath("/", "/about-us") == "/about-us"
  {
    assert StartsWith("/about-us", "/") by {
      assert "/about-us"[0..1] == "/";
    }
    assert !Contains([], Profiling);
  }

  /** On any main path ending in `/`, the fallback of a route as written
      holds `//` where the main path ends, and is the regular path with
      that one extra slash: removing it gives the regular path back. */
  lemma FallbackExtraSlash(somethingXUrl: string, route: string)
    requires route != [] && |somethingXUrl| > 0 && somethingXUrl[|somethingXUrl| - 1] == '/'
    ensures var f := FallbackPathAsWritten(somethingXUrl, route);
            var n := |somethingXUrl|;
            && f[n - 1..n + 1] == "//"
            && |f| == |FullPath(somethingXUrl, route)| + 1
            && f[..n - 1] + f[n..] == FullPath(somethingXUrl, route)
  {
    var f := FallbackPathAsWritten(somethingXUrl, route);
    var n := |somethingXUrl|;
    var main := StripSlash(somethingXUrl);
    assert main == somethingXUrl[..n - 1];
    assert f[..n - 1] == main;
    assert f[n..] == RouteSuffix(route);
  }

  /** The fallback path built by the same joining rule as the regular
      redirect path. */
  function FallbackPath(somethingXUrl: string, route: string): (r: string)
    ensures route == [] ==> r == StripSlash(somethingXUrl)
  {
    FullPath(somethingXUrl, route)
  }

  /** The corrected fallback goes to the regular redirect's path, and
      agrees with the path as written whenever the main platform's path
      does not end in a slash. */
  lemma FallbackMatchesRegular(somethingXUrl: string, route: string, token: string, user: Option<User>)
    ensures FallbackPath(somethingXUrl, route) == BuildRedirect(somethingXUrl, route, token, user).path
    ensures (somethingXUrl == [] || somethingXUrl[|somethingXUrl| - 1] != '/') ==>
              FallbackPath(somethingXUrl, route) == FallbackPathAsWritten(somethingXUrl, route)
  {
  }

  /** `redirectToSomethingX`, as written: the regular redirect with the
      resolved token and user, or, when reading the stored user throws,
      the fallback path as written without parameters. */
  function RedirectToSomethingX(base: string, route: string, token: string, user: Option<User>,
                                storedToken: string, storedUser: StoredUser): (r: Target)
    ensures !(user.None? && storedUser.Malformed?) ==> r.path == FullPath(SomethingXUrl(base), route)
    ensures user.None? && storedUser.Malformed? ==>
              r.path == FallbackPathAsWritten(SomethingXUrl(base), route) && r.query == []
  {
    var main := SomethingXUrl(base);
    match ResolveUser(user, storedUser)
    case Some(u) => BuildRedirect(main, route, ResolveToken(token, storedToken), u)
    case None => Target(FallbackPathAsWritten(main, route), [])
  }

  /** Served from the root with a stored user that does not parse, the
      main-platform redirect as written leaves for `//about-us`, where
      the regular path is `/about-us`. */
  lemma RedirectDoubleSlash(storedToken: string)
    ensures BaseUrl(true, Some("/")) == []
    ensures RedirectToSomethingX([], "/about-us", [], None, storedToken, Malformed).path == "//about-us"
    ensures FullPath(SomethingXUrl([]), "/about-us") == "/about-us"
  {
    FallbackDoubleSlash();
  }

  /** `redirectToSomethingX` with the corrected fallback: whatever is
      stored, the path is the route joined to the main URL. */
  function RedirectToSomethingXCorrected(base: string, route: string, token: string, user: Option<User>,
                                         storedToken: string, storedUser: StoredUser): (r: Target)
    ensures r.path == FullPath(SomethingXUrl(base), route)
    ensures user.None? && storedUser.Malformed? ==> r.query == []
    ensures !(user.None? && storedUser.Malformed?) ==>
              r == RedirectToSomethingX(base, route, token, user, storedToken, storedUser)
  {
    var main := SomethingXUrl(base);
    match ResolveUser(user, storedUser)
    case Some(u) => BuildRedirect(main, route, ResolveToken(token, storedToken), u)
    case None => Target(FallbackPath(main, route), [])
  }

  /** `redirectToJobs`: the regular redirect to the jobs service; `None`
      when reading the stored user throws, which is not caught. */
  function RedirectToJobs(base: string, route: string, token: string, user: Option<User>,
                          storedToken: string, storedUser: StoredUser): (r: Option<Target>)
    ensures r.None? <==> user.None? && storedUser.Malformed?
    ensures r.Some? ==> r.value.path == FullPath(JobsUrl(base), route)
  {
    match ResolveUser(user, storedUser)
    case Some(u) => Some(BuildRedirect(JobsUrl(base), route, ResolveToken(token, storedToken), u))
    case None => None
  }

  /** Explicit arguments win: a given token is sent whatever is stored, a
      given user's details are sent even when the stored user would not
      parse, and the stored token is used only without an argument. */
  lemma ExplicitArgumentsWin(base: string, route: string, token: string, u: User,
                             storedToken: string, storedUser: StoredUser)
    ensures var r := RedirectToSomethingX(base, route, token, Some(u), storedToken, storedUser);
            && r.path == FullPath(SomethingXUrl(base), route)
            && r.query == QueryParams(Or(token, storedToken), Some(u))
            && (token != [] ==> ("token", token) in r.query)
            && (u.email != [] ==> ("email", u.email) in r.query)
    ensures var r := RedirectToJobs(base, route, token, Some(u), storedToken, storedUser);
            && r.Some?
            && r.value.query == QueryParams(Or(token, storedToken), Some(u))
  {
    QueryParamsPresent(Or(token, storedToken), Some(u));
  }

  /** Without arguments, the stored token and user are sent; a stored user
      that does not parse sends the main-platform redirect to the fallback
      path with no parameters at all, not even the token. */
  lemma StoredValuesUsed(base: string, route: string, storedToken: string, storedUser: StoredUser)
    ensures var r := RedirectToSomethingX(base, route, [], None, storedToken, storedUser);
            && (storedUser.ParsesTo? ==> r.query == QueryParams(storedToken, storedUser.user))
            && (storedUser.NoStoredUser? ==> r.query == QueryParams(storedToken, None))
            && (storedUser.Malformed? ==> r.query == [])
            && (!storedUser.Malformed? ==> r.path == FullPath(SomethingXUrl(base), route))
  {
  }
}
