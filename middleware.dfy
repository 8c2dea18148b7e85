/** The request-time locale resolver (middleware.ts): for every request it
    picks the locale from the path, then the `locale` cookie, then the
    default; passes assets, API routes and framework internals through;
    redirects a path without a locale to `/{locale}{path}`; and sets one
    `locale` cookie on every response. */
module Middleware {
  import opened Wrappers
  import opened Strings

  /** `locales` */
  const Locales: seq<string> := ["en", "fr"]

  /** `defaultLocale` */
  const DefaultLocale: string := "en"

  /** The `Locale` type: a member of `locales`. */
  type Locale = s: string | s in Locales witness "en"

  /** `maxAge` of the locale cookie: one year, in seconds. */
  const CookieMaxAge: int := 60 * 60 * 24 * 365

  /** The parts of `request.nextUrl` the resolver reads or writes. */
  datatype Url = Url(protocol: string, hostname: string, port: string, pathname: string, search: string)

  /** A request: its URL, its `Host` header and its `locale` cookie, when
      present. */
  datatype Request = Request(nextUrl: Url, hostHeader: Option<string>, localeCookie: Option<string>)

  /** A cookie set on a response: value, `path` and `maxAge`. */
  datatype Cookie = Cookie(value: string, path: string, maxAge: int)

  /** `NextResponse.next()` or `NextResponse.redirect(url)`. */
  datatype Outcome = Next | Redirect(location: Url)

  /** A response and the cookies set on it, by name. */
  datatype Response = Response(outcome: Outcome, cookies: map<string, Cookie>)

  /** The test `locales.some` applies to each locale: the path is `/L` or
      starts with `/L/`. It compares text exactly, so `/english` and `/EN`
      do not name a locale. */
  predicate MatchesLocale(pathname: string, l: string) {
    StartsWith(pathname, "/" + l + "/") || pathname == "/" + l
  }

  /** `pathnameHasLocale` */
  predicate PathnameHasLocale(pathname: string) {
    exists i :: 0 <= i < |Locales| && MatchesLocale(pathname, Locales[i])
  }

  /** The test is exact and case-sensitive: `/english` and `/EN` carry no
      locale, `/en` and `/fr/listen` do. */
  lemma LocaleTestIsExact()
    ensures !PathnameHasLocale("/english") && !PathnameHasLocale("/EN")
    ensures PathnameHasLocale("/en") && PathnameHasLocale("/fr/listen")
  {
    assert !MatchesLocale("/english", "en") by { assert "/english"[3] != '/'; }
    assert !MatchesLocale("/english", "fr") by { assert "/english"[1] != 'f'; }
    assert !MatchesLocale("/EN", "en") by { assert "/EN"[1] != 'e'; }
    assert !MatchesLocale("/EN", "fr") by { assert "/EN"[1] != 'f'; }
    assert MatchesLocale("/en", Locales[0]);
    assert MatchesLocale("/fr/listen", Locales[1]) by { assert "/fr/listen"[..4] == "/fr/"; }
  }

  /** The locale a path with a locale names. */
  function PathLocale(pathname: string): (l: Locale)
    requires PathnameHasLocale(pathname)
    ensures MatchesLocale(pathname, l)
  {
    if MatchesLocale(pathname, "en") then "en" else "fr"
  }

  /** `cookies.get('locale')?.value || defaultLocale`: the cookie's value,
      unless it is missing or empty. It is not checked against `locales`. */
  function CookieLocale(cookie: Option<string>): (l: string)
    ensures l != ""
    ensures l == DefaultLocale || cookie == Some(l)
    ensures cookie.Some? && cookie.value != "" ==> l == cookie.value
    ensures cookie.None? || cookie == Some("") ==> l == DefaultLocale
  {
    match cookie
    case Some(v) => if v != "" then v else DefaultLocale
    case None => DefaultLocale
  }

  /** The locale of a request, computed before the bypass test: the path's
      locale when it has one (the cookie is then ignored), else the cookie's
      value or the default. */
  function ResolveLocale(request: Request): (l: string)
    ensures l != ""
    ensures PathnameHasLocale(request.nextUrl.pathname) ==> l in Locales && MatchesLocale(request.nextUrl.pathname, l)
    ensures !PathnameHasLocale(request.nextUrl.pathname) ==> l == DefaultLocale || request.localeCookie == Some(l)
    ensures !PathnameHasLocale(request.nextUrl.pathname) && request.localeCookie.Some? && request.localeCookie.value != "" ==>
      l == request.localeCookie.value
    ensures !PathnameHasLocale(request.nextUrl.pathname) && (request.localeCookie.None? || request.localeCookie == Some("")) ==>
      l == DefaultLocale
  {
    var p := request.nextUrl.pathname;
    if PathnameHasLocale(p) then PathLocale(p) else CookieLocale(request.localeCookie)
  }

  /** The paths left without a redirect: framework internals, API routes,
      public images and fonts (all as text prefixes, so `/apiary` too), any
      path with a `.`, and the favicon. */
  predicate IsBypassed(pathname: string) {
    || StartsWith(pathname, "/_next")
    || StartsWith(pathname, "/api")
    || StartsWith(pathname, "/images")
    || StartsWith(pathname, "/fonts")
    || '.' in pathname
    || pathname == "/favicon.ico"
  }

  /** `newPath`: the path under the locale's prefix, `/L` for the root. */
  function RedirectPathname(pathname: string, locale: string): string {
    if pathname == "/" then "/" + locale else "/" + locale + pathname
  }

  /** `hostname` of `const [hostname, port] = hostHeader.split(':')` */
  function HostnameOf(header: string): string {
    Split(header, ':')[0]
  }

  /** `port` of the same destructuring; a missing second piece is
      `undefined`, falsy like the empty string. */
  function PortOf(header: string): string {
    var parts := Split(header, ':');
    if |parts| > 1 then parts[1] else ""
  }

  /** The host a redirect goes to: with a non-empty `Host` header, its
      hostname, and the header's port (else the request's) for `localhost`
      and `127.0.0.1`, no port for any other host; without one, the
      request's host and port. */
  function RewriteHost(url: Url, hostHeader: Option<string>): Url {
    match hostHeader
    case None => url
    case Some(h) =>
      if h == "" then url
      else
        var hostname := HostnameOf(h);
        var port :=
          if hostname == "localhost" || hostname == "127.0.0.1"
          then (if PortOf(h) != "" then PortOf(h) else url.port)
          else "";
        url.(hostname := hostname, port := port)
  }

  /** The cookie `response.cookies.set('locale', locale, {path: '/', maxAge})`
      sets. */
  function LocaleCookie(locale: string): Cookie {
    Cookie(locale, "/", CookieMaxAge)
  }

  /** `response.cookies.set('locale', ...)` */
  function SetLocaleCookie(response: Response, locale: string): Response {
    response.(cookies := response.cookies["locale" := LocaleCookie(locale)])
  }

  /** The resolver's decision for a request: pass through when bypassed or
      when the path has a locale, else redirect to the prefixed path; in
      every case with the one `locale` cookie. */
  function Decide(request: Request): Response {
    var p := request.nextUrl.pathname;
    var locale := ResolveLocale(request);
    var outcome :=
      if IsBypassed(p) || PathnameHasLocale(p) then Next
      else Redirect(RewriteHost(request.nextUrl.(pathname := RedirectPathname(p, locale)), request.hostHeader));
    Response(outcome, map["locale" := LocaleCookie(locale)])
  }

  /** The first non-empty segment of a path with a locale is that locale. */
  lemma PathLocaleIsFirstSegment(pathname: string)
    requires PathnameHasLocale(pathname)
    ensures NonEmpty(Split(pathname, '/')) != []
    ensures NonEmpty(Split(pathname, '/'))[0] == PathLocale(pathname)
  {
    var l := PathLocale(pathname);
    assert pathname[0] == '/';
    assert pathname[1..1 + |l|] == l;
    FirstPieceAt(pathname, '/', 1, l);
  }

  /** A path that starts with a whole locale segment carries that locale. */
  lemma LocalePrefixed(pathname: string, l: Locale)
    requires StartsWith(pathname, "/" + l) && (|pathname| == |l| + 1 || pathname[|l| + 1] == '/')
    ensures PathnameHasLocale(pathname) && PathLocale(pathname) == l
  {
    var i := if l == "en" then 0 else 1;
    assert MatchesLocale(pathname, Locales[i]) by {
      if |pathname| > |l| + 1 {
        assert pathname[..|l| + 2] == pathname[..|l| + 1] + [pathname[|l| + 1]];
      } else {
        assert pathname == pathname[..|l| + 1];
      }
    }
    assert pathname[1] == l[0] by { assert pathname[..|l| + 1][1] == pathname[1]; }
  }

  /** `middleware(request)`, step by step as the source does it: the
      reassigned `locale`, the bypass test, the cloned URL whose `pathname`,
      `hostname` and `port` are assigned, and the cookie set on each of the
      three responses. */
  method HandleRequest(request: Request) returns (response: Response)
    ensures response == Decide(request)
  {
    var pathname := request.nextUrl.pathname;
    var pathnameHasLocale := PathnameHasLocale(pathname);

    var locale := DefaultLocale;
    if pathnameHasLocale {
      var segments := NonEmpty(Split(pathname, '/'));
      PathLocaleIsFirstSegment(pathname);
      if |segments| > 0 && segments[0] in Locales {
        locale := segments[0];
      }
    } else {
      locale := CookieLocale(request.localeCookie);
    }

    if IsBypassed(pathname) {
      response := SetLocaleCookie(Response(Next, map[]), locale);
      return;
    }

    if !pathnameHasLocale {
      var newPath := if pathname == "/" then "/" + locale else "/" + locale + pathname;
      var url := request.nextUrl;
      url := url.(pathname := newPath);
      if request.hostHeader.Some? && request.hostHeader.value != "" {
        var parts := Split(request.hostHeader.value, ':');
        var hostname := parts[0];
        var port := if |parts| > 1 then parts[1] else "";
        url := url.(hostname := hostname);
        if hostname == "localhost" || hostname == "127.0.0.1" {
          url := url.(port := if port != "" then port else request.nextUrl.port);
        } else {
          url := url.(port := "");
        }
      }
      response := SetLocaleCookie(Response(Redirect(url), map[]), locale);
      return;
    }

    response := SetLocaleCookie(Response(Next, map[]), locale);
  }

  /** Every response carries exactly one cookie, `locale`, with path `/`
      and a one-year `maxAge`, whose value is the resolved locale, so a
      bypassed request gets the same locale a redirect or a pass-through
      would; a bypassed path never redirects, a path with a locale passes
      through, and any other path redirects to its prefixed form with the
      request's scheme and query. */
  lemma DecisionShape(request: Request)
    ensures Decide(request).cookies.Keys == {"locale"}
    ensures Decide(request).cookies["locale"] == Cookie(ResolveLocale(request), "/", 31536000)
    ensures IsBypassed(request.nextUrl.pathname) ==> Decide(request).outcome == Next
    ensures PathnameHasLocale(request.nextUrl.pathname) ==> Decide(request).outcome == Next
    ensures !IsBypassed(request.nextUrl.pathname) && !PathnameHasLocale(request.nextUrl.pathname) ==>
      && Decide(request).outcome.Redirect?
      && Decide(request).outcome.location.pathname == RedirectPathname(request.nextUrl.pathname, ResolveLocale(request))
      && Decide(request).outcome.location.protocol == request.nextUrl.protocol
      && Decide(request).outcome.location.search == request.nextUrl.search
  {
  }

  /** The locale cookies of the candidate locales are the only values that
      lead to a single redirect: */
  predicate ValidCookie(cookie: Option<string>) {
    cookie == None || cookie == Some("") || cookie == Some("en") || cookie == Some("fr")
  }

  /** Idempotence of redirects: when the cookie is absent or a locale,
      following the redirect (with whatever cookie and `Host` header) passes
      through with the same locale. */
  lemma RedirectIdempotent(request: Request, host: Option<string>, cookie: Option<string>)
    requires StartsWith(request.nextUrl.pathname, "/")
    requires !IsBypassed(request.nextUrl.pathname) && !PathnameHasLocale(request.nextUrl.pathname)
    requires ValidCookie(request.localeCookie)
    ensures Decide(request).outcome.Redirect?
    ensures Decide(Request(Decide(request).outcome.location, host, cookie)) == Decide(request).(outcome := Next)
  {
    var p := request.nextUrl.pathname;
    var l := ResolveLocale(request);
    assert l == "en" || l == "fr";
    var target := Decide(request).outcome.location;
    var q := target.pathname;
    assert q == RedirectPathname(p, l);
    if p == "/" {
      assert MatchesLocale(q, l);
    } else {
      assert q == "/" + l + p;
      assert q[..|l| + 2] == "/" + l + "/";
      assert MatchesLocale(q, l);
    }
    var i := if l == "en" then 0 else 1;
    assert MatchesLocale(q, Locales[i]);
    assert PathLocale(q) == l by {
      if l == "fr" {
        assert q[1] == 'f';
        assert !MatchesLocale(q, "en");
      }
    }
  }

  /** A path with no locale that is not bypassed, requested without a
      `Host` header and with a non-empty cookie `c`, is redirected below
      `/c`, whatever `c` is. */
  lemma CookieRedirect(url: Url, c: string)
    requires c != "" && url.pathname != "/"
    requires !IsBypassed(url.pathname) && !PathnameHasLocale(url.pathname)
    ensures Decide(Request(url, None, Some(c))).outcome == Redirect(url.(pathname := "/" + c + url.pathname))
  {
  }

  /** The cookie is not validated: with a cookie `de`, `/x` redirects to
      `/de/x`, and `/de/x` redirects again, to `/de/de/x`. */
  lemma UnvalidatedCookieRedirectsTwice(url: Url)
    requires url.pathname == "/x"
    ensures Decide(Request(url, None, Some("de"))).outcome == Redirect(url.(pathname := "/de/x"))
    ensures Decide(Request(url.(pathname := "/de/x"), None, Some("de"))).outcome
            == Redirect(url.(pathname := "/de/de/x"))
  {
    var q := "/de/x";
    PlainPaths(url.pathname, q);
    assert "/" + "de" + url.pathname == q;
    CookieRedirect(url, "de");
    assert "/" + "de" + q == "/de/de/x";
    CookieRedirect(url.(pathname := q), "de");
  }

  /** `/x` and `/de/x` carry no locale and are not bypassed. */
  lemma PlainPaths(p: string, q: string)
    requires p == "/x" && q == "/de/x"
    ensures !IsBypassed(p) && !PathnameHasLocale(p)
    ensures !IsBypassed(q) && !PathnameHasLocale(q)
  {
    assert !MatchesLocale(p, "en") && !MatchesLocale(p, "fr");
    assert |p| == 2 && p[1] == 'x';
    assert !MatchesLocale(q, "en") by { assert q[1] != "/en/"[1]; }
    assert !MatchesLocale(q, "fr") by { assert q[1] != "/fr/"[1]; }
    assert q[1] == 'd' && '.' !in q;
  }

  /** The host rewrite: the hostname is the `Host` header's text before its
      first `:`; the port is the header's next piece (or the request's
      port) for `localhost` and `127.0.0.1`, and empty for any other host;
      the scheme, path and query are kept. */
  lemma RewriteHostSpec(url: Url, h: string)
    requires h != ""
    ensures RewriteHost(url, Some(h)).protocol == url.protocol
    ensures RewriteHost(url, Some(h)).pathname == url.pathname
    ensures RewriteHost(url, Some(h)).search == url.search
    ensures RewriteHost(url, Some(h)).hostname == HostnameOf(h)
    ensures ':' !in h ==> RewriteHost(url, Some(h)).hostname == h
    ensures ':' in h ==> exists i :: 0 <= i < |h| && h[i] == ':' && ':' !in h[..i] && RewriteHost(url, Some(h)).hostname == h[..i]
    ensures var hn := RewriteHost(url, Some(h)).hostname;
      hn != "localhost" && hn != "127.0.0.1" ==> RewriteHost(url, Some(h)).port == ""
    ensures var hn := RewriteHost(url, Some(h)).hostname;
      hn == "localhost" || hn == "127.0.0.1" ==>
        RewriteHost(url, Some(h)).port == (if PortOf(h) != "" then PortOf(h) else url.port)
    ensures ':' !in h ==> RewriteHost(url, Some(h)).port == (if h == "localhost" || h == "127.0.0.1" then url.port else "")
  {
    SplitFirst(h, ':');
    if ':' !in h {
      SplitWhole(h, ':');
    }
  }

  /** A header `name:port`, possibly followed by more `:`-pieces: the
      redirect goes to `name`, with `port` (or the request's port when it
      is empty) for `localhost` and `127.0.0.1`, and with no port for any
      other host. */
  lemma RewriteHostOfHeader(url: Url, name: string, port: string, rest: string)
    requires name != "" && ':' !in name && ':' !in port
    requires rest == [] || rest[0] == ':'
    ensures RewriteHost(url, Some(name + ":" + port + rest))
         == url.(hostname := name,
                 port := if name == "localhost" || name == "127.0.0.1" then (if port != "" then port else url.port) else "")
  {
    HostAndPort(name, port, rest);
  }

  /** Without a `Host` header, or with an empty one, the redirect keeps the
      request's host and port, as cloned. */
  lemma RewriteHostWithoutHeader(url: Url)
    ensures RewriteHost(url, None) == url
    ensures RewriteHost(url, Some("")) == url
  {
  }

  /** The same, for the redirect the resolver answers with: only the path
      changes. */
  lemma RedirectWithoutHost(request: Request)
    requires request.hostHeader == None || request.hostHeader == Some("")
    requires !IsBypassed(request.nextUrl.pathname) && !PathnameHasLocale(request.nextUrl.pathname)
    ensures Decide(request).outcome
         == Redirect(request.nextUrl.(pathname := RedirectPathname(request.nextUrl.pathname, ResolveLocale(request))))
  {
  }

  /** A redirect through `localhost:3000` keeps port 3000. */
  lemma LocalhostKeepsPort(url: Url)
    ensures RewriteHost(url, Some("localhost:3000")).hostname == "localhost"
    ensures RewriteHost(url, Some("localhost:3000")).port == "3000"
  {
    HostAndPort("localhost", "3000", "");
    assert "localhost:3000" == "localhost" + ":" + "3000" + "";
  }

  /** A redirect through a public host has no explicit port. */
  lemma PublicHostDropsPort(url: Url)
    ensures RewriteHost(url, Some("example.ngrok.io")).hostname == "example.ngrok.io"
    ensures RewriteHost(url, Some("example.ngrok.io")).port == ""
  {
    var g := "example.ngrok.io";
    assert ':' !in g;
    assert g != "localhost" && g != "127.0.0.1" by {
      assert |g| != |"localhost"| && |g| != |"127.0.0.1"|;
    }
    RewriteHostSpec(url, g);
  }

  /** A `Host` header `name:port`, possibly followed by more `:`-pieces,
      splits into its name and its port. */
  lemma HostAndPort(name: string, port: string, rest: string)
    requires ':' !in name && ':' !in port
    requires rest == [] || rest[0] == ':'
    ensures HostnameOf(name + ":" + port + rest) == name
    ensures PortOf(name + ":" + port + rest) == port
  {
    var t := ":" + port + rest;
    assert name + ":" + port + rest == name + t;
    SplitPrefix(name, t, ':');
    assert t[1..] == port + rest;
    assert Split(t, ':') == [""] + Split(port + rest, ':');
    SplitPrefix(port, rest, ':');
    SplitAtSeparator(rest, ':');
  }
}
