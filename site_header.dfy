/** The logic of the site header (components/site-header.tsx): the language
    switch, which writes the `locale` cookie and then navigates to the same
    page in the other locale; the rule that hides the header on a downward
    scroll; and which navigation item is marked active. */
module SiteHeader {
  import opened Wrappers
  import opened Strings
  import opened Middleware
  import opened I18n

  /** `newLocale`: the other of the two locales. */
  function ToggleLocale(l: Locale): (r: Locale)
    ensures r != l
  {
    if l == "en" then "fr" else "en"
  }

  /** Switching twice comes back to the locale one started from. */
  lemma ToggleInvolution(l: Locale)
    ensures ToggleLocale(ToggleLocale(l)) == l
  {
  }

  /** `newPath`: the current page without its locale, built for the other
      locale. */
  function SwitchTarget(pathname: string): (r: string)
    ensures StartsWith(r, "/")
  {
    AddLocaleToPath(RemoveLocaleFromPath(pathname), ToggleLocale(GetLocale(pathname)))
  }

  /** The switch target from what `getLocale` and `removeLocaleFromPath`
      give for the page. */
  lemma SwitchTargetFrom(pathname: string, l: Locale, clean: string)
    requires GetLocale(pathname) == l && RemoveLocaleFromPath(pathname) == clean
    ensures SwitchTarget(pathname) == AddLocaleToPath(clean, ToggleLocale(l))
  {
  }

  /** From a French page the switch leaves the `/fr` prefix off. */
  lemma SwitchFromFrench(pathname: string)
    requires StartsWith(pathname, "/fr/")
    ensures SwitchTarget(pathname) == pathname[3..]
  {
    var rest := pathname[3..];
    LocaleSegment(pathname, "/fr/", "fr");
    BelowLocale(pathname, "fr");
    SwitchTargetFrom(pathname, "fr", rest);
    AddToSlashPath(rest, "en");
  }

  /** From an English page below `/en` the switch puts `/fr` in its
      place. */
  lemma SwitchFromEnglish(pathname: string)
    requires StartsWith(pathname, "/en/") && |pathname| > 4
    ensures SwitchTarget(pathname) == "/fr" + pathname[3..]
  {
    var rest := pathname[3..];
    LocaleSegment(pathname, "/en/", "en");
    BelowLocale(pathname, "en");
    SwitchTargetFrom(pathname, "en", rest);
    AddToSlashPath(rest, "fr");
    FrenchPrefix(rest);
  }

  /** A page starting with a locale segment written out. */
  lemma LocaleSegment(pathname: string, segment: string, l: Locale)
    requires segment == "/" + l + "/" && StartsWith(pathname, segment)
    ensures StartsWith(pathname, "/" + l + "/") && StartsWith(pathname[|l| + 1..], "/")
  {
    assert pathname[|l| + 1..][..1] == pathname[..|l| + 2][|l| + 1..];
  }

  lemma FrenchPrefix(rest: string)
    ensures "/" + "fr" + rest == "/fr" + rest
  {
    assert "/" + "fr" == "/fr";
  }

  /** A page below a locale segment: its locale, and the path the switch
      keeps. */
  lemma BelowLocale(pathname: string, l: Locale)
    requires StartsWith(pathname, "/" + l + "/")
    ensures GetLocale(pathname) == l && RemoveLocaleFromPath(pathname) == pathname[|l| + 1..]
  {
    assert pathname[..|l| + 1] == pathname[..|l| + 2][..|l| + 1];
    LeadingLocale(pathname, l);
  }

  /** From `/fr/x` the switch goes to `/x`, and from `/en/x` to `/fr/x`. */
  lemma SwitchExamples()
    ensures SwitchTarget("/fr/x") == "/x"
    ensures SwitchTarget("/en/x") == "/fr/x"
  {
    SwitchFromFrench("/fr/x");
    SwitchFromEnglish("/en/x");
  }

  /** Something the switch does to the browser, in order. */
  datatype Effect = WriteCookie(name: string, cookie: Cookie) | Push(path: string)

  /** The browser state the switch acts on: the document's cookies and the
      effects done so far. */
  class Browser {
    var cookies: map<string, Cookie>
    var effects: seq<Effect>

    constructor()
      ensures cookies == map[] && effects == []
    {
      cookies := map[];
      effects := [];
    }

    /** `handleLanguageSwitch` on the page `pathname`: the `locale` cookie
        (path `/`, one year) is written first, then the target is pushed. */
    method HandleLanguageSwitch(pathname: string)
      modifies this
      ensures var l := ToggleLocale(GetLocale(pathname));
        && cookies == old(cookies)["locale" := LocaleCookie(l)]
        && effects == old(effects) + [WriteCookie("locale", LocaleCookie(l)), Push(SwitchTarget(pathname))]
    {
      var newLocale := ToggleLocale(GetLocale(pathname));
      var cleanPath := RemoveLocaleFromPath(pathname);
      var newPath := AddLocaleToPath(cleanPath, newLocale);
      assert newPath == SwitchTarget(pathname);
      var cookie := LocaleCookie(newLocale);
      cookies := cookies["locale" := cookie];
      ghost var before := effects;
      effects := effects + [WriteCookie("locale", cookie)];
      effects := effects + [Push(newPath)];
      assert effects == before + [WriteCookie("locale", cookie), Push(newPath)];
    }
  }

  /** The cookie the switch writes is the one the resolver writes: same
      value, path `/` and a one-year lifetime. */
  lemma SwitchCookieIsResolverCookie(pathname: string)
    ensures LocaleCookie(ToggleLocale(GetLocale(pathname))) == Cookie(ToggleLocale(GetLocale(pathname)), "/", 31536000)
  {
  }

  /** Switching from an English page to French: the request for the target,
      sent with the new cookie, passes through the resolver with `fr`. */
  lemma SwitchToFrench(pathname: string, url: Url, host: Option<string>)
    requires GetLocale(pathname) == "en"
    ensures var request := Request(url.(pathname := SwitchTarget(pathname)), host, Some("fr"));
      && Decide(request).outcome == Next
      && Decide(request).cookies["locale"].value == "fr"
  {
    AddFrenchIsFrench(RemoveLocaleFromPath(pathname));
    var request := Request(url.(pathname := SwitchTarget(pathname)), host, Some("fr"));
    DecisionShape(request);
  }

  /** Switching from a French page to English: the target carries no
      prefix, so the resolver, reading the new cookie, redirects it to
      `/en` + target, and that request then passes through with `en`. */
  lemma SwitchToEnglish(pathname: string, url: Url, host: Option<string>)
    requires GetLocale(pathname) == "fr"
    requires !IsBypassed(SwitchTarget(pathname)) && !PathnameHasLocale(SwitchTarget(pathname))
    ensures var request := Request(url.(pathname := SwitchTarget(pathname)), host, Some("en"));
      && Decide(request).outcome.Redirect?
      && Decide(request).outcome.location.pathname == RedirectPathname(SwitchTarget(pathname), "en")
      && Decide(request).cookies["locale"].value == "en"
      && Decide(Request(Decide(request).outcome.location, host, Some("en"))).outcome == Next
  {
    var request := Request(url.(pathname := SwitchTarget(pathname)), host, Some("en"));
    DecisionShape(request);
    RedirectIdempotent(request, host, Some("en"));
  }

  /** The state `handleScroll` reads and writes. */
  class HeaderVisibility {
    var isVisible: bool
    var lastScrollY: int

    /** The header is only ever hidden at a position below the first 100
        pixels of the page. */
    ghost predicate Valid()
      reads this
    {
      !isVisible ==> lastScrollY > 100
    }

    /** `useState(true)` and `useState(0)` */
    constructor()
      ensures Valid() && isVisible && lastScrollY == 0
    {
      isVisible := true;
      lastScrollY := 0;
    }

    /** `handleScroll` for the scroll position `currentScrollY`. */
    method HandleScroll(currentScrollY: int)
      requires Valid()
      modifies this
      ensures Valid()
      ensures isVisible == NextVisible(old(isVisible), old(lastScrollY), currentScrollY)
      ensures lastScrollY == currentScrollY
    {
      if currentScrollY < 100 {
        isVisible := true;
      } else if currentScrollY < lastScrollY {
        isVisible := true;
      } else if currentScrollY > lastScrollY && currentScrollY > 100 {
        isVisible := false;
      }
      lastScrollY := currentScrollY;
    }
  }

  /** The visibility after a scroll event to `y`, from the visibility and
      the position before it. */
  function NextVisible(visible: bool, last: int, y: int): bool {
    if y < 100 || y < last then true
    else if y > last && y > 100 then false
    else visible
  }

  /** The scroll rule: near the top or going up shows the header, going
      down past 100 hides it, and the two remaining cases (staying put at
      100 or more, or arriving at exactly 100 from no higher) leave it as
      it was. A hidden header is one scrolled down to beyond 100. */
  lemma ScrollRule(visible: bool, last: int, y: int)
    ensures y < 100 ==> NextVisible(visible, last, y)
    ensures y < last ==> NextVisible(visible, last, y)
    ensures y > last && y > 100 ==> !NextVisible(visible, last, y)
    ensures 100 <= y && last <= y && (y == last || y == 100) ==> NextVisible(visible, last, y) == visible
    ensures !NextVisible(visible, last, y) ==> y >= last && y >= 100 && (y > 100 || !visible)
  {
  }

  /** The navigation items' targets. */
  const NavHrefs: seq<string> := ["/", "/collective", "/videos", "/listen"]

  /** `isActive` for a nav item on the page `pathname`. */
  predicate IsActive(pathname: string, href: string) {
    var cleanPathname := RemoveLocaleFromPath(pathname);
    cleanPathname == href || (cleanPathname == "" && href == "/")
  }

  /** An item is active exactly when the page without its locale is the
      item's target: the test for an empty path never decides anything,
      because the locale-free path is never empty. */
  lemma ActiveIff(pathname: string, href: string)
    ensures IsActive(pathname, href) <==> RemoveLocaleFromPath(pathname) == href
  {
  }

  /** At most one navigation item is active on any page. */
  lemma AtMostOneActive(pathname: string, i: nat, j: nat)
    requires i < j < |NavHrefs|
    ensures !(IsActive(pathname, NavHrefs[i]) && IsActive(pathname, NavHrefs[j]))
  {
    ActiveIff(pathname, NavHrefs[i]);
    ActiveIff(pathname, NavHrefs[j]);
    NavHrefsDistinct(i, j);
  }

  /** `localePath`: the link of a nav item in the current locale. */
  function NavLink(href: string, locale: Locale): string {
    AddLocaleToPath(href, locale)
  }

  /** The nav targets hold no `/en`. */
  lemma NavHrefHasNoEn(i: nat)
    requires i < |NavHrefs|
    ensures forall j :: !OccursAt(NavHrefs[i], "/en", j)
  {
    var s := NavHrefs[i];
    forall j | OccursAt(s, "/en", j)
      ensures false
    {
      if j == 0 {
        Mismatch(s, "/en", 0, 1);
      } else {
        Mismatch(s, "/en", j, 0);
      }
    }
  }

  /** The nav targets carry no locale. */
  lemma NavHrefIsEnglish(i: nat)
    requires i < |NavHrefs|
    ensures GetLocale(NavHrefs[i]) == "en"
  {
    var s := NavHrefs[i];
    if i > 0 {
      assert '/' !in s[1..] && s[1..] !in Locales;
      OneSegment(s);
    }
  }

  /** Following a nav link in either locale lands on a page where that
      item, and only that one, is active. */
  lemma NavLinkIsActive(i: nat, locale: Locale)
    requires i < |NavHrefs|
    ensures IsActive(NavLink(NavHrefs[i], locale), NavHrefs[i])
    ensures forall j :: 0 <= j < |NavHrefs| && j != i ==> !IsActive(NavLink(NavHrefs[i], locale), NavHrefs[j])
  {
    var href := NavHrefs[i];
    var page := NavLink(href, locale);
    if locale == "fr" {
      RemoveAddRoundTrip(href);
    } else {
      EnglishNavLinkIsActive(i);
    }
    assert RemoveLocaleFromPath(page) == href;
    forall j | 0 <= j < |NavHrefs| && j != i
      ensures !IsActive(page, NavHrefs[j])
    {
      NavHrefsDistinct(i, j);
    }
  }

  /** The nav targets are pairwise different. */
  lemma NavHrefsDistinct(i: nat, j: nat)
    requires i < |NavHrefs| && j < |NavHrefs| && i != j
    ensures NavHrefs[i] != NavHrefs[j]
  {
    assert |NavHrefs[i]| != |NavHrefs[j]| || NavHrefs[i][1] != NavHrefs[j][1];
  }

  /** An English nav link is its target, whose locale-free path it is. */
  lemma EnglishNavLinkIsActive(i: nat)
    requires i < |NavHrefs|
    ensures RemoveLocaleFromPath(NavLink(NavHrefs[i], "en")) == NavHrefs[i]
  {
    var href := NavHrefs[i];
    assert NavLink(href, "en") == href;
    NavHrefIsEnglish(i);
    NavHrefHasNoEn(i);
    assert "/" + GetLocale(href) == "/en";
    RemoveWithoutOccurrence(href);
  }
}
