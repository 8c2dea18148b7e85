/** The link-building helpers of lib/i18n.ts: the locale of a path, the
    path without its locale, and the path for a locale. */
module I18n {
  import opened Wrappers
  import opened Strings
  import opened Middleware

  /** `getLocale`: the first non-empty `/`-segment when it is a locale, else
      the default. */
  function GetLocale(pathname: string): Locale {
    var segments := NonEmpty(Split(pathname, '/'));
    if |segments| > 0 && segments[0] in Locales then segments[0] else DefaultLocale
  }

  /** After some leading `/`s, the path's first segment is `l`. */
  ghost predicate FirstSegmentIs(pathname: string, l: string) {
    exists k :: PieceAt(pathname, '/', k, l)
  }

  /** `getLocale` answers `fr` exactly for the paths whose first segment is
      `fr`, and `en` for those whose first segment is `en` (and for every
      other path). */
  lemma GetLocaleSpec(pathname: string)
    ensures GetLocale(pathname) == "fr" <==> FirstSegmentIs(pathname, "fr")
    ensures FirstSegmentIs(pathname, "en") ==> GetLocale(pathname) == "en"
  {
    var segments := NonEmpty(Split(pathname, '/'));
    if FirstSegmentIs(pathname, "fr") {
      var k :| PieceAt(pathname, '/', k, "fr");
      FirstPieceAt(pathname, '/', k, "fr");
    }
    if FirstSegmentIs(pathname, "en") {
      var k :| PieceAt(pathname, '/', k, "en");
      FirstPieceAt(pathname, '/', k, "en");
    }
    if GetLocale(pathname) == "fr" {
      var k := FirstPieceShape(pathname, '/');
      assert PieceAt(pathname, '/', k, "fr");
    }
  }

  /** The client and the server agree: on a path with a locale, `getLocale`
      gives the locale the resolver found. */
  lemma GetLocaleAgreesWithResolver(pathname: string)
    requires PathnameHasLocale(pathname)
    ensures GetLocale(pathname) == PathLocale(pathname)
  {
    PathLocaleIsFirstSegment(pathname);
  }

  /** `removeLocaleFromPath`: deletes the first occurrence of `/` plus the
      path's locale, wherever it is, and turns an empty result into `/`. The
      two branches of the source are the same expression. */
  function RemoveLocaleFromPath(pathname: string): (r: string)
    ensures r != ""
  {
    var locale := GetLocale(pathname);
    if locale == DefaultLocale then
      var s := ReplaceFirst(pathname, "/" + locale, "");
      if s == "" then "/" else s
    else
      var s := ReplaceFirst(pathname, "/" + locale, "");
      if s == "" then "/" else s
  }

  /** Where `/L` (L the path's locale) first occurs, it is cut out, and
      nothing else changes. */
  lemma RemoveCutsFirstOccurrence(pathname: string, i: nat)
    requires OccursAt(pathname, "/" + GetLocale(pathname), i)
    requires forall j :: 0 <= j < i ==> !OccursAt(pathname, "/" + GetLocale(pathname), j)
    ensures var rest := pathname[..i] + pathname[i + |GetLocale(pathname)| + 1..];
      RemoveLocaleFromPath(pathname) == if rest == "" then "/" else rest
  {
    var pat := "/" + GetLocale(pathname);
    assert IndexOf(pathname, pat) == Some(i);
  }

  /** Without such an occurrence the path is kept ("" becomes "/"). */
  lemma RemoveWithoutOccurrence(pathname: string)
    requires forall j :: !OccursAt(pathname, "/" + GetLocale(pathname), j)
    ensures RemoveLocaleFromPath(pathname) == if pathname == "" then "/" else pathname
  {
  }

  /** `addLocaleToPath`: a leading `/` is added when missing; the default
      locale leaves the path unprefixed, any other locale prefixes `/L`
      (and the root becomes `/L`). */
  function AddLocaleToPath(pathname: string, locale: Locale): (r: string)
    ensures StartsWith(r, "/")
  {
    var cleanPath := if StartsWith(pathname, "/") then pathname else "/" + pathname;
    if locale == DefaultLocale then
      (if cleanPath == "/" then "/" else cleanPath)
    else
      "/" + locale + (if cleanPath == "/" then "" else cleanPath)
  }

  /** A path that starts with `/` is kept for the default locale, and if
      it is not the root, only prefixed for the others. */
  lemma AddToSlashPath(pathname: string, locale: Locale)
    requires StartsWith(pathname, "/")
    ensures locale == DefaultLocale ==> AddLocaleToPath(pathname, locale) == pathname
    ensures locale != DefaultLocale && pathname != "/" ==> AddLocaleToPath(pathname, locale) == "/" + locale + pathname
  {
  }

  /** For the default locale the result is the slash-normalised path, so
      adding `en` twice is adding it once. */
  lemma AddDefaultIdempotent(pathname: string)
    ensures StartsWith(pathname, "/") ==> AddLocaleToPath(pathname, "en") == pathname
    ensures !StartsWith(pathname, "/") ==> AddLocaleToPath(pathname, "en") == "/" + pathname
    ensures AddLocaleToPath(AddLocaleToPath(pathname, "en"), "en") == AddLocaleToPath(pathname, "en")
  {
  }

  /** A path built for `fr` is `/fr` followed by nothing or by a `/`: both
      `getLocale` and the resolver read `fr` from it. */
  lemma AddFrenchIsFrench(pathname: string)
    ensures PathnameHasLocale(AddLocaleToPath(pathname, "fr"))
    ensures PathLocale(AddLocaleToPath(pathname, "fr")) == "fr"
    ensures GetLocale(AddLocaleToPath(pathname, "fr")) == "fr"
  {
    var r := AddLocaleToPath(pathname, "fr");
    var cleanPath := if StartsWith(pathname, "/") then pathname else "/" + pathname;
    var tail := if cleanPath == "/" then "" else cleanPath;
    assert r == "/fr" + tail;
    assert r[..3] == "/fr";
    assert tail == "" || tail[0] == '/';
    assert |r| == 3 || r[3] == '/';
    LeadingLocale(r, "fr");
    LocalePrefixed(r, "fr");
  }

  /** Round trip: removing the locale from a path built for `fr` gives back
      every path that starts with `/`. */
  lemma RemoveAddRoundTrip(pathname: string)
    requires StartsWith(pathname, "/")
    ensures RemoveLocaleFromPath(AddLocaleToPath(pathname, "fr")) == pathname
  {
    var r := AddLocaleToPath(pathname, "fr");
    AddFrenchIsFrench(pathname);
    assert StartsWith(r, "/fr");
    ReplaceFirstAtStart(r, "/fr");
    if pathname == "/" {
      assert r == "/fr";
    } else {
      assert r[3..] == pathname;
    }
  }

  /** The default locale has no such round trip, because the first `/en`
      anywhere is removed: `/entry` is built as `/entry` and cleaned to
      `try`. */
  lemma RemoveDefaultCutsInsideSegment(e: string)
    requires e == "/entry"
    ensures AddLocaleToPath(e, "en") == e
    ensures RemoveLocaleFromPath(e) == "try"
  {
    assert '/' !in e[1..] && e[1..] !in Locales;
    OneSegment(e);
    assert e[..3] == "/en";
    DefaultCutsPrefix(e);
    assert e[3..] == "try";
  }

  /** On a page of the default locale that starts with `/en`, whether or
      not `en` is a whole segment, cleaning cuts those three characters. */
  lemma DefaultCutsPrefix(pathname: string)
    requires GetLocale(pathname) == DefaultLocale && StartsWith(pathname, "/en")
    ensures RemoveLocaleFromPath(pathname) == if |pathname| == 3 then "/" else pathname[3..]
  {
    ReplaceFirstAtStart(pathname, "/en");
  }

  /** A path that starts with a whole locale segment `/L` has the locale
      `L`, and cleaning it drops exactly that segment. */
  lemma LeadingLocale(pathname: string, l: Locale)
    requires StartsWith(pathname, "/" + l)
    requires |pathname| == |l| + 1 || pathname[|l| + 1] == '/'
    ensures GetLocale(pathname) == l
    ensures RemoveLocaleFromPath(pathname) == if |pathname| == |l| + 1 then "/" else pathname[|l| + 1..]
  {
    assert pathname[1..|l| + 1] == pathname[..|l| + 1][1..];
    assert PieceAt(pathname, '/', 1, l);
    FirstPieceAt(pathname, '/', 1, l);
    ReplaceFirstAtStart(pathname, "/" + l);
  }

  /** A path of one segment: its locale is that segment, when it is one. */
  lemma OneSegment(pathname: string)
    requires |pathname| > 1 && pathname[0] == '/' && '/' !in pathname[1..]
    ensures GetLocale(pathname) == if pathname[1..] in Locales then pathname[1..] else DefaultLocale
  {
    assert PieceAt(pathname, '/', 1, pathname[1..]);
    FirstPieceAt(pathname, '/', 1, pathname[1..]);
  }

  /** Cleaning `/fr/x` gives `/x`. */
  lemma RemoveFrenchExample()
    ensures RemoveLocaleFromPath("/fr/x") == "/x"
  {
    LeadingLocale("/fr/x", "fr");
  }

  /** Cleaning `/en/x` gives `/x`. */
  lemma RemoveEnglishExample()
    ensures RemoveLocaleFromPath("/en/x") == "/x"
  {
    LeadingLocale("/en/x", "en");
  }

  /** The root has no locale and stays `/`. */
  lemma RemoveRootExample()
    ensures RemoveLocaleFromPath("/") == "/"
  {
    assert !OccursAt("/", "/en", 0);
  }
}
