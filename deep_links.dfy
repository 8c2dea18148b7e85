/** `getDeepLink` of lib/deep-links.ts: on a phone, a streaming platform's
    web URL is rewritten to the URI that opens its app. Each identifier is
    taken by a regular expression of the form `literal(class+)`, which
    matches at the leftmost position where the literal is followed by at
    least one character of the class, and captures the longest such run. */
module DeepLinks {
  import opened Wrappers
  import opened Strings

  /** The character classes of the expressions: `[a-zA-Z0-9]`, `\d` and
      `[a-zA-Z0-9_-]`. */
  datatype CharClass = Alnum | Digits | Word

  predicate IsAsciiLetter(c: char) {
    ('a' <= c <= 'z') || ('A' <= c <= 'Z')
  }

  predicate InClass(c: char, cls: CharClass) {
    match cls
    case Digits => IsDigit(c)
    case Alnum => IsAsciiLetter(c) || IsDigit(c)
    case Word => IsAsciiLetter(c) || IsDigit(c) || c == '_' || c == '-'
  }

  /** One alternative `literal(class+)`. */
  datatype Pattern = Pattern(literal: string, cls: CharClass)

  /** The alternative can start matching at `i`: the literal is there and
      at least one character of the class follows it. */
  predicate MatchesAt(s: string, p: Pattern, i: int) {
    OccursAt(s, p.literal, i) && i + |p.literal| < |s| && InClass(s[i + |p.literal|], p.cls)
  }

  /** The length of the longest run of class characters from `from`. */
  function Run(s: string, from: nat, cls: CharClass): (n: nat)
    requires from <= |s|
    ensures from + n <= |s|
    ensures forall k :: from <= k < from + n ==> InClass(s[k], cls)
    ensures from + n == |s| || !InClass(s[from + n], cls)
    decreases |s| - from
  {
    if from == |s| || !InClass(s[from], cls) then 0 else 1 + Run(s, from + 1, cls)
  }

  /** Where a match starts, and which alternative made it. */
  datatype Hit = Hit(start: nat, alt: nat)

  /** The first of the alternatives `alts[a..]` that matches at `i`. */
  function FirstAlt(s: string, alts: seq<Pattern>, i: nat, a: nat): (r: Option<nat>)
    requires a <= |alts|
    ensures r.Some? ==> a <= r.value < |alts| && MatchesAt(s, alts[r.value], i)
    ensures forall b :: a <= b < |alts| && (r.None? || b < r.value) ==> !MatchesAt(s, alts[b], i)
    decreases |alts| - a
  {
    if a == |alts| then None
    else if MatchesAt(s, alts[a], i) then Some(a)
    else FirstAlt(s, alts, i, a + 1)
  }

  /** The leftmost position from `from` on where an alternative matches. */
  function Search(s: string, alts: seq<Pattern>, from: nat): (r: Option<Hit>)
    ensures r.Some? ==>
      (from <= r.value.start && r.value.alt < |alts|
       && MatchesAt(s, alts[r.value.alt], r.value.start)
       && forall b :: 0 <= b < r.value.alt ==> !MatchesAt(s, alts[b], r.value.start))
    ensures forall j, b :: from <= j && (r.None? || j < r.value.start) && 0 <= b < |alts| ==>
      !MatchesAt(s, alts[b], j)
    decreases |s| - from
  {
    if from >= |s| then None
    else match FirstAlt(s, alts, from, 0)
      case Some(a) => Some(Hit(from, a))
      case None => Search(s, alts, from + 1)
  }

  /** The match at `i` by alternative `a` is the leftmost one: nothing
      matches earlier, and no earlier alternative matches at `i`. */
  predicate Leftmost(s: string, alts: seq<Pattern>, i: nat, a: nat) {
    a < |alts| && MatchesAt(s, alts[a], i)
    && (forall b :: 0 <= b < a ==> !MatchesAt(s, alts[b], i))
    && (forall j, b :: 0 <= j < i && 0 <= b < |alts| ==> !MatchesAt(s, alts[b], j))
  }

  /** The run that the alternative `a`, matched at `i`, captures. */
  function Captured(s: string, alts: seq<Pattern>, i: nat, a: nat): (id: string)
    requires a < |alts| && MatchesAt(s, alts[a], i)
    ensures |id| >= 1
    ensures forall k :: 0 <= k < |id| ==> InClass(id[k], alts[a].cls)
  {
    var from := i + |alts[a].literal|;
    s[from..from + Run(s, from, alts[a].cls)]
  }

  /** `s.match(re)`, reduced to the captured identifier: the longest class
      run after the leftmost match, or nothing when no alternative matches
      anywhere. */
  function Match(s: string, alts: seq<Pattern>): (r: Option<string>)
    ensures r.None? <==> forall j, b :: 0 <= b < |alts| ==> !MatchesAt(s, alts[b], j)
    ensures r.Some? ==> exists i, a :: Leftmost(s, alts, i, a) && r.value == Captured(s, alts, i, a)
  {
    match Search(s, alts, 0)
    case None => None
    case Some(h) =>
      assert Leftmost(s, alts, h.start, h.alt);
      Some(Captured(s, alts, h.start, h.alt))
  }

  /** The leftmost match is unique, so `Match` captures exactly its run. */
  lemma MatchIsLeftmost(s: string, alts: seq<Pattern>, i: nat, a: nat)
    requires Leftmost(s, alts, i, a)
    ensures Match(s, alts) == Some(Captured(s, alts, i, a))
  {
    var h := Search(s, alts, 0);
    assert h.Some?;
    assert h.value.start == i && h.value.alt == a;
  }

  /** `/artist\/([a-zA-Z0-9]+)/` */
  const SpotifyPattern: seq<Pattern> := [Pattern("artist/", Alnum)]

  /** `/artist\/(\d+)/` */
  const ApplePattern: seq<Pattern> := [Pattern("artist/", Digits)]

  /** `/@([a-zA-Z0-9_-]+)|channel\/([a-zA-Z0-9_-]+)|user\/([a-zA-Z0-9_-]+)/` */
  const YoutubePattern: seq<Pattern> := [Pattern("@", Word), Pattern("channel/", Word), Pattern("user/", Word)]

  /** `/soundcloud\.com\/([a-zA-Z0-9_-]+)/` */
  const SoundcloudPattern: seq<Pattern> := [Pattern("soundcloud.com/", Word)]

  /** The app URI for an identifier captured by a pattern, if any. */
  function Rewrite(url: string, alts: seq<Pattern>, scheme: string): string {
    match Match(url, alts)
    case Some(id) => scheme + id
    case None => url
  }

  /** `getDeepLink`, with the presence of `window` and the mobile test of
      the user agent as inputs. Without a window or off mobile, and for any
      platform but the four with an app scheme, the URL is returned; a
      YouTube match of any of its three alternatives gives a channel URI. */
  function GetDeepLink(url: string, platform: string, hasWindow: bool, isMobile: bool): (r: string)
    ensures !hasWindow || !isMobile ==> r == url
    ensures platform !in {"spotify", "apple", "youtube", "soundcloud"} ==> r == url
  {
    if !hasWindow then url
    else if !isMobile then url
    else if platform == "spotify" then Rewrite(url, SpotifyPattern, "spotify:artist:")
    else if platform == "apple" then Rewrite(url, ApplePattern, "music://artist/")
    else if platform == "youtube" then Rewrite(url, YoutubePattern, "youtube://channel/")
    else if platform == "soundcloud" then Rewrite(url, SoundcloudPattern, "soundcloud://users/")
    else url
  }

  /** The URI scheme each platform's identifier is put behind. */
  function Scheme(platform: string): string {
    if platform == "spotify" then "spotify:artist:"
    else if platform == "apple" then "music://artist/"
    else if platform == "youtube" then "youtube://channel/"
    else "soundcloud://users/"
  }

  /** The expression each platform's identifier is taken by. */
  function PatternOf(platform: string): seq<Pattern> {
    if platform == "spotify" then SpotifyPattern
    else if platform == "apple" then ApplePattern
    else if platform == "youtube" then YoutubePattern
    else SoundcloudPattern
  }

  /** On a phone, for the four app platforms: the leftmost match of the
      platform's expression decides the URI, and its longest run is the
      identifier. */
  lemma DeepLinkOfMatch(url: string, platform: string, i: nat, a: nat)
    requires platform in {"spotify", "apple", "youtube", "soundcloud"}
    requires Leftmost(url, PatternOf(platform), i, a)
    ensures GetDeepLink(url, platform, true, true) == Scheme(platform) + Captured(url, PatternOf(platform), i, a)
  {
    MatchIsLeftmost(url, PatternOf(platform), i, a);
  }

  /** On a phone, a URL the platform's expression does not match anywhere
      is returned unchanged. */
  lemma DeepLinkWithoutMatch(url: string, platform: string)
    requires platform in {"spotify", "apple", "youtube", "soundcloud"}
    requires forall j, b :: 0 <= b < |PatternOf(platform)| ==> !MatchesAt(url, PatternOf(platform)[b], j)
    ensures GetDeepLink(url, platform, true, true) == url
  {
    assert Match(url, PatternOf(platform)).None?;
  }

  /** A rewritten link always starts with its platform's scheme, and is
      only produced on a phone. */
  lemma DeepLinkShape(url: string, platform: string, hasWindow: bool, isMobile: bool)
    ensures var r := GetDeepLink(url, platform, hasWindow, isMobile);
      r == url || (hasWindow && isMobile && platform in {"spotify", "apple", "youtube", "soundcloud"}
        && StartsWith(r, Scheme(platform)))
  {
    var r := GetDeepLink(url, platform, hasWindow, isMobile);
    if r != url {
      var id := Match(url, PatternOf(platform)).value;
      assert r == Scheme(platform) + id;
      assert r[..|Scheme(platform)|] == Scheme(platform);
    }
  }

  /** An `artist/` not followed by a letter or digit is skipped: the first
      one that is decides the Spotify identifier. */
  lemma SpotifySkipsEmptyMatch(s: string)
    requires s == "artist/-artist/7"
    ensures GetDeepLink(s, "spotify", true, true) == "spotify:artist:7"
  {
    SecondArtistIsLeftmost(s);
    DeepLinkOfMatch(s, "spotify", 8, 0);
    assert Run(s, 15, Alnum) == 1;
    assert s[15..16] == "7";
  }

  lemma SecondArtistIsLeftmost(s: string)
    requires s == "artist/-artist/7"
    ensures Leftmost(s, SpotifyPattern, 8, 0)
  {
    var p := SpotifyPattern[0];
    assert s[8..15] == "artist/";
    assert !MatchesAt(s, p, 0) by { assert s[7] == '-'; }
    forall j | 1 <= j < 8
      ensures !MatchesAt(s, p, j)
    {
      assert s[j + 6] != '/';
      Mismatch(s, p.literal, j, 6);
    }
  }

  /** A run that reaches the end of the text is all of it. */
  lemma {:induction false} RunToEnd(s: string, from: nat, cls: CharClass)
    requires from <= |s|
    requires forall k :: from <= k < |s| ==> InClass(s[k], cls)
    ensures Run(s, from, cls) == |s| - from
    decreases |s| - from
  {
    if from < |s| {
      RunToEnd(s, from + 1, cls);
    }
  }

  /** A YouTube `user/` URL is still sent to the channel URI, with the
      whole user name as the channel identifier. */
  lemma YoutubeUserAtStart(s: string, name: string)
    requires s == "user/" + name && name != ""
    requires forall k :: 0 <= k < |name| ==> InClass(name[k], Word)
    ensures GetDeepLink(s, "youtube", true, true) == "youtube://channel/" + name
  {
    UserIsLeftmost(s, name);
    DeepLinkOfMatch(s, "youtube", 0, 2);
    UserCaptured(s, name);
  }

  lemma UserIsLeftmost(s: string, name: string)
    requires s == "user/" + name && name != ""
    requires InClass(name[0], Word)
    ensures Leftmost(s, YoutubePattern, 0, 2)
  {
    assert s[..5] == "user/";
    assert s[5] == name[0];
    Mismatch(s, "@", 0, 0);
    if |s| >= 8 {
      Mismatch(s, "channel/", 0, 0);
    }
  }

  lemma UserCaptured(s: string, name: string)
    requires s == "user/" + name && name != ""
    requires forall k :: 0 <= k < |name| ==> InClass(name[k], Word)
    requires MatchesAt(s, YoutubePattern[2], 0)
    ensures Captured(s, YoutubePattern, 0, 2) == name
  {
    assert forall k :: 5 <= k < |s| ==> s[k] == name[k - 5];
    RunToEnd(s, 5, Word);
    assert s[5..] == name;
  }

  /** A concrete `user/` URL. */
  lemma YoutubeUserIsChannel(s: string)
    requires s == "user/ab"
    ensures GetDeepLink(s, "youtube", true, true) == "youtube://channel/ab"
  {
    assert s == "user/" + "ab";
    YoutubeUserAtStart(s, "ab");
  }
}
