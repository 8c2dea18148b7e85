# A Dafny model of the FALLAGNG website's locale resolver and page logic

The FALLAGNG website is a bilingual (English and French) Next.js site. This project models, in Dafny, the parts of it that decide something:

- **The request-time locale resolver** (`middleware.ts`). For every request it does the following:
  - takes the locale from the path, then from the `locale` cookie, then falls back to the default;
  - lets framework internals, API routes, images, fonts, dotted paths and the favicon through;
  - redirects any other path without a locale to `/{locale}{path}`. The redirect goes to the `Host` header's host; a port is kept only for `localhost` and `127.0.0.1`;
  - sets the one `locale` cookie (path `/`, one year) on every response.
- **The link helpers** (`lib/i18n.ts`): `getLocale`, `removeLocaleFromPath` and `addLocaleToPath`.
- **The message bundles** (`lib/translations.ts`): the registry of bundles by locale, and the lookup of a dotted key, which falls back to the key.
- **The app deep links** (`lib/deep-links.ts`): on a phone, a Spotify, Apple Music, YouTube or SoundCloud URL is rewritten to the URI that opens the app. Each rewrite uses the leftmost match of the platform's regular expression.
- **The site header** (`components/site-header.tsx`):
  - the language switch, which writes the cookie and then navigates;
  - the rule that hides the header on a downward scroll;
  - the active navigation item.
- **The member grid** (`components/members-grid.tsx`):
  - role translation;
  - the sorted list of individual roles;
  - filtering by role;
  - the role kept in the URL hash;
  - each card's image carousel;
  - the Instagram link.
- **The countdown** (`components/countdown-timer.tsx`): the time left, split into days, hours, minutes and seconds, and the text shown for it.
- **The video player** (`components/video-embed.tsx`):
  - thumbnail and player URLs;
  - Instagram permalinks for posts and reels;
  - which of the four renderings is shown;
  - the `isPlaying` flag.

Code that computes a value is modelled as Dafny functions and lemmas. Code that changes state is modelled as classes and methods. This covers:

- the resolver's step-by-step `middleware`;
- the translation loop;
- the role-set loop;
- the browser state touched by the language switch;
- the header's scroll state;
- the role filter;
- the carousel;
- the video player state.

Each method is proved against a specification function. Its properties are proved as lemmas.

The files are as follows:

- `wrappers.dfy`: `Option`.
- `strings.dfy`: the JavaScript string operations the site uses, on `seq<char>`.
- One module per source file: `middleware.dfy`, `i18n.dfy`, `translations.dfy`, `deep_links.dfy`, `site_header.dfy`, `members_grid.dfy`, `countdown_timer.dfy` and `video_embed.dfy`.

### Where the code's intent and its behaviour differ

The model follows what the code does in each of these places:

- **Cookie validation.** The cookie's value is cast `as Locale` (middleware.ts:27), so only `en` and `fr` were meant to reach the redirect. The code nevertheless uses any non-empty cookie value. `Middleware.UnvalidatedCookieRedirectsTwice` shows the effect: with cookie `de`, `/x` redirects to `/de/x`, and that path redirects again, to `/de/de/x`.
- **Locale prefix test.** The comment at middleware.ts:12 speaks of any supported locale in the path. The test at middleware.ts:13-15 only accepts `/en` or `/fr` exactly, or a path starting with `/en/` or `/fr/`. The client-side `getLocale` (lib/i18n.ts:5-14), in contrast, reads the first non-empty segment. `I18n.GetLocaleAgreesWithResolver` shows the two agree on every path the resolver considers prefixed.
- **Header locale.** The header reads the current locale through `useTranslations`, which is `getLocale` of the current path. The model uses `GetLocale(pathname)` directly.

## Model

| member | source | states |
|---|---|---|
| Strings.JoinSplit | lib/i18n.ts:6 | `split` loses nothing: joining its pieces with the separator gives the text back |
| Strings.SplitJoin | components/members-grid.tsx:39-40 | Splitting pieces joined by a separator they do not hold gives the pieces back |
| Strings.NonEmpty | lib/i18n.ts:6 | `filter(Boolean)` keeps exactly the non-empty strings |
| Strings.ContainsIff | components/members-grid.tsx:28 | `includes` holds exactly when the text occurs somewhere |
| Strings.TrimSpec | components/members-grid.tsx:41 | `trim` gives exactly the text between the leading and the trailing white space |
| Strings.LowerIdempotent | components/members-grid.tsx:24 | Lower-casing twice is lower-casing once |
| Middleware.LocaleTestIsExact | middleware.ts:13-15 | The locale test compares text exactly and case-sensitively: `/english` and `/EN` carry no locale; `/en` and `/fr/listen` do |
| Middleware.PathLocale | middleware.ts:18-24 | A path with a locale names a locale, and the path is `/L` or starts with `/L/` for it |
| Middleware.CookieLocale | middleware.ts:27 | A present, non-empty cookie value is the result exactly; a missing or empty cookie gives the default `en`; the result is never empty and is not checked against the locales |
| Middleware.ResolveLocale | middleware.ts:12-28 | With a locale in the path, that locale (a supported one) wins and the cookie is ignored; otherwise a present, non-empty cookie value is the result exactly and a missing or empty cookie gives the default |
| Middleware.PathLocaleIsFirstSegment | middleware.ts:19-24 | On a path with a locale, the first non-empty segment of the split exists and is that locale, so the segment lookup always succeeds |
| Middleware.HandleRequest | middleware.ts:9-82 | The step-by-step handler (reassigned locale, bypass test, cloned URL with its path, hostname and port set, cookie on each of the three responses) gives exactly the decision `Decide` |
| Middleware.DecisionShape | middleware.ts:30-81 | Every response carries exactly one cookie, `locale`, holding the resolved locale with path `/` and max-age 31536000. Bypassed paths and paths with a locale pass through. Every other path redirects to `/L` + path (`/L` for the root), keeping the scheme and the query |
| Middleware.RedirectIdempotent | middleware.ts:12-73 | With no cookie, an empty cookie or a locale cookie, following a redirect, whatever cookie and `Host` header come with it, passes through with the same locale and cookie |
| Middleware.UnvalidatedCookieRedirectsTwice | middleware.ts:25-50 | With the unsupported cookie `de`, `/x` redirects to `/de/x`, and `/de/x` redirects again, to `/de/de/x` |
| Middleware.RewriteHostSpec | middleware.ts:54-65 | For a non-empty header, the redirect keeps the scheme, path and query. Its hostname is the header's first `:`-piece, that is, the header up to its first `:`. `localhost` and `127.0.0.1` keep a port: the header's second piece when non-empty, else the request's. Any other host gets an empty port |
| Middleware.LocalhostKeepsPort | middleware.ts:57-61 | `Host: localhost:3000` gives hostname `localhost` and port `3000` |
| Middleware.PublicHostDropsPort | middleware.ts:57-64 | A public host gives that hostname and no port |
| Middleware.LocalePrefixed | middleware.ts:13-24 | A path that is `/L` or starts with `/L/` counts as prefixed, and its locale is L |
| Middleware.CookieRedirect | middleware.ts:25-50 | A non-bypassed path other than the root, without a locale, is redirected to `/` + cookie value + path, whatever that value is |
| Middleware.HostAndPort | middleware.ts:57 | A header `name:port`, with or without further `:`-pieces, destructures into its name and its port |
| Middleware.RewriteHostOfHeader | middleware.ts:55-65 | For a header `name:port…`, the redirect goes to `name`; `localhost` and `127.0.0.1` keep `port`, or the request's port when it is empty; any other host gets no port; nothing else changes |
| Middleware.RewriteHostWithoutHeader | middleware.ts:55-56 | Without a `Host` header, or with an empty one, the cloned URL's host and port are kept |
| Middleware.RedirectWithoutHost | middleware.ts:49-66 | Without a usable `Host` header, the redirect is the request's URL with only the path changed |
| I18n.GetLocaleSpec | lib/i18n.ts:5-14 | `getLocale` is `fr` exactly when the first non-empty segment is `fr`, and `en` when that segment is `en` or anything else |
| I18n.GetLocaleAgreesWithResolver | lib/i18n.ts:5-14 | On every path the resolver sees as prefixed, `getLocale` gives the resolver's locale |
| I18n.RemoveLocaleFromPath | lib/i18n.ts:16-22 | The cleaned path is never empty (an empty result becomes `/`) |
| I18n.RemoveCutsFirstOccurrence | lib/i18n.ts:16-22 | The first occurrence of `/L` (L the path's locale), wherever it is, is cut out and nothing else changes |
| I18n.RemoveWithoutOccurrence | lib/i18n.ts:16-22 | A path without `/L` is returned unchanged, except that the empty path becomes `/` |
| I18n.AddLocaleToPath | lib/i18n.ts:24-30 | The result always starts with `/` |
| I18n.AddDefaultIdempotent | lib/i18n.ts:24-28 | For `en` the result is the path with a leading `/` ensured, so applying it twice is applying it once |
| I18n.AddFrenchIsFrench | lib/i18n.ts:24-30 | A path built for `fr` is seen as `fr` by both the resolver and `getLocale` |
| I18n.RemoveAddRoundTrip | lib/i18n.ts:16-30 | Removing the locale from a path built for `fr` gives back every path that starts with `/` |
| I18n.RemoveDefaultCutsInsideSegment | lib/i18n.ts:16-30 | There is no such round trip for `en`: `/entry` has the default locale, is built as `/entry` and is cleaned to `try` |
| I18n.LeadingLocale | lib/i18n.ts:5-22 | A path that is `/L` or starts with `/L/` has the locale L, and is cleaned to what follows `/L` (`/` for `/L` itself) |
| I18n.OneSegment | lib/i18n.ts:5-14 | A path of one segment has that segment's locale when it names one, else the default |
| I18n.DefaultCutsPrefix | lib/i18n.ts:16-22 | On a default-locale path that starts with `/en`, even inside a longer segment, those three characters are cut |
| I18n.AddToSlashPath | lib/i18n.ts:24-30 | A path starting with `/` is kept as it is for `en`, and, unless it is the root, only prefixed with `/L` for another locale |
| I18n.RemoveFrenchExample | lib/i18n.ts:16-22 | `/fr/x` is cleaned to `/x` |
| I18n.RemoveEnglishExample | lib/i18n.ts:16-22 | `/en/x` is cleaned to `/x` |
| I18n.RemoveRootExample | lib/i18n.ts:16-22 | `/` stays `/` |
| Translations.Registry | lib/translations.ts:7-10 | The registry has exactly one bundle per locale, `en` and `fr` |
| Translations.GetTranslations | lib/translations.ts:12-14 | Each locale gets its own bundle |
| Translations.GetNestedTranslation | lib/translations.ts:19-26 | The loop that reassigns `value` once per dotted piece computes the lookup: the string the pieces lead to, else the key |
| Translations.DescendMissing | lib/translations.ts:22-24 | Once a member is missing, the optional chaining stays missing to the end rather than failing |
| Translations.DescendAppend | lib/translations.ts:22-24 | Descending along `a + b` is descending along `a`, then along `b` |
| Translations.MissingGivesKey | lib/translations.ts:19-26 | When some prefix of the key's pieces leads nowhere, the key itself is returned |
| Translations.DescendPut | lib/translations.ts:20-24 | Descending a path finds the value stored at that path |
| Translations.LookupPut | lib/translations.ts:19-26 | A message stored under the pieces `k1`…`kn` (none holding `.`) is what the key `k1.….kn` translates to |
| Translations.LookupObjectGivesKey | lib/translations.ts:25 | A key that leads to an object translates to itself |
| Translations.LookupInLeaf | lib/translations.ts:22-25 | Looking any key up in a plain string finds nothing, so gives the key |
| DeepLinks.Run | lib/deep-links.ts:20-48 | `class+` is greedy: it captures the longest run of class characters |
| DeepLinks.FirstAlt | lib/deep-links.ts:36 | Among alternatives at one position, the first that matches is taken, and no earlier one matches |
| DeepLinks.Search | lib/deep-links.ts:20-48 | The match found is the leftmost one, and nothing matches before it |
| DeepLinks.Captured | lib/deep-links.ts:20-50 | A captured identifier is non-empty and made of the class's characters |
| DeepLinks.Match | lib/deep-links.ts:20-50 | `match` fails exactly when no alternative matches anywhere; otherwise it captures at a leftmost match |
| DeepLinks.MatchIsLeftmost | lib/deep-links.ts:20-50 | The leftmost match is unique, so the capture is exactly its run |
| DeepLinks.GetDeepLink | lib/deep-links.ts:5-61 | Without a window, off mobile, and for any platform without an app scheme (`bandcamp` included), the URL is returned |
| DeepLinks.DeepLinkOfMatch | lib/deep-links.ts:17-52 | On a phone, the four app platforms rewrite to the platform's scheme plus the leftmost match's identifier |
| DeepLinks.DeepLinkWithoutMatch | lib/deep-links.ts:17-60 | On a phone, a URL the platform's expression does not match is returned unchanged |
| DeepLinks.DeepLinkShape | lib/deep-links.ts:5-61 | A rewritten link only arises on a phone, for an app platform, and starts with that platform's scheme |
| DeepLinks.SpotifySkipsEmptyMatch | lib/deep-links.ts:18-23 | `artist/` not followed by a letter or digit is skipped: `artist/-artist/7` gives `spotify:artist:7` |
| DeepLinks.SecondArtistIsLeftmost | lib/deep-links.ts:20 | In `artist/-artist/7` the leftmost Spotify match is at index 8 |
| DeepLinks.RunToEnd | lib/deep-links.ts:36 | When every character to the end is in the class, the run reaches the end |
| DeepLinks.YoutubeUserAtStart | lib/deep-links.ts:34-43 | A URL `user/` + name, for any name of word characters, is sent to the channel URI with the whole name |
| DeepLinks.YoutubeUserIsChannel | lib/deep-links.ts:34-43 | `user/ab` is sent to `youtube://channel/ab` |
| SiteHeader.ToggleLocale | components/site-header.tsx:76 | The switch always goes to the other locale |
| SiteHeader.ToggleInvolution | components/site-header.tsx:76 | Switching twice returns to the starting locale |
| SiteHeader.SwitchTarget | components/site-header.tsx:75-78 | The switch always navigates to a path starting with `/` |
| SiteHeader.SwitchFromFrench | components/site-header.tsx:75-78 | From a page below `/fr/` the switch drops the `/fr` prefix |
| SiteHeader.SwitchFromEnglish | components/site-header.tsx:75-78 | From a page below `/en/` the switch replaces `/en` with `/fr` |
| SiteHeader.SwitchExamples | components/site-header.tsx:75-78 | From `/fr/x` the switch goes to `/x`; from `/en/x` it goes to `/fr/x` |
| SiteHeader.Browser.HandleLanguageSwitch | components/site-header.tsx:75-83 | The `locale` cookie for the other locale is written first, then the target path is pushed; nothing else changes |
| SiteHeader.SwitchCookieIsResolverCookie | components/site-header.tsx:81 | The switch writes the same cookie the resolver writes: path `/`, 31536000 seconds |
| SiteHeader.SwitchToFrench | components/site-header.tsx:75-83 | The request that follows a switch to French, carrying the new cookie, passes the resolver with `fr` |
| SiteHeader.SwitchToEnglish | components/site-header.tsx:75-83 | After a switch to English, the resolver redirects the unprefixed target to `/en`…, sets `en`, and that request then passes through |
| SiteHeader.HeaderVisibility.constructor | components/site-header.tsx:30-31 | The header starts visible at scroll position 0 |
| SiteHeader.HeaderVisibility.HandleScroll | components/site-header.tsx:86-102 | A scroll event applies the scroll rule and records the position; a hidden header is always at a position beyond 100 |
| SiteHeader.ScrollRule | components/site-header.tsx:90-99 | Near the top or scrolling up shows the header. Scrolling down past 100 hides it. Staying put, or arriving at exactly 100, keeps the current visibility |
| SiteHeader.ActiveIff | components/site-header.tsx:149-152 | An item is active exactly when the cleaned path equals its target; the empty-path test never fires |
| SiteHeader.AtMostOneActive | components/site-header.tsx:149-152 | No two navigation items are active at once |
| SiteHeader.NavHrefHasNoEn | components/site-header.tsx:68-73 | No navigation target contains `/en` |
| SiteHeader.NavHrefIsEnglish | components/site-header.tsx:68-73 | Every navigation target has the default locale |
| SiteHeader.NavLinkIsActive | components/site-header.tsx:149-152 | Following a navigation link in either locale marks that item active, and only that one |
| SiteHeader.EnglishNavLinkIsActive | components/site-header.tsx:149-152 | Cleaning an English navigation link gives its target back |
| MembersGrid.TranslateRoleNormalises | components/members-grid.tsx:23-31 | Case and surrounding white space do not matter: ` Singer\n` gets the singer label |
| MembersGrid.TranslateSingerNormalises | components/members-grid.tsx:23-25 | Any casing of `singer`, with any white space around it, gets the singer label |
| MembersGrid.TranslateCombined | components/members-grid.tsx:23-31 | A role whose trimmed lower-cased form contains both `singer` and `producer`, and is none of the three single roles, gets the combined label |
| MembersGrid.TranslateRoleRange | components/members-grid.tsx:23-31 | The result is one of the four labels or the role as written, and it is the role itself when no rule applies |
| MembersGrid.RolePieces | components/members-grid.tsx:39-42 | No listed piece is empty |
| MembersGrid.TrimAll | components/members-grid.tsx:41 | Each piece is trimmed, one for one |
| MembersGrid.RolePieceShape | components/members-grid.tsx:39-42 | Each listed role is non-empty and holds no `&`. It starts and ends with a non-space character. It occurs in the member's role |
| MembersGrid.RolePieceOrigin | components/members-grid.tsx:39-42 | Each listed role is the trim of some piece of the `&` split |
| MembersGrid.TrimInside | components/members-grid.tsx:41 | A trimmed piece lies inside the piece |
| MembersGrid.LessIrreflexive | components/members-grid.tsx:45 | The string order used by `sort` is irreflexive |
| MembersGrid.LessTransitive | components/members-grid.tsx:45 | The string order is transitive |
| MembersGrid.LessTotal | components/members-grid.tsx:45 | Any two different strings are ordered |
| MembersGrid.Insert | components/members-grid.tsx:45 | Inserting into an ascending list keeps it ascending and adds exactly the new element |
| MembersGrid.Sort | components/members-grid.tsx:45 | `sort` returns a strictly ascending permutation of its input |
| MembersGrid.AddAll | components/members-grid.tsx:36-43 | Adding pieces to the insertion-ordered `Set` keeps it duplicate-free, adds exactly the new pieces, and keeps the existing order as a prefix |
| MembersGrid.Roles | components/members-grid.tsx:35-46 | The role list holds exactly the pieces of the members' roles, ascending and without duplicates |
| MembersGrid.RolesOfMembers | components/members-grid.tsx:35-46 | A role is listed exactly when it is a piece of some member's role |
| MembersGrid.RolePiecesOfPair | components/members-grid.tsx:39-42 | `A & B`, for trimmed roles without `&`, gives the two roles `A` and `B` |
| MembersGrid.FilteredMembers | components/members-grid.tsx:77-85 | With no selection (or an empty one) all members are shown. With a selection, only members it selects are shown |
| MembersGrid.Filter | components/members-grid.tsx:80-84 | A member is kept exactly when its lower-cased role contains the lower-cased selection |
| MembersGrid.FilterAppend | components/members-grid.tsx:80-84 | `filter` keeps order: filtering a concatenation is filtering each part, in place |
| MembersGrid.FilterSingle | components/members-grid.tsx:80-84 | A single member is kept exactly when the selection picks it |
| MembersGrid.FilterCount | components/members-grid.tsx:80-84 | Each picked member occurs in the result as often as in the input, and an unpicked one not at all |
| MembersGrid.FilterComplete | components/members-grid.tsx:77-85 | Every member the selection picks is shown |
| MembersGrid.EveryRoleSelectsSomeone | components/members-grid.tsx:35-85 | Every role button shows at least one member |
| MembersGrid.CollapseSpaces | components/members-grid.tsx:69 | Replacing runs of white space leaves no white space |
| MembersGrid.FindFrom | components/members-grid.tsx:55-59 | `find` returns the first matching role, and none before it matches |
| MembersGrid.ReadHash | components/members-grid.tsx:49-64 | A hash selects the first role that matches it. An empty hash, or one no role matches, selects none |
| MembersGrid.CollapseIsolated | components/members-grid.tsx:69 | For text whose only white space is single spaces, each space becomes one `-` |
| MembersGrid.SlugOfSingleSpaced | components/members-grid.tsx:53-69 | For such a role, the written hash is lower case and normalises back to the lower-cased role |
| MembersGrid.WrittenHash | components/members-grid.tsx:66-74 | A hash is written exactly when a non-empty role is selected; it is non-empty and holds no white space (every run became a `-`) |
| MembersGrid.HashRoundTrip | components/members-grid.tsx:49-74 | For single-spaced roles that differ other than in case, the hash the filter writes for a role (`WrittenHash`) is present and reading it back selects that same role |
| MembersGrid.HashCollision | components/members-grid.tsx:49-74 | Without single spacing the round trip fails: `a - b` is written `a---b`, which selects `a   b` |
| MembersGrid.RoleFilter.constructor | components/members-grid.tsx:19 | No role is selected at first |
| MembersGrid.RoleFilter.ClickRole | components/members-grid.tsx:112-117 | Clicking the active role clears the selection; clicking any other role selects it |
| MembersGrid.RoleFilter.ShowAll | components/members-grid.tsx:99 | The "All" button clears the selection |
| MembersGrid.RoleFilter.ApplyHash | components/members-grid.tsx:49-64 | On load, a role matching the hash is selected; otherwise the selection stays |
| MembersGrid.Toggle | components/members-grid.tsx:117 | Clicking selects the role exactly when it was not already selected, and otherwise clears the selection |
| MembersGrid.ToggleTwice | components/members-grid.tsx:117 | Clicking a role twice returns to the starting selection |
| MembersGrid.CarouselImages | components/members-grid.tsx:203 | A missing carousel gives the headshot alone; a present one, even empty, is used as is |
| MembersGrid.NextIndex | components/members-grid.tsx:227-230 | From a valid image index, the next index is a valid image index |
| MembersGrid.PreviousIndex | components/members-grid.tsx:222-225 | From a valid image index, the previous index is a valid image index |
| MembersGrid.NextPreviousInverse | components/members-grid.tsx:222-230 | Next and previous undo each other |
| MembersGrid.CarouselWraps | components/members-grid.tsx:222-230 | Next wraps from the last image to the first, and previous from the first to the last |
| MembersGrid.Carousel.constructor | components/members-grid.tsx:202-203 | A card starts at its first image |
| MembersGrid.Carousel.Next | components/members-grid.tsx:227-230 | Next moves to the next image with wrap-around and stays a valid index |
| MembersGrid.Carousel.Previous | components/members-grid.tsx:222-225 | Previous moves to the previous image with wrap-around and stays a valid index |
| MembersGrid.Carousel.Tick | components/members-grid.tsx:206-215 | The auto-rotation advances only with several images |
| MembersGrid.Carousel.Select | components/members-grid.tsx:277-299 | A dot button, rendered only with several images, makes its own index the current one, which stays valid |
| MembersGrid.Carousel.Reset | components/members-grid.tsx:217-220 | A member change returns to the first image |
| MembersGrid.InstagramUrl | components/members-grid.tsx:232-238 | A missing or empty handle gives `#` |
| MembersGrid.InstagramRoundTrip | components/members-grid.tsx:232-238 | The profile URL names its handle, and a leading `@` is dropped |
| CountdownTimer.CalculateTimeRemaining | components/countdown-timer.tsx:29-58 | When the target is not in the future, all fields are zero. Otherwise: total is the difference, hours are below 24, minutes and seconds below 60, and the units add back up to the difference less its milliseconds |
| CountdownTimer.DecompositionUnique | components/countdown-timer.tsx:44-57 | The split is the only one within the units' ranges |
| CountdownTimer.CountdownExample | components/countdown-timer.tsx:44-57 | 5 d 12 h 30 min 15 s 7 ms splits into 5, 12, 30 and 15 |
| CountdownTimer.DisplayZeroIff | components/countdown-timer.tsx:97-101 | `00:00:00:00` is shown exactly when the target is not in the future |
| CountdownTimer.LoaderTextDeterminesTime | components/countdown-timer.tsx:76-84 | The loader's text `{d}d {h}h {m}m {s}s` determines the days, hours, minutes and seconds |
| VideoEmbed.ThumbnailUrl | components/video-embed.tsx:56-64 | A site-local (non-`http`) thumbnail always wins |
| VideoEmbed.YouTubeThumbnailIff | components/video-embed.tsx:56-64 | A YouTube video shows YouTube's still exactly when no site-local image was given; an `http` thumbnail is ignored |
| VideoEmbed.OtherThumbnailIsProp | components/video-embed.tsx:56-64 | Off YouTube, the thumbnail is shown as given, or `""` when it is absent |
| VideoEmbed.ThumbnailFallback | components/video-embed.tsx:213-232 | On an image error YouTube retries with its still for the same video; other platforms hide the image |
| VideoEmbed.EmbedAutoplays | components/video-embed.tsx:66-75 | The YouTube and Vimeo player URLs ask for autoplay |
| VideoEmbed.EmbedUrlRoundTrip | components/video-embed.tsx:66-75 | Each platform's player URL wraps the video id between a fixed prefix and suffix and gives it back |
| VideoEmbed.Permalink | components/video-embed.tsx:98-101 | The permalink is a `/reel/` link exactly when the id starts with `D` and has 11 characters |
| VideoEmbed.PermalinkRoundTrip | components/video-embed.tsx:98-101 | The permalink gives its id back, so different posts get different permalinks |
| VideoEmbed.ReelExamples | components/video-embed.tsx:98 | `DAbCdEfGhIj` is a reel id; the same id starting with `C` is not |
| VideoEmbed.AspectRatioClass | components/video-embed.tsx:82 | The frame is square exactly for Instagram |
| VideoEmbed.Render | components/video-embed.tsx:96-261 | Exactly one of four renderings is chosen: playing Instagram gives the blockquote; playing elsewhere, the player; idle Instagram, the preview; idle elsewhere, the thumbnail. Exactly the idle ones are clickable |
| VideoEmbed.PreviewIsPlayerUrl | components/video-embed.tsx:149-177 | Instagram's idle preview loads the same address as its player URL |
| VideoEmbed.EmbedState.constructor | components/video-embed.tsx:28 | `isPlaying` starts at `autoplay`, and no `onPlay` call has happened |
| VideoEmbed.EmbedState.HandlePlay | components/video-embed.tsx:77-80 | After `handlePlay` the video is playing and `onPlay` has been called once, if given. The player or blockquote is shown, and nothing is clickable any more |

## Left out

- Next.js objects are reduced to the fields read. `NextRequest`, `NextResponse`, headers and the redirect status code are replaced by `Request`, `Response` and `Outcome`. The `config.matcher` that decides which requests reach the resolver is not modelled.
- URL setter semantics are not modelled: the WHATWG validation of a `hostname` or `port`, default-port dropping and percent-encoding. The model assigns the text as given, and `Host` headers with IPv6 brackets are split naively on `:`, as the code does.
- Middleware.RedirectIdempotent: proved only for an absent, empty, `en` or `fr` cookie. The code does not validate the cookie, and `Middleware.UnvalidatedCookieRedirectsTwice` shows that other values redirect twice.
- The JSON message bundles are not part of this model. They are inputs of `Translations.Registry`, as an abstract tree.
- Translations.Lookup: descending into a string value counts as a missing member. JavaScript would index the string's characters, and the model leaves that out.
- Translations.Step: only the bundle's own members are reached. JavaScript's `value?.[k]` also reaches array indices and inherited members, so `constructor.name` gives `"Object"` in the code, while the model gives the key back.
- `toLowerCase` is modelled for ASCII letters only; Unicode case mapping is left out.
- MembersGrid.Less: orders by code point. JavaScript's default `sort` compares UTF-16 code units, which differs only outside the Basic Multilingual Plane.
- VideoEmbed.IsReel: counts the id's length in code points. JavaScript's `.length` counts UTF-16 code units, which differs only for ids outside the Basic Multilingual Plane.
- SiteHeader.HeaderVisibility.HandleScroll: takes the scroll position as an integer. `window.scrollY` is a floating-point number, and fractional positions are not modelled.
- MembersGrid.HashRoundTrip: proved only for roles that are single-spaced, hold no `-` and differ other than in case. The code promises no more, and `MembersGrid.HashCollision` shows the round trip fails otherwise.
- Browser I/O is left out. The hash is an input: reading `window.location.hash`, and writing it with `history.replaceState` and percent-encoding, are not modelled. The scroll position, the clock (`new Date()`, `getTime`, the target date) and user-agent detection are inputs as well.
- `handleDeepLink` and its 500 ms fallback timer are left out: they are browser navigation.
- Timers are not modelled: `setInterval` and `setTimeout` in the countdown, the carousel and the header. The countdown is modelled as one computation per tick, and the carousel's rotation as one `Tick` per interval.
- The header's `showCountdown` effect is left out: `localStorage` and DOM polling are browser state.
- The Instagram embed script's loading and processing in the video player are left out: they are foreign calls.
- The presentational parts are left out: animation, class names, hover sounds, and which image component renders a thumbnail.
- The switch from `/fr/fr/x` to English lands on `/fr/x`, which is still French. This follows from `I18n.RemoveCutsFirstOccurrence` and is not stated as a lemma of its own.
