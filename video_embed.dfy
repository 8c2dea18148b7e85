/** The video player of components/video-embed.tsx: which thumbnail and
    which player URL a video gets, the permalink of an Instagram post or
    reel, and which of the four renderings is shown, from the `isPlaying`
    flag that a click (or `autoplay`) turns on. */
module VideoEmbed {
  import opened Wrappers
  import opened Strings

  /** The `platform` prop. */
  datatype Platform = YouTube | Vimeo | Instagram

  /** The text between a known prefix and a known suffix, if `url` has
      both. */
  function Between(url: string, prefix: string, suffix: string): (r: Option<string>)
    ensures r.Some? ==> url == prefix + r.value + suffix
  {
    if |prefix| + |suffix| <= |url| && StartsWith(url, prefix) && url[|url| - |suffix|..] == suffix
    then
      var id := url[|prefix|..|url| - |suffix|];
      assert url == url[..|prefix|] + id + url[|url| - |suffix|..];
      Some(id)
    else None
  }

  /** A text built from a prefix, an identifier and a suffix gives the
      identifier back. */
  lemma BetweenOf(prefix: string, id: string, suffix: string)
    ensures Between(prefix + id + suffix, prefix, suffix) == Some(id)
  {
    var url := prefix + id + suffix;
    assert url[..|prefix|] == prefix;
    assert url[|url| - |suffix|..] == suffix;
    assert url[|prefix|..|url| - |suffix|] == id;
  }

  const YouTubeThumbnailPrefix: string := "https://img.youtube.com/vi/"
  const YouTubeThumbnailSuffix: string := "/maxresdefault.jpg"

  /** The still YouTube serves for a video. */
  function YouTubeThumbnail(videoId: string): string {
    YouTubeThumbnailPrefix + videoId + YouTubeThumbnailSuffix
  }

  /** `thumbnail && !thumbnail.startsWith("http")`: a site-local image was
      given. */
  predicate IsCustomThumbnail(thumbnail: Option<string>) {
    thumbnail.Some? && thumbnail.value != "" && !StartsWith(thumbnail.value, "http")
  }

  /** `getThumbnailUrl` */
  function ThumbnailUrl(videoId: string, platform: Platform, thumbnail: Option<string>): (r: string)
    ensures IsCustomThumbnail(thumbnail) ==> r == thumbnail.value
  {
    if IsCustomThumbnail(thumbnail) then thumbnail.value
    else if platform == YouTube then YouTubeThumbnail(videoId)
    else thumbnail.GetOr("")
  }

  /** A YouTube video shows YouTube's still exactly when no site-local
      image was given: an absolute thumbnail URL is ignored. */
  lemma YouTubeThumbnailIff(videoId: string, thumbnail: Option<string>)
    ensures ThumbnailUrl(videoId, YouTube, thumbnail) == YouTubeThumbnail(videoId) <==> !IsCustomThumbnail(thumbnail)
  {
    if IsCustomThumbnail(thumbnail) {
      var t := YouTubeThumbnail(videoId);
      assert t[..4] == "http";
    }
  }

  /** Off YouTube the thumbnail prop is shown as given, or nothing when it
      is absent. */
  lemma OtherThumbnailIsProp(videoId: string, platform: Platform, thumbnail: Option<string>)
    requires platform != YouTube
    ensures ThumbnailUrl(videoId, platform, thumbnail) == thumbnail.GetOr("")
  {
  }

  /** The `onError` handler of the thumbnail: YouTube retries with its own
      still (`Some`), the other platforms hide the image (`None`). */
  function ThumbnailFallback(videoId: string, platform: Platform): (r: Option<string>)
    ensures r.Some? <==> platform == YouTube
    ensures r.Some? ==> Between(r.value, YouTubeThumbnailPrefix, YouTubeThumbnailSuffix) == Some(videoId)
  {
    if platform == YouTube then
      BetweenOf(YouTubeThumbnailPrefix, videoId, YouTubeThumbnailSuffix);
      Some(YouTubeThumbnail(videoId))
    else None
  }

  /** The parts of each platform's player URL around the video id. */
  function EmbedPrefix(platform: Platform): string {
    match platform
    case YouTube => "https://www.youtube.com/embed/"
    case Instagram => "https://www.instagram.com/p/"
    case Vimeo => "https://player.vimeo.com/video/"
  }

  /** The query parameter that starts YouTube and Vimeo players. */
  const AutoplayParam: string := "autoplay=1"

  function EmbedSuffix(platform: Platform): string {
    match platform
    case YouTube => "?" + AutoplayParam + "&rel=0&modestbranding=1"
    case Instagram => "/embed"
    case Vimeo => "?" + AutoplayParam
  }

  /** `getEmbedUrl` */
  function EmbedUrl(videoId: string, platform: Platform): string {
    EmbedPrefix(platform) + videoId + EmbedSuffix(platform)
  }

  /** YouTube and Vimeo players start playing at once. */
  lemma EmbedAutoplays(videoId: string, platform: Platform)
    requires platform != Instagram
    ensures Contains(EmbedUrl(videoId, platform), AutoplayParam)
  {
    var head := EmbedPrefix(platform) + videoId + "?";
    var rest := if platform == YouTube then "&rel=0&modestbranding=1" else "";
    assert EmbedUrl(videoId, platform) == head + AutoplayParam + rest;
    OccursBetween(head, AutoplayParam, rest);
    OccursContains(EmbedUrl(videoId, platform), AutoplayParam, |head|);
  }

  /** The player URL carries the video id, and gives it back. */
  lemma EmbedUrlRoundTrip(videoId: string, platform: Platform)
    ensures Between(EmbedUrl(videoId, platform), EmbedPrefix(platform), EmbedSuffix(platform)) == Some(videoId)
  {
    BetweenOf(EmbedPrefix(platform), videoId, EmbedSuffix(platform));
  }

  /** `isReel`: Instagram reel ids start with `D` and have 11 characters. */
  predicate IsReel(videoId: string) {
    StartsWith(videoId, "D") && |videoId| == 11
  }

  const ReelPrefix: string := "https://www.instagram.com/reel/"
  const PostPrefix: string := "https://www.instagram.com/p/"
  const PermalinkSuffix: string := "/?utm_source=ig_embed&utm_campaign=loading"

  /** The permalink given to Instagram's embed blockquote. */
  function Permalink(videoId: string): (r: string)
    ensures StartsWith(r, ReelPrefix) <==> IsReel(videoId)
  {
    if IsReel(videoId) then
      var r := ReelPrefix + videoId + PermalinkSuffix;
      assert r[..|ReelPrefix|] == ReelPrefix;
      r
    else
      var r := PostPrefix + videoId + PermalinkSuffix;
      assert r[26] == 'p' && ReelPrefix[26] == 'r';
      assert |ReelPrefix| <= |r| ==> r[..|ReelPrefix|][26] == r[26];
      r
  }

  /** The id a permalink was made for: a reel link first, else a post. */
  function IdOfPermalink(url: string): Option<string> {
    match Between(url, ReelPrefix, PermalinkSuffix)
    case Some(id) => Some(id)
    case None => Between(url, PostPrefix, PermalinkSuffix)
  }

  /** The permalink gives its id back, so different posts get different
      permalinks. */
  lemma PermalinkRoundTrip(videoId: string)
    ensures IdOfPermalink(Permalink(videoId)) == Some(videoId)
  {
    var url := Permalink(videoId);
    if IsReel(videoId) {
      BetweenOf(ReelPrefix, videoId, PermalinkSuffix);
    } else {
      BetweenOf(PostPrefix, videoId, PermalinkSuffix);
      assert !StartsWith(url, ReelPrefix);
    }
  }

  /** A reel id, and an id of the same length that is not one. */
  lemma ReelExamples()
    ensures IsReel("DAbCdEfGhIj")
    ensures !IsReel("CAbCdEfGhIj")
  {
    assert "DAbCdEfGhIj"[..1] == "D";
    assert "CAbCdEfGhIj"[..1] == "C";
  }

  /** `aspectRatioClass` */
  function AspectRatioClass(platform: Platform): (r: string)
    ensures r == "aspect-square" <==> platform == Instagram
  {
    if platform == Instagram then "aspect-square" else "aspect-video"
  }

  /** What the component renders: Instagram's embed blockquote, a player
      iframe, Instagram's preview iframe, or the thumbnail image. The last
      two are the clickable ones. */
  datatype Rendering =
    | Blockquote(permalink: string)
    | Player(src: string)
    | InstagramPreview(src: string)
    | Thumbnail(src: string)
  {
    predicate Clickable() {
      InstagramPreview? || Thumbnail?
    }
  }

  /** The rendering, from the state and the props. */
  function Render(isPlaying: bool, platform: Platform, videoId: string, thumbnail: Option<string>): (r: Rendering)
    ensures r.Blockquote? <==> isPlaying && platform == Instagram
    ensures r.Player? <==> isPlaying && platform != Instagram
    ensures r.InstagramPreview? <==> !isPlaying && platform == Instagram
    ensures r.Thumbnail? <==> !isPlaying && platform != Instagram
    ensures r.Clickable() <==> !isPlaying
  {
    if isPlaying && platform == Instagram then Blockquote(Permalink(videoId))
    else if isPlaying then Player(EmbedUrl(videoId, platform))
    else if platform == Instagram then InstagramPreview("https://www.instagram.com/p/" + videoId + "/embed")
    else Thumbnail(ThumbnailUrl(videoId, platform, thumbnail))
  }

  /** Instagram's idle preview is the same address as its player. */
  lemma PreviewIsPlayerUrl(videoId: string, thumbnail: Option<string>)
    ensures Render(false, Instagram, videoId, thumbnail) == InstagramPreview(EmbedUrl(videoId, Instagram))
  {
  }

  /** The state of one player: `isPlaying`, and how many times `onPlay`
      has been called back. */
  class EmbedState {
    const videoId: string
    const platform: Platform
    const thumbnail: Option<string>
    const hasOnPlay: bool
    var isPlaying: bool
    var onPlayCalls: nat

    /** `useState(autoplay)` */
    constructor(videoId: string, platform: Platform, thumbnail: Option<string>, autoplay: bool, hasOnPlay: bool)
      ensures this.videoId == videoId && this.platform == platform && this.thumbnail == thumbnail
      ensures this.hasOnPlay == hasOnPlay
      ensures isPlaying == autoplay && onPlayCalls == 0
    {
      this.videoId := videoId;
      this.platform := platform;
      this.thumbnail := thumbnail;
      this.hasOnPlay := hasOnPlay;
      isPlaying := autoplay;
      onPlayCalls := 0;
    }

    function Rendering(): Rendering
      reads this
    {
      Render(isPlaying, platform, videoId, thumbnail)
    }

    /** `handlePlay`: playing from now on, and `onPlay` is called back once
      if it was given. Playing never stops: the player or the blockquote
      is shown, and nothing is clickable any more. */
    method HandlePlay()
      modifies this
      ensures isPlaying
      ensures onPlayCalls == old(onPlayCalls) + (if hasOnPlay then 1 else 0)
      ensures Rendering().Blockquote? || Rendering().Player?
      ensures !Rendering().Clickable()
    {
      isPlaying := true;
      if hasOnPlay {
        onPlayCalls := onPlayCalls + 1;
      }
    }
  }
}
