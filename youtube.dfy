/**
 * The selection logic of src/utils/youtube.py over YouTube Data API responses.
 *
 * API responses are JSON dictionaries; each key the code reads becomes a field
 * of type Option, None standing for a missing key. The `.execute()` calls are
 * not modelled: their responses are parameters.
 */
module YouTube {
  import opened Wrappers
  import General

  /** The `snippet` of a caption track: only its `language` is read. */
  datatype CaptionSnippet = CaptionSnippet(language: Option<string>)

  /** One entry of a captions-list response. */
  datatype Caption = Caption(id: Option<string>, snippet: Option<CaptionSnippet>)

  /** `caption.get("snippet", {}).get("language", "")`. */
  function Language(c: Caption): string {
    match c.snippet
    case None => ""
    case Some(s) => s.language.GetOr("")
  }

  /** Python's `s.startswith(prefix)`. */
  predicate StartsWith(s: string, prefix: string) {
    |prefix| <= |s| && s[..|prefix|] == prefix
  }

  /** A caption track counts as English when its language code starts with "en". */
  predicate IsEnglish(c: Caption) {
    StartsWith(Language(c), "en")
  }

  /** The index of the first English caption, scanning from the front. */
  function FirstEnglishIndex(captions: seq<Caption>): (r: Option<nat>)
    ensures r.Some? ==> r.value < |captions| && IsEnglish(captions[r.value])
    ensures r.Some? ==> forall j :: 0 <= j < r.value ==> !IsEnglish(captions[j])
    ensures r.None? <==> forall j :: 0 <= j < |captions| ==> !IsEnglish(captions[j])
  {
    if captions == [] then None
    else if IsEnglish(captions[0]) then Some(0)
    else match FirstEnglishIndex(captions[1..])
      case None => None
      case Some(i) => Some(i + 1)
  }

  /** `find_english_caption`: the first caption whose language starts with "en", or None. */
  function FindEnglishCaption(captions: seq<Caption>): (r: Option<Caption>)
    ensures r.Some? ==> r.value in captions && IsEnglish(r.value)
    ensures r.None? <==> forall c :: c in captions ==> !IsEnglish(c)
  {
    match FirstEnglishIndex(captions)
    case None => None
    case Some(i) => Some(captions[i])
  }

  /** The caption at the smallest English index is the one returned. */
  lemma FindEnglishCaptionIsFirst(captions: seq<Caption>, i: nat)
    requires i < |captions| && IsEnglish(captions[i])
    requires forall j :: 0 <= j < i ==> !IsEnglish(captions[j])
    ensures FindEnglishCaption(captions) == Some(captions[i])
  {
  }

  /** A caption without a snippet or without a language is never selected. */
  lemma MissingLanguageNeverSelected(captions: seq<Caption>)
    ensures FindEnglishCaption(captions).Some? ==>
      FindEnglishCaption(captions).value.snippet.Some? && FindEnglishCaption(captions).value.snippet.value.language.Some?
  {
  }

  /** First-match search over a concatenation: the front part is searched first. */
  lemma {:induction false} FindEnglishCaptionAppend(front: seq<Caption>, back: seq<Caption>)
    ensures FindEnglishCaption(front + back) ==
      if FindEnglishCaption(front).Some? then FindEnglishCaption(front) else FindEnglishCaption(back)
  {
    if front == [] {
      assert front + back == back;
    } else {
      FindEnglishCaptionAppend(front[1..], back);
      assert (front + back)[1..] == front[1..] + back;
      assert (front + back)[0] == front[0];
      if !IsEnglish(front[0]) {
        assert FindEnglishCaption(front + back) == FindEnglishCaption(front[1..] + back) by {
          FirstIndexShift(front + back);
        }
        assert FindEnglishCaption(front) == FindEnglishCaption(front[1..]) by {
          FirstIndexShift(front);
        }
      }
    }
  }

  /** Skipping a non-English head does not change which caption is found. */
  lemma FirstIndexShift(captions: seq<Caption>)
    requires captions != [] && !IsEnglish(captions[0])
    ensures FindEnglishCaption(captions) == FindEnglishCaption(captions[1..])
  {
  }

  /** A thumbnail entry of the response: only its `url` is read. */
  datatype Thumbnail = Thumbnail(url: Option<string>)

  /** The `thumbnails` dictionary of a video snippet, by resolution. */
  datatype Thumbnails = Thumbnails(high: Option<Thumbnail>, medium: Option<Thumbnail>, default: Option<Thumbnail>)

  /** The `snippet` of a video resource. */
  datatype VideoSnippet = VideoSnippet(title: Option<string>, thumbnails: Option<Thumbnails>)

  /** One item of a videos-list response. */
  datatype VideoItem = VideoItem(snippet: Option<VideoSnippet>)

  /** A videos-list response. */
  datatype VideosResponse = VideosResponse(items: Option<seq<VideoItem>>)

  /** The dictionary `get_video_info` returns. */
  datatype VideoInfo = VideoInfo(title: string, thumbnail: string)

  /** `d.get(size, {}).get("url")`: the URL of one resolution, None when absent. */
  function SizeUrl(size: Option<Thumbnail>): Option<string> {
    match size
    case None => None
    case Some(t) => t.url
  }

  /** Python truthiness of an optional string: present and non-empty. */
  predicate Truthy(s: Option<string>) {
    s.Some? && s.value != ""
  }

  /**
   * The `high or medium or default` chain: the high URL if truthy, else the
   * medium URL if truthy, else the default URL with "" for a missing one.
   */
  function SelectThumbnail(t: Thumbnails): (r: string)
    ensures r == "" || r == SizeUrl(t.high).GetOr("") || r == SizeUrl(t.medium).GetOr("") || r == SizeUrl(t.default).GetOr("")
    ensures Truthy(SizeUrl(t.high)) ==> r == SizeUrl(t.high).value
  {
    var high := SizeUrl(t.high);
    var medium := SizeUrl(t.medium);
    if Truthy(high) then high.value
    else if Truthy(medium) then medium.value
    else SizeUrl(t.default).GetOr("")
  }

  /** The resolutions in descending order of preference. */
  function PreferenceOrder(t: Thumbnails): seq<Option<string>> {
    [SizeUrl(t.high), SizeUrl(t.medium), SizeUrl(t.default)]
  }

  /** Entry `k` is the first present, non-empty one. */
  predicate FirstTruthyAt(urls: seq<Option<string>>, k: int) {
    0 <= k < |urls| && Truthy(urls[k]) && forall j :: 0 <= j < k ==> !Truthy(urls[j])
  }

  /** The first present, non-empty URL of a preference list, or "" when there is none. */
  function FirstNonEmpty(urls: seq<Option<string>>): (r: string)
    ensures r != "" <==> exists k :: 0 <= k < |urls| && Truthy(urls[k])
    ensures r != "" ==> exists k :: FirstTruthyAt(urls, k) && r == urls[k].value
  {
    if urls == [] then ""
    else if Truthy(urls[0]) then urls[0].value
    else
      var r := FirstNonEmpty(urls[1..]);
      assert r != "" ==> exists k :: FirstTruthyAt(urls, k) && r == urls[k].value by {
        if r != "" {
          var k :| FirstTruthyAt(urls[1..], k) && r == urls[1..][k].value;
          assert urls[1..][k] == urls[k + 1];
          forall j | 0 <= j < k + 1 ensures !Truthy(urls[j]) {
            if j > 0 { assert urls[j] == urls[1..][j - 1]; }
          }
          assert FirstTruthyAt(urls, k + 1);
        }
      }
      assert (exists k :: 0 <= k < |urls| && Truthy(urls[k])) ==> r != "" by {
        if exists k :: 0 <= k < |urls| && Truthy(urls[k]) {
          var k :| 0 <= k < |urls| && Truthy(urls[k]);
          assert urls[1..][k - 1] == urls[k];
        }
      }
      r
  }

  /**
   * The fallback chain picks the most preferred resolution whose URL is present
   * and non-empty, and gives "" exactly when there is none.
   */
  lemma SelectThumbnailPrefersHighest(t: Thumbnails)
    ensures SelectThumbnail(t) == FirstNonEmpty(PreferenceOrder(t))
    ensures SelectThumbnail(t) == "" <==> !Truthy(SizeUrl(t.high)) && !Truthy(SizeUrl(t.medium)) && !Truthy(SizeUrl(t.default))
  {
    var order := PreferenceOrder(t);
    assert order[1..] == [SizeUrl(t.medium), SizeUrl(t.default)];
    assert order[1..][1..] == [SizeUrl(t.default)];
    assert order[1..][1..][1..] == [];
    assert FirstNonEmpty(order[1..][1..]) == SizeUrl(t.default).GetOr("") by {
      if !Truthy(SizeUrl(t.default)) {
        assert FirstNonEmpty(order[1..][1..]) == FirstNonEmpty([]);
      }
    }
  }

  /** The part of `get_video_info` after the `.execute()` call. */
  function VideoInfoFromResponse(response: VideosResponse): (r: VideoInfo)
    ensures response.items.GetOr([]) == [] ==> r == VideoInfo("", "")
  {
    var items := response.items.GetOr([]);
    if items == [] then VideoInfo("", "")
    else
      var snippet := items[0].snippet.GetOr(VideoSnippet(None, None));
      var thumbnails := snippet.thumbnails.GetOr(Thumbnails(None, None, None));
      VideoInfo(snippet.title.GetOr(""), SelectThumbnail(thumbnails))
  }

  /**
   * A non-empty response is decided by its first item alone: the title is that
   * item's snippet title ("" when absent), and the thumbnail is the most
   * preferred non-empty URL among its resolutions ("" when none).
   */
  lemma VideoInfoFromFirstItem(first: VideoItem, rest: seq<VideoItem>)
    ensures VideoInfoFromResponse(VideosResponse(Some([first] + rest))) ==
      match first.snippet
      case None => VideoInfo("", "")
      case Some(s) => VideoInfo(s.title.GetOr(""), FirstNonEmpty(PreferenceOrder(s.thumbnails.GetOr(Thumbnails(None, None, None)))))
  {
  }

  /** The message `build_youtube_client` raises without stored credentials. */
  const NotAuthenticated: ValueError := ValueError("Not authenticated. Please authenticate via /auth/login first.")

  /**
   * `get_english_caption_for_video` with its API calls as parameters: whether
   * credentials exist, the captions-list response for a video id, and the
   * download of a caption id.
   */
  function EnglishCaptionForVideo(
    authenticated: bool,
    url: string,
    listCaptions: string -> seq<Caption>,
    download: Option<string> -> string
  ): (r: Result<Option<string>>)
    ensures !authenticated ==> r == Err(NotAuthenticated)
    ensures authenticated && General.ExtractVideoId(url).Err? ==> r == Err(General.ExtractVideoId(url).error)
    ensures r == Ok(None) <==>
      authenticated && General.ExtractVideoId(url).Ok? &&
      forall c :: c in listCaptions(General.ExtractVideoId(url).value) ==> !IsEnglish(c)
  {
    if !authenticated then Err(NotAuthenticated)
    else match General.ExtractVideoId(url)
      case Err(e) => Err(e)
      case Ok(videoId) =>
        match FindEnglishCaption(listCaptions(videoId))
        case None => Ok(None)
        case Some(caption) => Ok(Some(download(caption.id)))
  }

  /** When an English caption exists, the first one's id is what gets downloaded. */
  lemma EnglishCaptionDownloadsFirst(
    url: string,
    listCaptions: string -> seq<Caption>,
    download: Option<string> -> string,
    i: nat
  )
    requires General.ExtractVideoId(url).Ok?
    requires i < |listCaptions(General.ExtractVideoId(url).value)|
    requires IsEnglish(listCaptions(General.ExtractVideoId(url).value)[i])
    requires forall j :: 0 <= j < i ==> !IsEnglish(listCaptions(General.ExtractVideoId(url).value)[j])
    ensures EnglishCaptionForVideo(true, url, listCaptions, download) ==
      Ok(Some(download(listCaptions(General.ExtractVideoId(url).value)[i].id)))
  {
  }
}
