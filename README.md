# YouTube video summarizer: URL parsing and API-response selection

This project models the only pure logic of a small service. The service summarizes YouTube
videos: it takes a video URL, fetches metadata and captions from the YouTube Data API, and
asks a language model for a bullet-point summary. The model covers three pieces:

- **`extract_video_id`** (module `General`, `general.dfy`) turns a URL into its 11-character
  video id. It tries three URL shapes in a fixed order: `youtube.com/watch?v=`, `youtu.be/` and
  `youtube.com/embed/`. Each shape is a literal prefix followed by exactly eleven characters of
  `[A-Za-z0-9_-]`. The search is unanchored, so within one shape the leftmost position where the
  prefix is followed by eleven id characters wins. The first shape that matches anywhere
  decides. When no shape matches, a `ValueError` naming the URL is raised. The Python regexes
  are written out as a literal-prefix matcher over `seq<char>`. No general regex engine is
  modelled.
- **`find_english_caption`** (module `YouTube`, `youtube.py`'s model in `youtube.dfy`) is a
  first-match search over caption tracks. It returns the first track whose language code starts
  with `"en"`. A missing `snippet` or `language` counts as `""`.
- **`get_video_info`**, after its API call, picks a `{title, thumbnail}` pair from a
  videos-list response. An empty `items` list gives two empty strings. Otherwise only the first
  item is read. The thumbnail falls back from `high` to `medium` to `default`.
- **`get_english_caption_for_video`** chains these steps. Its API calls are parameters: whether
  credentials exist, the captions list for a video id, and the download of a caption id.

JSON responses become datatypes with `Option` fields. `None` stands for a missing key. Python's
`ValueError` becomes the `Err` side of `Result`, carrying the same message text. Python's `or`
treats an optional string as true when it is present and non-empty (`Truthy`).

Every operation is a Dafny function, so it is deterministic by construction: the same URL
always gives the same id or the same error.

## Model

| member | source | states |
|---|---|---|
| `General.LeftmostFrom` | src/utils/general.py:33 | A match it returns lies at or after the start position, and no earlier position from there matches. `None` means that no position at or after the start matches. |
| `General.Search` | src/utils/general.py:33-35 | `re.search` plus `group(1)` for one shape. The result is absent exactly when the shape matches nowhere. A present result is the 11 characters after the leftmost match. |
| `General.TryPatterns` | src/utils/general.py:32-37 | The loop over patterns. A result is always a valid id. An error occurs exactly when no pattern matches anywhere, and its message is "Could not extract video ID from URL: " followed by the URL. |
| `General.TryPatternsSound` | src/utils/general.py:32-35 | A returned id comes from the leftmost match of the first pattern that matches anywhere: no earlier pattern matches at any position. |
| `General.TryPatternsComplete` | src/utils/general.py:32-35 | Conversely, the first pattern that matches, at its leftmost match position, determines the returned id. |
| `General.ExtractVideoId` | src/utils/general.py:8-37 | A returned id has length 11 and only `[A-Za-z0-9_-]` characters. It is the substring right after one of the three prefixes, at that shape's leftmost match. No shape earlier in the priority order matches anywhere. The call fails with the ValueError message exactly when no shape is followed by 11 id characters. |
| `General.ExtractVideoIdSelects` | src/utils/general.py:26-35 | The shape that decides and its leftmost position fully determine the result. Priority beats position, and the leftmost occurrence within a shape wins. |
| `General.NoOverlappingOccurrence` | src/utils/general.py:27-29 | Take a prefix whose first character does not recur in it, and a text before it that does not contain it. Then no occurrence of the prefix starts inside that text. |
| `General.ShapeInContext` | src/utils/general.py:26-35 | A URL `P + prefix + id + S` gives exactly `id` under three conditions: `id` is 11 valid characters, `P` does not contain the prefix, and no higher-priority shape matches. For the watch shape the last condition is empty. |
| `General.LongTokenYieldsFirstEleven` | src/utils/general.py:27-33 | A token of more than eleven id characters after a watch prefix yields its first eleven. |
| `General.CanonicalWatchUrl` | src/utils/general.py:13-27 | `https://www.youtube.com/watch?v=dQw4w9WgXcQ` yields `dQw4w9WgXcQ`. |
| `General.ShortLinkUrl` | src/utils/general.py:14-28 | `https://youtu.be/dQw4w9WgXcQ` yields `dQw4w9WgXcQ`. |
| `General.WatchBeatsEarlierShortLink` | src/utils/general.py:26-35 | A watch link wins over a short link that appears earlier in the same string. |
| `YouTube.FirstEnglishIndex` | src/utils/youtube.py:61-66 | The index returned is that of an English caption, and every caption before it is non-English. The result is `None` exactly when no caption is English. |
| `YouTube.FindEnglishCaption` | src/utils/youtube.py:49-66 | A returned caption is a member of the list and is English. The result is `None` exactly when no member's language starts with "en". |
| `YouTube.FindEnglishCaptionIsFirst` | src/utils/youtube.py:61-64 | The English caption at the smallest index is the one returned. |
| `YouTube.MissingLanguageNeverSelected` | src/utils/youtube.py:62-63 | A returned caption has both a snippet and a language. Captions that lack either count as `""` and are never chosen. |
| `YouTube.FindEnglishCaptionAppend` | src/utils/youtube.py:61-66 | Searching `front + back` gives the result for `front` when it has one, and otherwise the result for `back`. |
| `YouTube.SelectThumbnail` | src/utils/youtube.py:105-110 | The thumbnail is `""` or one of the three resolution URLs. A present, non-empty high URL is always chosen. |
| `YouTube.FirstNonEmpty` | src/utils/youtube.py:105-110 | The reference preference search over a list of optional URLs. Its result is non-empty exactly when some entry is present and non-empty. A non-empty result is the value of the first such entry. |
| `YouTube.SelectThumbnailPrefersHighest` | src/utils/youtube.py:105-110 | The fallback chain equals the first present, non-empty URL in the order high, medium, default. It is `""` exactly when no resolution has a non-empty URL. |
| `YouTube.VideoInfoFromResponse` | src/utils/youtube.py:99-112 | An empty or missing `items` list gives title `""` and thumbnail `""`. |
| `YouTube.VideoInfoFromFirstItem` | src/utils/youtube.py:103-112 | A non-empty response is decided by its first item alone, and later items are ignored. The title is that item's snippet title, or `""` when absent. The thumbnail is the most preferred non-empty URL among its resolutions, or `""` when there is none. |
| `YouTube.EnglishCaptionForVideo` | src/utils/youtube.py:115-145 | Without credentials it fails with the not-authenticated message, which is checked before the URL. A URL error is passed through. The result is `None` exactly when the video's captions include no English track. |
| `YouTube.EnglishCaptionDownloadsFirst` | src/utils/youtube.py:139-145 | When an English track exists, the downloaded caption id is that of the first English track. |

## Left out

- The API calls (`build_youtube_client`'s client construction, `get_captions_list`, `download_caption`, the `videos().list(...).execute()` call in `get_video_info`): network I/O through googleapiclient. Their results are parameters of the model.
- `YouTube.EnglishCaptionForVideo`: the stored-credentials lookup is reduced to a boolean, and the captions-list call with its `items` default is folded into one function from video id to captions.
- `src/utils/oauth.py`: the OAuth flow, token refresh, user-info HTTP fetch and SQL sessions are all I/O and foreign library calls.
- `src/utils/gemini.py`: a call into an LLM SDK with a missing-key check and a prompt template; no logic to verify.
- `src/app.py` and `cli.py`: HTTP routes, cookies, templating, argument parsing and the exception-to-status mapping around the same chain of calls.
- `src/db.py` is entirely commented out; `src/models/user.py` declares an ORM table with no logic.
- `get_transcript`, imported by `src/utils/__init__.py`, is not part of this model: no such function exists in `src/utils/youtube.py`.
- Responses whose keys hold JSON `null` or a value of an unexpected type (where `.get` would raise): each key is either present with a value of the expected type or absent.
