/**
 * The video-id extractor of src/utils/general.py.
 *
 * `extract_video_id` tries three URL shapes in a fixed order. Each shape is a
 * literal prefix followed by exactly eleven characters from [A-Za-z0-9_-]; the
 * search for a shape is unanchored, so the leftmost position at which the
 * prefix is followed by eleven such characters wins. The first shape that
 * matches anywhere decides the result; when none does, a ValueError is raised.
 */
module General {
  import opened Wrappers

  /** Length of a video id, the `{11}` of every pattern. */
  const IdLength: nat := 11

  const WatchPrefix: string := "youtube.com/watch?v="
  const ShortPrefix: string := "youtu.be/"
  const EmbedPrefix: string := "youtube.com/embed/"

  /** The shapes in the order they are tried. */
  const Patterns: seq<string> := [WatchPrefix, ShortPrefix, EmbedPrefix]

  /** The character class `[a-zA-Z0-9_-]`. */
  predicate IsIdChar(c: char) {
    ('a' <= c <= 'z') || ('A' <= c <= 'Z') || ('0' <= c <= '9') || c == '_' || c == '-'
  }

  /** Exactly eleven characters of the id class. */
  predicate ValidId(s: string) {
    |s| == IdLength && forall k :: 0 <= k < |s| ==> IsIdChar(s[k])
  }

  /** `pattern` occurs in `s` starting at position `i`. */
  predicate OccursAt(s: string, pattern: string, i: nat) {
    i + |pattern| <= |s| && s[i..i + |pattern|] == pattern
  }

  /** `prefix` occurs in `url` at position `i` and is followed by eleven id characters. */
  predicate MatchesAt(url: string, prefix: string, i: nat) {
    && i + |prefix| + IdLength <= |url|
    && OccursAt(url, prefix, i)
    && ValidId(url[i + |prefix|..i + |prefix| + IdLength])
  }

  /** The captured group of a match at position `i`. */
  function IdAt(url: string, prefix: string, i: nat): string
    requires i + |prefix| + IdLength <= |url|
  {
    url[i + |prefix|..i + |prefix| + IdLength]
  }

  /** `i` is the leftmost position at which the shape matches. */
  ghost predicate IsLeftmostMatch(url: string, prefix: string, i: nat) {
    MatchesAt(url, prefix, i) && forall j: nat :: j < i ==> !MatchesAt(url, prefix, j)
  }

  /** No shape before the `k`-th one matches anywhere in `url`. */
  ghost predicate NoEarlierShape(url: string, patterns: seq<string>, k: nat)
    requires k <= |patterns|
  {
    forall k': nat, j: nat :: k' < k ==> !MatchesAt(url, patterns[k'], j)
  }

  /** The `k`-th shape is the one that decides, and it decides at position `i`. */
  ghost predicate ShapeWins(url: string, patterns: seq<string>, k: nat, i: nat) {
    k < |patterns| && NoEarlierShape(url, patterns, k) && IsLeftmostMatch(url, patterns[k], i)
  }

  /** The leftmost match of one shape at or after `from`: the scan `re.search` performs. */
  function LeftmostFrom(url: string, prefix: string, from: nat): (r: Option<nat>)
    ensures r.Some? ==> from <= r.value && MatchesAt(url, prefix, r.value)
    ensures r.Some? ==> forall j: nat :: from <= j < r.value ==> !MatchesAt(url, prefix, j)
    ensures r.None? ==> forall j: nat :: from <= j ==> !MatchesAt(url, prefix, j)
    decreases |url| - from
  {
    if from + |prefix| + IdLength > |url| then None
    else if MatchesAt(url, prefix, from) then Some(from)
    else LeftmostFrom(url, prefix, from + 1)
  }

  /** `re.search(pattern, url)` followed by `match.group(1)`, or None when there is no match. */
  function Search(url: string, prefix: string): (r: Option<string>)
    ensures r.None? <==> forall j: nat :: !MatchesAt(url, prefix, j)
    ensures r.Some? ==> exists i: nat :: IsLeftmostMatch(url, prefix, i) && r.value == IdAt(url, prefix, i)
  {
    match LeftmostFrom(url, prefix, 0)
    case None => None
    case Some(i) => Some(IdAt(url, prefix, i))
  }

  /** The message of the ValueError raised for an unrecognised URL. */
  function NotRecognized(url: string): ValueError {
    ValueError("Could not extract video ID from URL: " + url)
  }

  /** The `for pattern in patterns` loop: the first pattern that matches gives the result. */
  function TryPatterns(url: string, patterns: seq<string>): (r: Result<string>)
    ensures r.Ok? ==> ValidId(r.value)
    ensures r.Err? <==> NoEarlierShape(url, patterns, |patterns|)
    ensures r.Err? ==> r.error == NotRecognized(url)
  {
    if patterns == [] then Err(NotRecognized(url))
    else match Search(url, patterns[0])
      case Some(id) => Ok(id)
      case None =>
        var rest := TryPatterns(url, patterns[1..]);
        assert rest.Err? ==> NoEarlierShape(url, patterns, |patterns|) by {
          if rest.Err? {
            forall k': nat, j: nat | k' < |patterns| ensures !MatchesAt(url, patterns[k'], j) {
              if k' > 0 { assert patterns[k'] == patterns[1..][k' - 1]; }
            }
          }
        }
        assert NoEarlierShape(url, patterns, |patterns|) ==> rest.Err? by {
          if NoEarlierShape(url, patterns, |patterns|) {
            forall k': nat, j: nat | k' < |patterns[1..]| ensures !MatchesAt(url, patterns[1..][k'], j) {
              assert patterns[1..][k'] == patterns[k' + 1];
            }
          }
        }
        rest
  }

  /** A successful result comes from the deciding shape, at its leftmost match. */
  lemma {:induction false} TryPatternsSound(url: string, patterns: seq<string>)
    ensures TryPatterns(url, patterns).Ok? ==>
      exists k: nat, i: nat :: ShapeWins(url, patterns, k, i) && TryPatterns(url, patterns).value == IdAt(url, patterns[k], i)
  {
    if patterns != [] {
      match Search(url, patterns[0])
      case Some(id) =>
        var i: nat :| IsLeftmostMatch(url, patterns[0], i) && id == IdAt(url, patterns[0], i);
        assert ShapeWins(url, patterns, 0, i);
      case None =>
        TryPatternsSound(url, patterns[1..]);
        if TryPatterns(url, patterns).Ok? {
          var k: nat, i: nat :| ShapeWins(url, patterns[1..], k, i) && TryPatterns(url, patterns[1..]).value == IdAt(url, patterns[1..][k], i);
          assert patterns[1..][k] == patterns[k + 1];
          forall k': nat, j: nat | k' < k + 1 ensures !MatchesAt(url, patterns[k'], j) {
            if k' > 0 { assert patterns[k'] == patterns[1..][k' - 1]; }
          }
          assert ShapeWins(url, patterns, k + 1, i);
        }
    }
  }

  /** The deciding shape at its leftmost match is what the loop returns. */
  lemma {:induction false} TryPatternsComplete(url: string, patterns: seq<string>, k: nat, i: nat)
    requires ShapeWins(url, patterns, k, i)
    ensures TryPatterns(url, patterns) == Ok(IdAt(url, patterns[k], i))
  {
    if k == 0 {
      assert Search(url, patterns[0]) == Some(IdAt(url, patterns[0], i));
    } else {
      assert !MatchesAt(url, patterns[0], i);
      assert Search(url, patterns[0]) == None;
      forall k': nat, j: nat | k' < k - 1 ensures !MatchesAt(url, patterns[1..][k'], j) {
        assert patterns[1..][k'] == patterns[k' + 1];
      }
      assert patterns[1..][k - 1] == patterns[k];
      TryPatternsComplete(url, patterns[1..], k - 1, i);
    }
  }

  /**
   * `extract_video_id`: the 11-character id that follows the first shape to
   * match, or a ValueError naming the URL.
   */
  function ExtractVideoId(url: string): (r: Result<string>)
    ensures r.Ok? ==> ValidId(r.value)
    ensures r.Ok? ==> exists k: nat, i: nat :: ShapeWins(url, Patterns, k, i) && r.value == IdAt(url, Patterns[k], i)
    ensures r.Err? <==> forall k: nat, j: nat :: k < |Patterns| ==> !MatchesAt(url, Patterns[k], j)
    ensures r.Err? ==> r.error == NotRecognized(url)
  {
    TryPatternsSound(url, Patterns);
    TryPatterns(url, Patterns)
  }

  /** The result is fully determined by which shape decides and where: the converse of the second ensures above. */
  lemma ExtractVideoIdSelects(url: string, k: nat, i: nat)
    requires ShapeWins(url, Patterns, k, i)
    ensures ExtractVideoId(url) == Ok(IdAt(url, Patterns[k], i))
  {
  }

  /** `pattern` never occurs as a substring of `s`. */
  ghost predicate NoOccurrence(s: string, pattern: string) {
    forall j: nat :: !OccursAt(s, pattern, j)
  }

  /**
   * A prefix whose first character does not recur in it cannot overlap with a
   * later occurrence of itself: if `p` does not occur inside `pre`, no
   * occurrence of `p` in `pre + p + rest` starts inside `pre`.
   */
  lemma {:induction false} NoOverlappingOccurrence(pre: string, p: string, rest: string, j: nat)
    requires |p| > 0 && p[0] !in p[1..]
    requires NoOccurrence(pre, p)
    requires j < |pre| && j + |p| <= |pre + p + rest|
    ensures !OccursAt(pre + p + rest, p, j)
  {
    var url := pre + p + rest;
    if j + |p| <= |pre| {
      assert url[j..j + |p|] == pre[j..j + |p|];
      assert !OccursAt(pre, p, j);
    } else {
      var d := |pre| - j;
      assert url[j..j + |p|][d] == url[|pre|] == p[0];
      assert p[d] == p[1..][d - 1] != p[0];
    }
  }

  /** Each shape's prefix starts with a character it does not repeat. */
  lemma PrefixesDoNotSelfOverlap(k: nat)
    requires k < |Patterns|
    ensures |Patterns[k]| > 0 && Patterns[k][0] !in Patterns[k][1..]
  {
  }

  /**
   * A URL of the form `pre + prefix + id + rest` for the `k`-th shape, where
   * `pre` does not contain that prefix and no earlier shape matches anywhere,
   * yields exactly `id`. With `k == 0` the second condition is empty: a watch
   * link wins even when a short or embed link appears earlier in the URL.
   */
  lemma {:induction false} ShapeInContext(k: nat, pre: string, id: string, rest: string)
    requires k < |Patterns|
    requires ValidId(id)
    requires NoOccurrence(pre, Patterns[k])
    requires NoEarlierShape(pre + Patterns[k] + id + rest, Patterns, k)
    ensures ExtractVideoId(pre + Patterns[k] + id + rest) == Ok(id)
  {
    var p := Patterns[k];
    var url := pre + p + id + rest;
    var n := |pre|;
    assert url == pre + p + (id + rest);
    assert url[n..n + |p|] == p;
    assert url[n + |p|..n + |p| + IdLength] == id;
    assert MatchesAt(url, p, n);
    PrefixesDoNotSelfOverlap(k);
    forall j: nat | j < n ensures !MatchesAt(url, p, j) {
      if j + |p| <= |url| {
        NoOverlappingOccurrence(pre, p, id + rest, j);
      }
    }
    assert ShapeWins(url, Patterns, k, n);
    ExtractVideoIdSelects(url, k, n);
  }

  /** A token longer than eleven id characters after a watch prefix yields its first eleven. */
  lemma LongTokenYieldsFirstEleven(pre: string, token: string, rest: string)
    requires |token| >= IdLength
    requires forall c :: c in token ==> IsIdChar(c)
    requires NoOccurrence(pre, WatchPrefix)
    ensures ExtractVideoId(pre + WatchPrefix + token + rest) == Ok(token[..IdLength])
  {
    var id := token[..IdLength];
    assert forall k :: 0 <= k < |id| ==> id[k] in token;
    assert pre + WatchPrefix + token + rest == pre + Patterns[0] + id + (token[IdLength..] + rest);
    ShapeInContext(0, pre, id, token[IdLength..] + rest);
  }

  /** The canonical watch URL yields its id. */
  lemma CanonicalWatchUrl()
    ensures ExtractVideoId("https://www.youtube.com/watch?v=dQw4w9WgXcQ") == Ok("dQw4w9WgXcQ")
  {
    var pre := "https://www.";
    assert "https://www.youtube.com/watch?v=dQw4w9WgXcQ" == pre + Patterns[0] + "dQw4w9WgXcQ" + "";
    ShapeInContext(0, pre, "dQw4w9WgXcQ", "");
  }

  /** The short link yields its id when no watch link is present. */
  lemma ShortLinkUrl()
    ensures ExtractVideoId("https://youtu.be/dQw4w9WgXcQ") == Ok("dQw4w9WgXcQ")
  {
    var pre := "https://";
    assert "https://youtu.be/dQw4w9WgXcQ" == pre + Patterns[1] + "dQw4w9WgXcQ" + "";
    ShapeInContext(1, pre, "dQw4w9WgXcQ", "");
  }

  /** A string lacking some character of `pattern` does not contain `pattern`. */
  lemma AbsentCharNoOccurrence(s: string, pattern: string, k: nat)
    requires k < |pattern| && pattern[k] !in s
    ensures NoOccurrence(s, pattern)
  {
  }

  /** Priority over position: a watch link wins over a short link that appears earlier. */
  lemma WatchBeatsEarlierShortLink()
    ensures ExtractVideoId("youtu.be/AAAAAAAAAAA youtube.com/watch?v=dQw4w9WgXcQ") == Ok("dQw4w9WgXcQ")
  {
    var pre := "youtu.be/AAAAAAAAAAA ";
    assert 'w' !in pre;
    AbsentCharNoOccurrence(pre, Patterns[0], 12);
    assert "youtu.be/AAAAAAAAAAA youtube.com/watch?v=dQw4w9WgXcQ" == pre + Patterns[0] + "dQw4w9WgXcQ" + "";
    ShapeInContext(0, pre, "dQw4w9WgXcQ", "");
  }
}
