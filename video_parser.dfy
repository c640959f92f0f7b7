/** The server copy of the video-URL classifier (backend/src/utils/videoParser.js).
    The WHATWG URL parser behind `new URL(url)` (section 4.4 "URL parsing" of the
    URL Standard) is not modelled: callers pass it in as the predicate `urlParses`. */
module VideoParser {
  import opened Wrappers
  import opened JsStrings
  import opened VideoPatterns

  datatype VideoInfo = VideoInfo(kind: Platform, id: string, url: string, embedUrl: string)

  const SecureWww := "https://www."
  const YouTubeWatchPrefix := SecureWww + "youtube.com/watch?v="
  const YouTubeEmbedPrefix := "https://www.youtube.com/embed/"
  const SecureScheme := "https://"
  const VimeoPrefix := SecureScheme + "vimeo.com/"
  const VimeoEmbedPrefix := "https://player.vimeo.com/video/"

  /** The text of the Error each failure throws. */
  function ErrorMessage(e: ParseFailure): string {
    match e
    case InvalidUrlProvided => "Invalid URL provided"
    case InvalidUrlFormat => "Invalid URL format"
    case UnsupportedVideoUrl => "Unsupported video URL. Please use YouTube, Vimeo, or direct video links."
  }

  predicate IsYouTubeId(id: string) {
    |id| == 11 && forall k :: 0 <= k < 11 ==> IsIdChar(id[k])
  }

  predicate IsVimeoId(id: string) {
    id != [] && forall k :: 0 <= k < |id| ==> IsAsciiDigit(id[k])
  }

  function ParseYouTube(url: string): (r: Option<VideoInfo>)
    ensures r.Some? <==> FirstMatch(url, YouTubePatterns).Some?
    ensures r.Some? ==> r.value.kind == YouTube && IsYouTubeId(r.value.id)
                        && r.value.id == FirstMatch(url, YouTubePatterns).value
                        && r.value.url == YouTubeWatchPrefix + r.value.id
                        && r.value.embedUrl == YouTubeEmbedPrefix + r.value.id
  {
    match FirstMatch(url, YouTubePatterns)
    case Some(id) =>
      YouTubeMatchIsId(url, YouTubePatterns);
      Some(VideoInfo(YouTube, id, YouTubeWatchPrefix + id, YouTubeEmbedPrefix + id))
    case None => None
  }

  function ParseVimeo(url: string): (r: Option<VideoInfo>)
    ensures r.Some? <==> FirstMatch(url, VimeoPatterns).Some?
    ensures r.Some? ==> r.value.kind == Vimeo && IsVimeoId(r.value.id)
                        && r.value.id == FirstMatch(url, VimeoPatterns).value
                        && r.value.url == VimeoPrefix + r.value.id
                        && r.value.embedUrl == VimeoEmbedPrefix + r.value.id
  {
    match FirstMatch(url, VimeoPatterns)
    case Some(id) =>
      VimeoMatchIsId(url, VimeoPatterns);
      Some(VideoInfo(Vimeo, id, VimeoPrefix + id, VimeoEmbedPrefix + id))
    case None => None
  }

  function ParseDirectVideo(url: string): (r: Option<VideoInfo>)
    ensures r.Some? <==> HasVideoExtension(url)
    ensures r.Some? ==> r.value == VideoInfo(Direct, url, url, url)
  {
    if HasVideoExtension(url) then Some(VideoInfo(Direct, url, url, url)) else None
  }

  /** `parseVideoUrl(url)`; `None` stands for a missing or non-string argument.
      `new URL` of the empty string always throws (a relative reference with no
      base), so a url that trims to nothing fails as badly formatted whatever
      `urlParses` says of it. */
  function ParseVideoUrl(input: Option<string>, urlParses: string -> bool): (r: Result<VideoInfo, ParseFailure>)
    ensures r == Err(InvalidUrlProvided) <==> input.None? || input == Some("")
    ensures r == Err(InvalidUrlFormat) <==>
              input.Some? && input.value != "" && (Trim(input.value) == "" || !urlParses(Trim(input.value)))
    ensures r == Err(UnsupportedVideoUrl) <==>
              input.Some? && input.value != "" && Trim(input.value) != "" && urlParses(Trim(input.value))
              && FirstMatch(Trim(input.value), YouTubePatterns).None?
              && FirstMatch(Trim(input.value), VimeoPatterns).None?
              && !HasVideoExtension(Trim(input.value))
    ensures r.Ok? ==> Trim(input.value) != "" && urlParses(Trim(input.value))
    ensures r.Ok? && r.value.kind == Direct ==>
              r.value.id == r.value.url == r.value.embedUrl == Trim(input.value)
  {
    if input.None? || input.value == "" then Err(InvalidUrlProvided)
    else
      var url := Trim(input.value);
      if url == "" || !urlParses(url) then Err(InvalidUrlFormat)
      else
        var yt := ParseYouTube(url);
        if yt.Some? then Ok(yt.value)
        else
          var vm := ParseVimeo(url);
          if vm.Some? then Ok(vm.value)
          else
            var direct := ParseDirectVideo(url);
            if direct.Some? then Ok(direct.value)
            else Err(UnsupportedVideoUrl)
  }

  /** `isValidVideoUrl(url)`: true exactly when `parseVideoUrl` does not throw. */
  function IsValidVideoUrl(input: Option<string>, urlParses: string -> bool): (b: bool)
    ensures b <==> ParseVideoUrl(input, urlParses).Ok?
  {
    ParseVideoUrl(input, urlParses).Ok?
  }

  // ---------------------------------------------------------------------------

  lemma {:induction false} YouTubeMatchIsId(url: string, pats: seq<Pattern>)
    requires forall k :: 0 <= k < |pats| ==> pats[k].capture == ElevenIdChars
    ensures FirstMatch(url, pats).Some? ==> IsYouTubeId(FirstMatch(url, pats).value)
  {
    if pats != [] {
      SearchCaptures(url, pats[0], 0);
      YouTubeMatchIsId(url, pats[1..]);
    }
  }

  lemma {:induction false} VimeoMatchIsId(url: string, pats: seq<Pattern>)
    requires forall k :: 0 <= k < |pats| ==> pats[k].capture == DigitRun
    ensures FirstMatch(url, pats).Some? ==> IsVimeoId(FirstMatch(url, pats).value)
  {
    if pats != [] {
      SearchCaptures(url, pats[0], 0);
      VimeoMatchIsId(url, pats[1..]);
    }
  }

  /** What a successful search returns is a capture of the pattern's group. */
  lemma {:induction false} SearchCaptures(s: string, p: Pattern, i: nat)
    requires i <= |s|
    ensures SearchFrom(s, p, i).Some? ==>
              exists j :: i <= j <= |s| && CaptureAt(s, j, p.capture) == SearchFrom(s, p, i)
    decreases |s| - i
  {
    var m := MatchAt(s, i, p.alternatives, p.capture);
    if m.Some? {
      MatchAtCaptures(s, i, p.alternatives, p.capture, 0);
    } else if i < |s| {
      SearchCaptures(s, p, i + 1);
    }
  }

  lemma {:induction false} MatchAtCaptures(s: string, i: nat, alts: seq<string>, c: Capture, a: nat)
    requires i <= |s|
    ensures MatchAt(s, i, alts, c, a).Some? ==>
              exists j :: i <= j <= |s| && CaptureAt(s, j, c) == MatchAt(s, i, alts, c, a)
    decreases |alts| - a
  {
    if a < |alts| {
      if LiteralAt(s, i, alts[a]) && CaptureAt(s, i + |alts[a]|, c).Some? {
        assert CaptureAt(s, i + |alts[a]|, c) == MatchAt(s, i, alts, c, a);
      } else {
        MatchAtCaptures(s, i, alts, c, a + 1);
      }
    }
  }

  // ---------------------------------------------------------------------------
  // Canonical URLs re-parse to themselves.

  /** The watch URL built from an id is classified as YouTube with that id. */
  lemma YouTubeWatchUrlMatches(id: string)
    requires IsYouTubeId(id)
    ensures FirstMatch(YouTubeWatchPrefix + id, YouTubePatterns) == Some(id)
  {
    var s := YouTubeWatchPrefix + id;
    var p := YouTubePatterns[0];
    WatchUrlSkipsHost(id);
    WatchUrlCapturesId(id);
    assert SearchFrom(s, p, 12) == Some(id);
  }

  /** No YouTube alternative can start inside `https://www.`. */
  lemma WatchUrlSkipsHost(id: string)
    requires |id| == 11
    ensures SearchFrom(YouTubeWatchPrefix + id, YouTubePatterns[0], 0)
         == SearchFrom(YouTubeWatchPrefix + id, YouTubePatterns[0], 12)
  {
    var rest := "youtube.com/watch?v=" + id;
    YouTubePatternsStartWithY();
    assert StartsAllWith(YouTubePatterns[0].alternatives, 'y');
    SkipHost(SecureWww, rest, YouTubePatterns[0], 'y');
    ConcatAssoc(SecureWww, "youtube.com/watch?v=", id);
  }

  /** At index 12 the watch alternative matches and captures the id. */
  lemma WatchUrlCapturesId(id: string)
    requires IsYouTubeId(id)
    ensures MatchAt(YouTubeWatchPrefix + id, 12, YouTubePatterns[0].alternatives, ElevenIdChars) == Some(id)
  {
    var s := YouTubeWatchPrefix + id;
    var p := YouTubePatterns[0];
    var lit := p.alternatives[0];
    assert s[12..32] == lit;
    assert s[32..43] == id;
    assert CaptureAt(s, 32, ElevenIdChars) == Some(id);
  }

  /** A pattern whose alternatives all begin with a character absent from
      `host` cannot match inside `host`, so the search may start after it. */
  lemma SkipHost(host: string, rest: string, p: Pattern, c: char)
    requires c !in host
    requires StartsAllWith(p.alternatives, c)
    ensures SearchFrom(host + rest, p, 0) == SearchFrom(host + rest, p, |host|)
  {
    assert forall k :: 0 <= k < |host| ==> host[k] in host;
    NoCharIn(host, rest, c);
    SkipUnmatchable(host + rest, p, 0, |host|, c);
  }

  lemma ConcatAssoc(a: string, b: string, c: string)
    ensures a + b + c == a + (b + c)
  {
  }

  /** The characters of `a + b` before `|a|` are those of `a`. */
  lemma NoCharIn(a: string, b: string, c: char)
    requires forall k :: 0 <= k < |a| ==> a[k] != c
    ensures forall k :: 0 <= k < |a| ==> (a + b)[k] != c
  {
  }

  /** The canonical Vimeo URL built from an id is not YouTube and is Vimeo with that id. */
  lemma VimeoUrlMatches(id: string)
    requires IsVimeoId(id)
    ensures FirstMatch(VimeoPrefix + id, YouTubePatterns).None?
    ensures FirstMatch(VimeoPrefix + id, VimeoPatterns) == Some(id)
  {
    var s := VimeoPrefix + id;
    forall k | 0 <= k < |s| ensures s[k] != 'y' {
      if k < 18 { assert s[k] == VimeoPrefix[k]; } else { assert s[k] == id[k - 18]; }
    }
    NoYouTubeWithoutY(s);
    VimeoUrlIsVimeo(id);
  }

  lemma VimeoUrlIsVimeo(id: string)
    requires IsVimeoId(id)
    ensures Search(VimeoPrefix + id, VimeoPatterns[0]) == Some(id)
  {
    var rest := "vimeo.com/" + id;
    assert StartsAllWith(VimeoPatterns[0].alternatives, 'v');
    SkipHost(SecureScheme, rest, VimeoPatterns[0], 'v');
    ConcatAssoc(SecureScheme, "vimeo.com/", id);
    VimeoUrlCapturesId(id);
  }

  /** At index 8 the first Vimeo alternative matches and captures the whole id. */
  lemma VimeoUrlCapturesId(id: string)
    requires IsVimeoId(id)
    ensures MatchAt(VimeoPrefix + id, 8, VimeoPatterns[0].alternatives, DigitRun) == Some(id)
  {
    var s := VimeoPrefix + id;
    var lit := VimeoPatterns[0].alternatives[0];
    assert s[8..18] == lit;
    DigitRunToEnd(s, 18);
    assert s[18..18 + |id|] == id;
    assert CaptureAt(s, 18, DigitRun) == Some(id);
  }

  lemma {:induction false} DigitRunToEnd(s: string, j: nat)
    requires j <= |s|
    requires forall k :: j <= k < |s| ==> IsAsciiDigit(s[k])
    ensures DigitRunLength(s, j) == |s| - j
    decreases |s| - j
  {
    if j < |s| { DigitRunToEnd(s, j + 1); }
  }

  /** Re-parsing the canonical `url` of any result gives back the same result:
      same platform, same id, same url and embed url. */
  lemma ParseCanonicalUrl(input: Option<string>, urlParses: string -> bool)
    requires ParseVideoUrl(input, urlParses).Ok?
    requires urlParses(ParseVideoUrl(input, urlParses).value.url)
    ensures ParseVideoUrl(Some(ParseVideoUrl(input, urlParses).value.url), urlParses)
            == ParseVideoUrl(input, urlParses)
  {
    var v := ParseVideoUrl(input, urlParses).value;
    match v.kind
    case YouTube => ReparseYouTube(v, urlParses);
    case Vimeo => ReparseVimeo(v, urlParses);
    case Direct => ReparseDirect(input, urlParses);
  }

  lemma ReparseYouTube(v: VideoInfo, urlParses: string -> bool)
    requires v.kind == YouTube && IsYouTubeId(v.id)
    requires v.url == YouTubeWatchPrefix + v.id && v.embedUrl == YouTubeEmbedPrefix + v.id
    requires urlParses(v.url)
    ensures ParseVideoUrl(Some(v.url), urlParses) == Ok(v)
  {
    YouTubeWatchUrlMatches(v.id);
    TrimOfUnpadded(v.url);
    var y := FirstMatch(v.url, YouTubePatterns);
    assert y == Some(v.id);
    assert ParseYouTube(v.url) == Some(v);
  }

  lemma ReparseVimeo(v: VideoInfo, urlParses: string -> bool)
    requires v.kind == Vimeo && IsVimeoId(v.id)
    requires v.url == VimeoPrefix + v.id && v.embedUrl == VimeoEmbedPrefix + v.id
    requires urlParses(v.url)
    ensures ParseVideoUrl(Some(v.url), urlParses) == Ok(v)
  {
    VimeoUrlMatches(v.id);
    TrimOfUnpadded(v.url);
    var y := FirstMatch(v.url, YouTubePatterns);
    var m := FirstMatch(v.url, VimeoPatterns);
    assert y.None? && m == Some(v.id);
    assert ParseYouTube(v.url).None?;
    assert ParseVimeo(v.url) == Some(v);
  }

  lemma ReparseDirect(input: Option<string>, urlParses: string -> bool)
    requires ParseVideoUrl(input, urlParses).Ok?
    requires ParseVideoUrl(input, urlParses).value.kind == Direct
    ensures ParseVideoUrl(Some(ParseVideoUrl(input, urlParses).value.url), urlParses)
            == ParseVideoUrl(input, urlParses)
  {
    var t := Trim(input.value);
    assert ParseYouTube(t).None? && ParseVimeo(t).None? && ParseDirectVideo(t).Some?;
    TrimIdempotent(input.value);
    assert t != "" by { assert HasVideoExtension(t); }
  }

  /** Classification order: an input whose trimmed text the URL parser accepts
      and a YouTube pattern matches is YouTube, whatever else it also looks like. */
  lemma YouTubeFirst(input: Option<string>, urlParses: string -> bool)
    requires input.Some? && input.value != "" && urlParses(Trim(input.value))
    requires FirstMatch(Trim(input.value), YouTubePatterns).Some?
    ensures ParseVideoUrl(input, urlParses).Ok?
    ensures ParseVideoUrl(input, urlParses).value.kind == YouTube
    ensures ParseVideoUrl(input, urlParses).value.id == FirstMatch(Trim(input.value), YouTubePatterns).value
  {
    var t := Trim(input.value);
    NoYouTubeWithoutY("");
    var yt := ParseYouTube(t);
    assert ParseVideoUrl(input, urlParses) == Ok(yt.value);
  }

  /** ... an input no YouTube pattern matches but a Vimeo pattern does is Vimeo,
      with the first Vimeo capture as its id. */
  lemma VimeoSecond(input: Option<string>, urlParses: string -> bool)
    requires input.Some? && input.value != "" && urlParses(Trim(input.value))
    requires FirstMatch(Trim(input.value), YouTubePatterns).None?
    requires FirstMatch(Trim(input.value), VimeoPatterns).Some?
    ensures ParseVideoUrl(input, urlParses).Ok?
    ensures ParseVideoUrl(input, urlParses).value.kind == Vimeo
    ensures ParseVideoUrl(input, urlParses).value.id == FirstMatch(Trim(input.value), VimeoPatterns).value
  {
    var t := Trim(input.value);
    NoVimeoInEmpty();
    var vm := ParseVimeo(t);
    assert ParseVideoUrl(input, urlParses) == Ok(vm.value);
  }

  lemma NoVimeoInEmpty()
    ensures FirstMatch("", VimeoPatterns).None?
  {
    assert StartsAllWith(VimeoPatterns[0].alternatives, 'v');
    assert StartsAllWith(VimeoPatterns[1].alternatives, 'p');
    NoMatchInStringWithout("", VimeoPatterns[0], 'v');
    NoMatchInStringWithout("", VimeoPatterns[1], 'p');
  }

  /** ... and a direct file URL is `direct` only when no YouTube or Vimeo pattern matches. */
  lemma DirectOnlyWithoutPlatform(input: Option<string>, urlParses: string -> bool)
    requires ParseVideoUrl(input, urlParses).Ok?
    ensures ParseVideoUrl(input, urlParses).value.kind == Direct <==>
              FirstMatch(Trim(input.value), YouTubePatterns).None?
              && FirstMatch(Trim(input.value), VimeoPatterns).None?
  {
  }
}
