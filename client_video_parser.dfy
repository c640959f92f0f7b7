/** The client copy of the video-URL classifier (frontend/src/utils/videoParser.js).
    It uses the same patterns as the server copy but builds results without an
    embed URL, and its "unsupported" error has a shorter text. */
module ClientVideoParser {
  import opened Wrappers
  import opened JsStrings
  import opened VideoPatterns
  import VideoParser

  datatype ClientVideoInfo = ClientVideoInfo(kind: Platform, id: string, url: string)

  /** The text of the Error each failure throws in the client copy. */
  function ErrorMessage(e: ParseFailure): string {
    match e
    case InvalidUrlProvided => "Invalid URL provided"
    case InvalidUrlFormat => "Invalid URL format"
    case UnsupportedVideoUrl => "Unsupported video URL"
  }

  function ParseYouTube(url: string): (r: Option<ClientVideoInfo>)
    ensures r.Some? <==> FirstMatch(url, YouTubePatterns).Some?
    ensures r.Some? ==> r.value.kind == YouTube && VideoParser.IsYouTubeId(r.value.id)
                        && r.value.id == FirstMatch(url, YouTubePatterns).value
                        && r.value.url == VideoParser.YouTubeWatchPrefix + r.value.id
  {
    match FirstMatch(url, YouTubePatterns)
    case Some(id) =>
      VideoParser.YouTubeMatchIsId(url, YouTubePatterns);
      Some(ClientVideoInfo(YouTube, id, VideoParser.YouTubeWatchPrefix + id))
    case None => None
  }

  function ParseVimeo(url: string): (r: Option<ClientVideoInfo>)
    ensures r.Some? <==> FirstMatch(url, VimeoPatterns).Some?
    ensures r.Some? ==> r.value.kind == Vimeo && VideoParser.IsVimeoId(r.value.id)
                        && r.value.id == FirstMatch(url, VimeoPatterns).value
                        && r.value.url == VideoParser.VimeoPrefix + r.value.id
  {
    match FirstMatch(url, VimeoPatterns)
    case Some(id) =>
      VideoParser.VimeoMatchIsId(url, VimeoPatterns);
      Some(ClientVideoInfo(Vimeo, id, VideoParser.VimeoPrefix + id))
    case None => None
  }

  function ParseDirectVideo(url: string): (r: Option<ClientVideoInfo>)
    ensures r.Some? <==> HasVideoExtension(url)
    ensures r.Some? ==> r.value.kind == Direct && r.value.id == url && r.value.url == url
  {
    if HasVideoExtension(url) then Some(ClientVideoInfo(Direct, url, url)) else None
  }

  /** `parseVideoUrl(url)` of the client; `None` stands for a missing or non-string
      argument, and a url that trims to nothing fails as badly formatted, as `new URL("")`
      throws. */
  function ParseVideoUrl(input: Option<string>, urlParses: string -> bool): (r: Result<ClientVideoInfo, ParseFailure>)
    ensures r == Err(InvalidUrlProvided) <==> input.None? || input == Some("")
    ensures r == Err(InvalidUrlFormat) <==>
              input.Some? && input.value != "" && (Trim(input.value) == "" || !urlParses(Trim(input.value)))
    ensures r == Err(UnsupportedVideoUrl) <==>
              input.Some? && input.value != "" && Trim(input.value) != "" && urlParses(Trim(input.value))
              && FirstMatch(Trim(input.value), YouTubePatterns).None?
              && FirstMatch(Trim(input.value), VimeoPatterns).None?
              && !HasVideoExtension(Trim(input.value))
    ensures r.Ok? ==> Trim(input.value) != "" && urlParses(Trim(input.value))
    ensures r.Ok? && r.value.kind == Direct ==> r.value.id == r.value.url == Trim(input.value)
  {
    if input.None? || input.value == "" then Err(InvalidUrlProvided)
    else
      var url := Trim(input.value);
      if url == "" || !urlParses(url) then Err(InvalidUrlFormat)
      else
        var yt := ParseYouTube(url);
        if yt.Some? then Ok(yt.value)
        else
          var vm := ParseVimeo(url);
          if vm.Some? then Ok(vm.value)
          else
            var direct := ParseDirectVideo(url);
            if direct.Some? then Ok(direct.value)
            else Err(UnsupportedVideoUrl)
  }

  /** `isValidVideoUrl(url)` of the client: true exactly when `parseVideoUrl` does not throw. */
  function IsValidVideoUrl(input: Option<string>, urlParses: string -> bool): (b: bool)
    ensures b <==> ParseVideoUrl(input, urlParses).Ok?
  {
    ParseVideoUrl(input, urlParses).Ok?
  }

  /** The client result forgets only the server's embed URL. */
  function Forget(v: VideoParser.VideoInfo): ClientVideoInfo {
    ClientVideoInfo(v.kind, v.id, v.url)
  }

  /** For every input the two copies agree: the same failure, or a success with the
      same platform, id and url. */
  lemma {:induction false} ParsersAgree(input: Option<string>, urlParses: string -> bool)
    ensures ParseVideoUrl(input, urlParses).Ok? <==> VideoParser.ParseVideoUrl(input, urlParses).Ok?
    ensures ParseVideoUrl(input, urlParses).Err? ==>
              ParseVideoUrl(input, urlParses).error == VideoParser.ParseVideoUrl(input, urlParses).error
    ensures ParseVideoUrl(input, urlParses).Ok? ==>
              ParseVideoUrl(input, urlParses).value == Forget(VideoParser.ParseVideoUrl(input, urlParses).value)
  {
    if input.Some? && input.value != "" {
      var url := Trim(input.value);
      var y := FirstMatch(url, YouTubePatterns);
      var v := FirstMatch(url, VimeoPatterns);
      if y.Some? {
        assert ParseYouTube(url) == Some(Forget(VideoParser.ParseYouTube(url).value));
      } else if v.Some? {
        assert ParseVimeo(url) == Some(Forget(VideoParser.ParseVimeo(url).value));
      }
    }
  }

  /** The two `isValidVideoUrl` copies accept the same inputs. */
  lemma ValidityAgrees(input: Option<string>, urlParses: string -> bool)
    ensures IsValidVideoUrl(input, urlParses) == VideoParser.IsValidVideoUrl(input, urlParses)
  {
    ParsersAgree(input, urlParses);
  }

  /** The client's canonical url re-parses to the same platform and id. */
  lemma ClientCanonicalReparses(input: Option<string>, urlParses: string -> bool)
    requires ParseVideoUrl(input, urlParses).Ok?
    requires urlParses(ParseVideoUrl(input, urlParses).value.url)
    ensures ParseVideoUrl(Some(ParseVideoUrl(input, urlParses).value.url), urlParses).Ok?
    ensures ParseVideoUrl(Some(ParseVideoUrl(input, urlParses).value.url), urlParses).value
              == ParseVideoUrl(input, urlParses).value
  {
    ParsersAgree(input, urlParses);
    var w := VideoParser.ParseVideoUrl(input, urlParses).value;
    VideoParser.ParseCanonicalUrl(input, urlParses);
    ParsersAgree(Some(w.url), urlParses);
  }
}
