/** `GET /api/youtube-caption?videoId=…`: fetch the caption track of a video,
    first by scraping the watch page for its caption tracks, then, if that
    fails in any way, from the timed-text endpoint; answer with the cue texts
    joined by newlines. The network, the player-response extraction (a regular
    expression and `JSON.parse`) and the XML parser are parameters. */
module YoutubeCaption {
  import opened Wrappers
  import opened Text

  /** An entry of `captionTracks` in the player response. */
  datatype Track = Track(languageCode: string, baseUrl: string)

  /** A `<text>` element of the caption document: its `start` and `dur`
      attributes (absent is `null`) and its text content. */
  datatype Element = Element(start: Option<string>, dur: Option<string>, text: Option<string>)

  /** One caption cue as `parseCaptions` returns it. */
  datatype Cue = Cue(start: Option<string>, dur: Option<string>, text: string)

  /** What the handler sees of the outside world.
      `fetch(url)`: the body of `axios.get(url)`, `None` when the request throws.
      `playerTracks(page)`: the `captionTracks` of the `ytInitialPlayerResponse`
      embedded in a watch page, `None` when there is no match, the JSON does not
      parse or the path is missing.
      `parseXml(doc)`: the `<text>` elements of a document in document order,
      `None` when the parser throws. */
  datatype Upstream = Upstream(
    fetch: string -> Option<string>,
    playerTracks: string -> Option<seq<Track>>,
    parseXml: string -> Option<seq<Element>>)

  datatype Response =
    | Captions(raw: string)                  // 200 `{ captions: raw }`
    | Error(status: int, message: string)    // `{ error: message }` with the status

  /** The response together with the URLs requested, in order. */
  datatype Outcome = Outcome(response: Response, requests: seq<string>)

  /** What one strategy produced (the cues, when it succeeded) and the URLs it requested. */
  datatype Attempt = Attempt(cues: Option<seq<Cue>>, requests: seq<string>)

  const VideoIdRequired := "videoId is required"
  const LoadFailed := "자막을 불러오지 못했습니다."
  const Korean := "ko"
  const TextTag := "<text"

  function WatchUrl(videoId: string): string {
    "https://www.youtube.com/watch?v=" + videoId
  }

  function FallbackUrl(videoId: string): string {
    "https://www.youtube.com/api/timedtext?lang=ko&v=" + videoId
  }

  // ---------------------------------------------------------------------------
  // parseCaptions
  // ---------------------------------------------------------------------------

  /** The cues of a list of elements: one per element, in order, attributes
      carried over as they are, missing text content read as "". */
  function CuesOf(els: seq<Element>): (cues: seq<Cue>)
    ensures |cues| == |els|
    ensures forall i :: 0 <= i < |els| ==>
      && cues[i].start == els[i].start
      && cues[i].dur == els[i].dur
      && cues[i].text == els[i].text.GetOr("")
  {
    if els == [] then []
    else [Cue(els[0].start, els[0].dur, els[0].text.GetOr(""))] + CuesOf(els[1..])
  }

  /** `parseCaptions`, given what the parser made of the document: it fails
      when the parser throws or finds no `<text>` element. */
  function ParseCaptions(parsed: Option<seq<Element>>): (cues: Option<seq<Cue>>)
    ensures cues.Some? <==> parsed.Some? && |parsed.value| > 0
    ensures cues.Some? ==> cues.value == CuesOf(parsed.value) && |cues.value| > 0
  {
    match parsed
    case None => None
    case Some(els) => if |els| == 0 then None else Some(CuesOf(els))
  }

  /** `captions.map(c => c.text)`. */
  function Texts(cues: seq<Cue>): (texts: seq<string>)
    ensures |texts| == |cues|
    ensures forall i :: 0 <= i < |cues| ==> texts[i] == cues[i].text
  {
    if cues == [] then [] else [cues[0].text] + Texts(cues[1..])
  }

  /** The `captions` string of a successful response. */
  function RawText(cues: seq<Cue>): string {
    JoinWith(Texts(cues), "\n")
  }

  /** The raw text splits back into the cue texts, in order, as long as no cue
      text holds a newline of its own. */
  lemma RawTextLines(cues: seq<Cue>)
    requires |cues| > 0
    requires forall i :: 0 <= i < |cues| ==> '\n' !in cues[i].text
    ensures SplitOn(RawText(cues), '\n') == Texts(cues)
  {
    SplitOnJoin(Texts(cues), '\n');
  }

  /** A single cue's raw text is that cue's text, with no newline added. */
  lemma RawTextSingle(c: Cue)
    ensures RawText([c]) == c.text
  {
  }

  // ---------------------------------------------------------------------------
  // Track selection
  // ---------------------------------------------------------------------------

  /** `tracks.find(t => t.languageCode === 'ko')`, as an index. */
  function FindKorean(tracks: seq<Track>): (i: Option<nat>)
    ensures i.Some? ==> i.value < |tracks| && tracks[i.value].languageCode == Korean
    ensures i.Some? ==> forall j :: 0 <= j < i.value ==> tracks[j].languageCode != Korean
    ensures i.None? <==> forall j :: 0 <= j < |tracks| ==> tracks[j].languageCode != Korean
  {
    if tracks == [] then None
    else if tracks[0].languageCode == Korean then Some(0)
    else match FindKorean(tracks[1..])
      case None => None
      case Some(k) => Some(k + 1)
  }

  /** `koTrack || tracks[0]`: the first Korean track, else the first track. */
  function SelectTrack(tracks: seq<Track>): (t: Track)
    requires |tracks| > 0
    ensures t in tracks
    ensures (exists j :: 0 <= j < |tracks| && tracks[j].languageCode == Korean) ==>
      t.languageCode == Korean &&
      exists i :: 0 <= i < |tracks| && tracks[i] == t &&
        forall j :: 0 <= j < i ==> tracks[j].languageCode != Korean
    ensures (forall j :: 0 <= j < |tracks| ==> tracks[j].languageCode != Korean) ==> t == tracks[0]
  {
    match FindKorean(tracks)
    case Some(i) => tracks[i]
    case None => tracks[0]
  }

  // ---------------------------------------------------------------------------
  // The two strategies
  // ---------------------------------------------------------------------------

  /** The watch-page strategy: fetch the page, take its caption tracks (failing
      when there are none), fetch the selected track and parse it unless the
      document is blank. */
  function Primary(videoId: string, up: Upstream): (a: Attempt)
    ensures |a.requests| > 0 && a.requests[0] == WatchUrl(videoId)
    ensures a.cues.Some? ==> |a.cues.value| > 0
    ensures a.cues.Some? ==>
      && up.fetch(WatchUrl(videoId)).Some?
      && var tracks := up.playerTracks(up.fetch(WatchUrl(videoId)).value);
      && tracks.Some? && |tracks.value| > 0
      && a.requests == [WatchUrl(videoId), SelectTrack(tracks.value).baseUrl]
      && var doc := up.fetch(SelectTrack(tracks.value).baseUrl);
      && doc.Some? && !IsBlank(doc.value)
      && a.cues == ParseCaptions(up.parseXml(doc.value))
    ensures up.fetch(WatchUrl(videoId)).None? ==> a == Attempt(None, [WatchUrl(videoId)])
    ensures up.fetch(WatchUrl(videoId)).Some? ==>
      var tracks := up.playerTracks(up.fetch(WatchUrl(videoId)).value);
      && (tracks.None? || |tracks.value| == 0 ==> a == Attempt(None, [WatchUrl(videoId)]))
      && (tracks.Some? && |tracks.value| > 0 ==>
            var url := SelectTrack(tracks.value).baseUrl;
            var doc := up.fetch(url);
            && a.requests == [WatchUrl(videoId), url]
            && (doc.None? || IsBlank(doc.value) ==> a.cues.None?)
            && (doc.Some? && !IsBlank(doc.value) ==> a.cues == ParseCaptions(up.parseXml(doc.value))))
  {
    var watch := WatchUrl(videoId);
    match up.fetch(watch)
    case None => Attempt(None, [watch])
    case Some(page) =>
      match up.playerTracks(page)
      case None => Attempt(None, [watch])
      case Some(tracks) =>
        if |tracks| == 0 then Attempt(None, [watch])
        else
          var track := SelectTrack(tracks);
          match up.fetch(track.baseUrl)
          case None => Attempt(None, [watch, track.baseUrl])
          case Some(doc) =>
            if Trim(doc) == "" then Attempt(None, [watch, track.baseUrl])
            else Attempt(ParseCaptions(up.parseXml(doc)), [watch, track.baseUrl])
  }

  /** The timed-text strategy: one request; the body must be non-empty and
      contain `<text`, and must parse to at least one cue. */
  function Fallback(videoId: string, up: Upstream): (a: Attempt)
    ensures a.requests == [FallbackUrl(videoId)]
    ensures a.cues.Some? <==>
      && up.fetch(FallbackUrl(videoId)).Some?
      && var body := up.fetch(FallbackUrl(videoId)).value;
      && body != "" && Contains(body, TextTag)
      && up.parseXml(body).Some? && |up.parseXml(body).value| > 0
    ensures a.cues.Some? ==>
      a.cues.value == CuesOf(up.parseXml(up.fetch(FallbackUrl(videoId)).value).value)
  {
    var url := FallbackUrl(videoId);
    match up.fetch(url)
    case None => Attempt(None, [url])
    case Some(body) =>
      if body == "" || !Contains(body, TextTag) then Attempt(None, [url])
      else Attempt(ParseCaptions(up.parseXml(body)), [url])
  }

  // ---------------------------------------------------------------------------
  // The handler
  // ---------------------------------------------------------------------------

  /** `GET`: `videoId` is the query parameter (`None` when it is absent). */
  function Get(videoId: Option<string>, up: Upstream): (o: Outcome)
    ensures (videoId.None? || videoId.value == "") <==> o.response == Error(400, VideoIdRequired)
    ensures (videoId.None? || videoId.value == "") ==> o.requests == []
    ensures videoId.Some? && videoId.value != "" ==>
      var id := videoId.value;
      var p := Primary(id, up);
      && |o.requests| > 0 && o.requests[0] == WatchUrl(id)
      && (p.cues.Some? ==> o == Outcome(Captions(RawText(p.cues.value)), p.requests))
      && (p.cues.None? ==> o.requests == p.requests + [FallbackUrl(id)])
      && (p.cues.None? && Fallback(id, up).cues.Some? ==>
            o.response == Captions(RawText(Fallback(id, up).cues.value)))
    ensures o.response.Captions? ==> videoId.Some? && videoId.value != ""
    ensures o.response == Error(500, LoadFailed) <==>
      videoId.Some? && videoId.value != ""
      && Primary(videoId.value, up).cues.None? && Fallback(videoId.value, up).cues.None?
    ensures o.response.Captions? || o.response.Error?
    ensures |o.requests| <= 3
  {
    if videoId.None? || videoId.value == "" then Outcome(Error(400, VideoIdRequired), [])
    else
      var id := videoId.value;
      var p := Primary(id, up);
      if p.cues.Some? then Outcome(Captions(RawText(p.cues.value)), p.requests)
      else
        var f := Fallback(id, up);
        match f.cues
        case Some(cues) => Outcome(Captions(RawText(cues)), p.requests + f.requests)
        case None => Outcome(Error(500, LoadFailed), p.requests + f.requests)
  }
}
