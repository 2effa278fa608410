/** The page component: it reads a video id out of the link the user typed,
    asks `/api/youtube-caption` for the raw captions, hands them to
    `/api/fix-captions` and shows the result. URL parsing and the two requests
    are parameters. The component state is a class whose method is `handleSubmit`. */
module Page {
  import opened Wrappers
  import opened Text
  import FixCaptions
  import YoutubeCaption

  // ---------------------------------------------------------------------------
  // extractVideoId
  // ---------------------------------------------------------------------------

  /** The parts of a parsed `URL` the component reads; `query` holds the
      name-value pairs of `searchParams` in order. */
  datatype Url = Url(hostname: string, pathname: string, query: seq<(string, string)>)

  /** `searchParams.get(name)`: the value of the first pair with that name. */
  function QueryGet(query: seq<(string, string)>, name: string): (v: Option<string>)
    ensures v.None? <==> forall i :: 0 <= i < |query| ==> query[i].0 != name
    ensures v.Some? ==>
      exists i :: (0 <= i < |query| && query[i] == (name, v.value) &&
        forall j :: 0 <= j < i ==> query[j].0 != name)
  {
    if query == [] then None
    else if query[0].0 == name then Some(query[0].1)
    else
      var v := QueryGet(query[1..], name);
      if v.Some? then
        var i :| 0 <= i < |query[1..]| && query[1..][i] == (name, v.value)
          && forall j :: 0 <= j < i ==> query[1..][j].0 != name;
        assert query[i + 1] == (name, v.value);
        v
      else v
  }

  const ShortHost := "youtu.be"
  const LongHost := "youtube.com"

  /** `pathname.slice(1)`. */
  function DropFirst(s: string): string {
    if |s| == 0 then s else s[1..]
  }

  /** `extractVideoId`, given what `new URL(input)` made of the input (`None`
      when it throws): the path after its first character for a short link,
      the `v` parameter (or "") for a long link, "" for anything else. The
      short-link test comes first. */
  function ExtractVideoId(parsed: Option<Url>): (id: string)
    ensures parsed.None? ==> id == ""
    ensures parsed.Some? && Contains(parsed.value.hostname, ShortHost) ==>
      id == DropFirst(parsed.value.pathname)
    ensures (parsed.Some? && !Contains(parsed.value.hostname, ShortHost) &&
             Contains(parsed.value.hostname, LongHost)) ==>
      id == QueryGet(parsed.value.query, "v").GetOr("")
    ensures id != "" ==>
      parsed.Some? &&
      (Contains(parsed.value.hostname, ShortHost) || Contains(parsed.value.hostname, LongHost))
  {
    match parsed
    case None => ""
    case Some(u) =>
      if Contains(u.hostname, ShortHost) then DropFirst(u.pathname)
      else if Contains(u.hostname, LongHost) then QueryGet(u.query, "v").GetOr("")
      else ""
  }

  /** A short link `https://youtu.be/<id>` gives back its id. */
  lemma ShortLinkRoundTrip(host: string, id: string, query: seq<(string, string)>)
    requires Contains(host, ShortHost)
    ensures ExtractVideoId(Some(Url(host, "/" + id, query))) == id
  {
  }

  /** A long link whose query starts with `v=<id>` gives back its id, whatever follows. */
  lemma WatchLinkRoundTrip(host: string, path: string, id: string, rest: seq<(string, string)>)
    requires Contains(host, LongHost) && !Contains(host, ShortHost)
    ensures ExtractVideoId(Some(Url(host, path, [("v", id)] + rest))) == id
  {
  }

  // ---------------------------------------------------------------------------
  // The captions field of the caption reply
  // ---------------------------------------------------------------------------

  /** The `captions` member of the caption reply: a string, an array of
      `{ text }` objects (a missing `text` is `undefined`), or missing. */
  datatype CaptionsField =
    | CapString(s: string)
    | CapArray(items: seq<Option<string>>)
    | CapMissing

  /** `captions.map(c => c.text)`, with `join` reading `undefined` as "". */
  function ItemTexts(items: seq<Option<string>>): (texts: seq<string>)
    ensures |texts| == |items|
    ensures forall i :: 0 <= i < |items| ==> texts[i] == items[i].GetOr("")
  {
    if items == [] then [] else [items[0].GetOr("")] + ItemTexts(items[1..])
  }

  /** `Array.isArray(captions) ? captions.map(c => c.text).join('\n') : captions`;
      `None` is `undefined`. */
  function RawCaption(field: CaptionsField): (raw: Option<string>)
    ensures field.CapString? ==> raw == Some(field.s)
    ensures field.CapArray? ==> raw == Some(JoinWith(ItemTexts(field.items), "\n"))
    ensures raw.None? <==> field.CapMissing?
  {
    match field
    case CapString(s) => Some(s)
    case CapArray(items) => Some(JoinWith(ItemTexts(items), "\n"))
    case CapMissing => None
  }

  /** The array form of a list of cues. */
  function CueItems(cues: seq<YoutubeCaption.Cue>): (items: seq<Option<string>>)
    ensures |items| == |cues|
    ensures forall i :: 0 <= i < |cues| ==> items[i] == Some(cues[i].text)
  {
    if cues == [] then [] else [Some(cues[0].text)] + CueItems(cues[1..])
  }

  /** Both shapes of the reply give the same raw text: the array of cues reads
      as the string the caption endpoint would have joined. */
  lemma ArrayAndStringAgree(cues: seq<YoutubeCaption.Cue>)
    ensures RawCaption(CapArray(CueItems(cues))) == RawCaption(CapString(YoutubeCaption.RawText(cues)))
  {
  }

  /** The `captions` field of a caption-endpoint response as the page reads it:
      present for a success, missing for an error reply. */
  function FieldOf(r: YoutubeCaption.Response): (field: CaptionsField)
    ensures r.Captions? ==> field == CapString(r.raw)
    ensures r.Error? <==> field.CapMissing?
  {
    match r
    case Captions(raw) => CapString(raw)
    case Error(_, _) => CapMissing
  }

  /** The body `JSON.stringify({ caption: raw })` as fix-captions reads it:
      `undefined` is dropped, so the caption is then absent. */
  function FixRequest(raw: Option<string>): (body: FixCaptions.Body)
    ensures body.Parsed?
    ensures raw.Some? ==> body.caption == FixCaptions.Str(raw.value)
    ensures raw.None? <==> body.caption.Absent?
  {
    match raw
    case Some(s) => FixCaptions.Parsed(FixCaptions.Str(s))
    case None => FixCaptions.Parsed(FixCaptions.Absent)
  }

  // ---------------------------------------------------------------------------
  // handleSubmit
  // ---------------------------------------------------------------------------

  const InvalidLink := "유효한 유튜브 링크를 입력해주세요."
  const ProcessingFailed := "자막 처리 중 오류가 발생했습니다."
  const CaptionApi := "/api/youtube-caption?videoId="
  const FixApi := "/api/fix-captions"

  /** What the page shows once both requests are over: the caption (`None`
      for `undefined`) and the error message. */
  datatype View = View(caption: Option<string>, error: Option<string>)

  /** The state `handleSubmit` settles in after clearing the caption, given the
      caption reply (`None` when the request or its `json()` throws) and
      whether the fix-captions request goes through: the caption is the
      `result` member of the fix reply, which is `undefined` for its 400 reply. */
  function Settle(reply: Option<CaptionsField>, fixReachable: bool): (v: View)
    ensures reply.None? || !fixReachable ==> v == View(Some(""), Some(ProcessingFailed))
    ensures v.error.None? <==> reply.Some? && fixReachable
    ensures v.error.None? && v.caption.Some? ==>
      var raw := RawCaption(reply.value);
      raw.Some? && raw.value != "" && v.caption.value == FixCaptions.Normalise(raw.value)
    ensures v.error.None? && v.caption.None? ==>
      var raw := RawCaption(reply.value);
      raw.None? || raw.value == ""
  {
    match reply
    case None => View(Some(""), Some(ProcessingFailed))
    case Some(field) =>
      if !fixReachable then View(Some(""), Some(ProcessingFailed))
      else
        match FixCaptions.Post(FixRequest(RawCaption(field)))
        case Fixed(result) => View(Some(result), None)
        case Failed(_, _) => View(None, None)
  }

  /** The page pipeline end to end: for a non-empty id, what the page shows is
      the normalised captions when the caption endpoint finds any non-empty
      text, and an empty view, with no error message, when it fails. The page
      puts the id into `?videoId=` without encoding it; `id` here is the value
      the endpoint reads back, which is the page's id only when that holds no
      `&`, `#`, `+` or `%`. */
  lemma SubmitShowsNormalised(id: string, up: YoutubeCaption.Upstream)
    requires id != ""
    ensures var o := YoutubeCaption.Get(Some(id), up);
      var v := Settle(Some(FieldOf(o.response)), true);
      && (o.response.Captions? && o.response.raw != "" ==>
            v == View(Some(FixCaptions.Normalise(o.response.raw)), None))
      && (o.response.Error? ==> v == View(None, None))
  {
  }

  /** The component state `handleSubmit` reads and writes. */
  class Home {
    var url: string
    var caption: Option<string>
    var loading: bool
    var error: Option<string>

    constructor()
      ensures url == "" && caption == Some("") && !loading && error.None?
    {
      url := "";
      caption := Some("");
      loading := false;
      error := None;
    }

    /** `handleSubmit`. `parse` is `new URL`, `reply` the caption reply and
      `fixReachable` whether the fix-captions request goes through; the
      result is the list of requests made. */
    method HandleSubmit(parse: string -> Option<Url>, reply: Option<CaptionsField>, fixReachable: bool)
      returns (requests: seq<string>)
      modifies this
      ensures url == old(url)
      ensures var id := ExtractVideoId(parse(old(url)));
        && (id == "" ==>
              && requests == []
              && error == Some(InvalidLink)
              && caption == old(caption) && loading == old(loading))
        && (id != "" ==>
              && requests == [CaptionApi + id] + (if reply.Some? then [FixApi] else [])
              && View(caption, error) == Settle(reply, fixReachable)
              && !loading)
    {
      var id := ExtractVideoId(parse(url));
      if id == "" {
        error := Some(InvalidLink);
        return [];
      }
      loading := true;
      error := None;
      caption := Some("");
      requests := [CaptionApi + id];
      match reply {
        case None =>
          error := Some(ProcessingFailed);
        case Some(field) =>
          requests := requests + [FixApi];
          if !fixReachable {
            error := Some(ProcessingFailed);
          } else {
            var fixed := FixCaptions.Post(FixRequest(RawCaption(field)));
            caption := if fixed.Fixed? then Some(fixed.result) else None;
          }
      }
      loading := false;
    }
  }
}
