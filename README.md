# YTJAMAK caption pipeline, modelled in Dafny

YTJAMAK turns a YouTube link into readable captions in three steps.

1. The page (`src/app/page.tsx`) reads a video id out of the link.
2. `GET /api/youtube-caption` fetches the caption track. It first scrapes the
   watch page for its caption tracks, preferring a Korean track. If that
   fails in any way, it asks the timed-text endpoint. It answers with the cue
   texts joined by newlines.
3. `POST /api/fix-captions` normalises the text:
   - every whitespace run becomes one space, and the ends are trimmed;
   - the text is split after `.`, `?` or `!` followed by whitespace;
   - every piece gets a terminal mark;
   - the pieces are joined with newlines.

The page shows the result.

This project models that pipeline as Dafny functions over strings and
sequences. Only the page's submit handler updates state, so it is a class
method. The files are:

- `wrappers.dfy`: `Option`.
- `text.dfy`: the JavaScript string operations the pipeline relies on. These
  are `\s`, `trim`, `includes`, `join`, and a one-character `split` as the
  inverse of `join`.
- `fix_captions.dfy`: the normaliser and the `POST` handler, with the proofs
  of what they promise:
  - cleaned text is the words of the input joined by single spaces;
  - splitting and then joining with a space gives the cleaned text back;
  - every output line is a non-empty sentence ending in a terminal mark;
  - the line count is one more than the number of split points;
  - normalising is idempotent.
- `youtube_caption.dfy`:
  - `parseCaptions`;
  - the track choice;
  - the two retrieval strategies and the `GET` handler, with each outcome,
    short-circuit and request order stated.
- `page.dfy`:
  - `extractVideoId`;
  - the string-or-array `captions` normalisation;
  - `handleSubmit`, as a method on the component state;
  - the end-to-end view of a submission.

The outside world is a set of parameters:
- the network (`fetch`);
- the extraction of `captionTracks` from the watch page (a regular
  expression plus `JSON.parse`);
- the XML parser;
- `new URL`.

Failures are `None`. Whitespace is the ECMAScript WhiteSpace and
LineTerminator set, enumerated in `Text.IsSpace`.

Where the code and its intended design differ, the model follows the code:
- A caption of whitespace only is not rejected. It normalises to a lone `.`.
- An empty caption is rejected with status 400.
- `"Mr. Smith"` is split into two lines, `Mr.` and `Smith.`. The split does
  not know about abbreviations.
- When the caption endpoint answers with an error, the page shows neither a
  caption nor its error message:
  - the reply has no `captions` member;
  - so the fix request carries no caption and gets a 400;
  - and `result` is `undefined`.

  `Page.Settle` and `Page.SubmitShowsNormalised` state this.

## Model

| member | source | states |
|---|---|---|
| Text.Trim | src/app/api/fix-captions/route.ts:14 | the result is the slice of the input between its leading and trailing whitespace; both cut-off parts are all whitespace; it has no whitespace at either end; it is empty exactly when the input is blank |
| Text.SplitOnJoin | src/app/api/fix-captions/route.ts:26 | lines with no newline, joined with `\n`, split back into exactly those lines |
| Text.JoinSplitOn | src/app/api/fix-captions/route.ts:26 | splitting at a character and re-joining with it gives the string back |
| Text.JoinWithEnds | src/app/api/youtube-caption/route.ts:67 | a join starts with its first part and ends with its last |
| FixCaptions.CollapseShape | src/app/api/fix-captions/route.ts:13 | after `replace(/\s+/g, ' ')` every whitespace character is a plain space, no two whitespace characters are adjacent, and the text starts with whitespace exactly when the input did |
| FixCaptions.Clean | src/app/api/fix-captions/route.ts:12-14 | the cleaned text is collapsed and has no whitespace at either end |
| FixCaptions.WordsOfCollapse | src/app/api/fix-captions/route.ts:13 | collapsing whitespace runs does not change the words |
| FixCaptions.WordsOfTrim | src/app/api/fix-captions/route.ts:14 | trimming does not change the words |
| FixCaptions.CleanIsJoinedWords | src/app/api/fix-captions/route.ts:12-14 | the cleaned text equals the input's whitespace-separated words joined by single spaces |
| FixCaptions.CleanDependsOnlyOnWords | src/app/api/fix-captions/route.ts:12-14 | two captions with the same words clean to the same text |
| FixCaptions.Words | src/app/api/fix-captions/route.ts:13 | every word is non-empty and free of whitespace; text that starts with a non-space has at least one word |
| FixCaptions.TrimUntouched | src/app/api/fix-captions/route.ts:21 | `trim` leaves text with non-space ends unchanged (so the trim of each piece is a no-op) |
| FixCaptions.SplitClean | src/app/api/fix-captions/route.ts:17 | joining the pieces of cleaned text with `' '` gives it back; every piece is clean and holds no separator; every piece but the last ends in `.`, `?` or `!`; pieces of non-empty text are non-empty |
| FixCaptions.SplitFromJoin | src/app/api/fix-captions/route.ts:17 | the split from any search position re-joins, with single spaces, to the cleaned text |
| FixCaptions.SplitFromShape | src/app/api/fix-captions/route.ts:17 | each piece is clean and separator-free, and a piece before a cut ends in a terminal mark |
| FixCaptions.SplitFromNonEmpty | src/app/api/fix-captions/route.ts:17 | no piece of non-empty cleaned text is empty |
| FixCaptions.CleanBreak | src/app/api/fix-captions/route.ts:17 | in cleaned text a separator is one space between a piece ending in a terminal mark and a non-empty clean rest |
| FixCaptions.SplitCount | src/app/api/fix-captions/route.ts:17 | the number of pieces is one more than the number of positions where whitespace follows a terminal mark |
| FixCaptions.SplitFromCount | src/app/api/fix-captions/route.ts:17 | the piece count from any search position is one more than the separators from there on |
| FixCaptions.Split | src/app/api/fix-captions/route.ts:17 | there is always at least one piece (`"".split(...)` is `[""]`) |
| FixCaptions.SplitFrom | src/app/api/fix-captions/route.ts:17 | the search from any position yields at least one piece |
| FixCaptions.Punctuate | src/app/api/fix-captions/route.ts:20-23 | the line is non-empty and ends in a terminal mark; it is the trimmed piece, with `.` appended unless that already ends in `.`, `?` or `!` |
| FixCaptions.PunctuateAll | src/app/api/fix-captions/route.ts:20-23 | one line per piece, in order, each the punctuated piece |
| FixCaptions.PunctuatePiece | src/app/api/fix-captions/route.ts:20-23 | a clean, separator-free piece becomes a sentence; it is unchanged if it ends in a terminal mark and gets exactly one `.` otherwise |
| FixCaptions.PunctuatePieces | src/app/api/fix-captions/route.ts:20-23 | the same, for every piece of a list |
| FixCaptions.NormaliseLines | src/app/api/fix-captions/route.ts:12-23 | there is one line more than the split points of the cleaned text; every line is non-empty, ends in a terminal mark, is clean (so holds no newline) and holds no separator |
| FixCaptions.NormaliseLinesFromPieces | src/app/api/fix-captions/route.ts:17-23 | line i is piece i of the cleaned text, unchanged or with one `.` appended |
| FixCaptions.Normalise | src/app/api/fix-captions/route.ts:26 | splitting the result at `\n` gives exactly the normalised lines |
| FixCaptions.NoNewlineInClean | src/app/api/fix-captions/route.ts:26 | clean text holds no `\n`, so the output lines are separated only by the join |
| FixCaptions.Post | src/app/api/fix-captions/route.ts:3-33 | an unreadable body is a 500 `Failed to clean caption`; an absent, non-string or empty caption is a 400 `Invalid input`; otherwise, and only then, the reply is the normalised text |
| FixCaptions.SplitJoinedSentences | src/app/api/fix-captions/route.ts:17 | sentences joined by single spaces split back into the same sentences |
| FixCaptions.CollapseJoined | src/app/api/fix-captions/route.ts:13 | sentences joined by any one whitespace character collapse to the sentences joined by single spaces |
| FixCaptions.SentencesAreFixed | src/app/api/fix-captions/route.ts:12-23 | sentences joined by one whitespace character clean to the space-joined sentences and normalise back to the same lines |
| FixCaptions.SentencesSurviveWhitespace | src/app/api/fix-captions/route.ts:12-23 | text whose words are those of k sentences (each clean, separator-free and ending in `.`, `?` or `!`), with any whitespace layout between and inside them, normalises to exactly those k sentences |
| FixCaptions.NormaliseIdempotent | src/app/api/fix-captions/route.ts:12-26 | normalising the result again gives the same result |
| FixCaptions.BlankNormalisesToDot | src/app/api/fix-captions/route.ts:7-28 | a whitespace-only caption cleans to `""` and normalises to `"."`; a non-empty one is answered with `"."`, not an error |
| FixCaptions.SingleSentence | src/app/api/fix-captions/route.ts:17-26 | cleaned text with no split point gives one line: the cleaned text, with `.` appended unless it ends in a terminal mark |
| YoutubeCaption.CuesOf | src/app/api/youtube-caption/route.ts:22-26 | one cue per element, in order; `start` and `dur` are carried over as they are (absent stays absent); missing text becomes `""` |
| YoutubeCaption.ParseCaptions | src/app/api/youtube-caption/route.ts:17-31 | it fails exactly when the parser throws or finds no `<text>` element; otherwise it gives the non-empty cue list of the elements |
| YoutubeCaption.Texts | src/app/api/youtube-caption/route.ts:67 | the cue texts, one per cue, in order |
| YoutubeCaption.RawTextLines | src/app/api/youtube-caption/route.ts:67 | the raw text splits at `\n` back into the cue texts when no text holds a newline |
| YoutubeCaption.RawTextSingle | src/app/api/youtube-caption/route.ts:67 | the raw text of a single cue is exactly that cue's text |
| YoutubeCaption.FindKorean | src/app/api/youtube-caption/route.ts:58 | the index of the first track whose language is `ko`; there is none exactly when no track is Korean |
| YoutubeCaption.SelectTrack | src/app/api/youtube-caption/route.ts:58-59 | the chosen track is one of the tracks; it is the first Korean track when there is one, and `tracks[0]` otherwise |
| YoutubeCaption.Primary | src/app/api/youtube-caption/route.ts:43-67 | the watch page is requested first. A failed page request, a missing match or an absent or empty track list fails after that one request. Otherwise the selected track's URL is requested. A failed request or a blank document then fails. Success means a non-empty cue list parsed from that document |
| YoutubeCaption.Fallback | src/app/api/youtube-caption/route.ts:74-85 | exactly one request, to the timed-text URL; it succeeds exactly when the body is non-empty, contains `<text` and parses to at least one element, and then yields those elements' cues |
| YoutubeCaption.Get | src/app/api/youtube-caption/route.ts:33-92 | a missing or empty id is a 400 `videoId is required` with no request made. Otherwise the watch page is requested first. A primary success is answered with its text, and the fallback is never requested. After a primary failure the fallback URL is requested next, and its success is answered with its text. When both fail the answer is a 500 with the fixed message. There are at most three requests |
| Page.QueryGet | src/app/page.tsx:19 | `searchParams.get`: the value of the first pair with the name, or none exactly when no pair has it |
| Page.ExtractVideoId | src/app/page.tsx:15-24 | a URL that does not parse gives `""`; a host containing `youtu.be` gives the path without its first character, ahead of the `youtube.com` test; a host containing `youtube.com` gives the `v` parameter or `""`; a non-empty id comes only from one of those two hosts |
| Page.ShortLinkRoundTrip | src/app/page.tsx:18 | the id of a `youtu.be/<id>` link is `<id>` |
| Page.WatchLinkRoundTrip | src/app/page.tsx:19 | the id of a `youtube.com` link whose first parameter is `v=<id>` is `<id>` |
| Page.ItemTexts | src/app/page.tsx:42 | the `text` of each array item, in order, a missing one read as `""` |
| Page.RawCaption | src/app/page.tsx:41-43 | a string passes through unchanged; an array becomes its texts joined with `\n`; only a missing field gives `undefined` |
| Page.CueItems | src/app/page.tsx:6 | the `{ text }` array of a cue list, one item per cue |
| Page.ArrayAndStringAgree | src/app/page.tsx:41-43 | the array shape and the string shape of the same cues give the same raw text |
| Page.FieldOf | src/app/page.tsx:40-43 | a success reply carries its text as `captions`; an error reply has no `captions` |
| Page.FixRequest | src/app/page.tsx:45-49 | the fix request carries the raw text as `caption`, or no caption when it is `undefined` |
| Page.Settle | src/app/page.tsx:38-57 | a failed caption or fix request leaves the caption `""` and shows the processing error. Otherwise no error is shown. A shown caption is the normalised, non-empty raw text. A missing caption means the raw text was `undefined` or empty |
| Page.SubmitShowsNormalised | src/app/page.tsx:38-57 | end to end, for a non-empty id: non-empty retrieved text is shown normalised; a retrieval error shows neither a caption nor an error; the id is the value the endpoint reads, which the page does not encode |
| Page.Home.constructor | src/app/page.tsx:10-13 | the initial state: empty link, empty caption, not loading, no error |
| Page.Home.HandleSubmit | src/app/page.tsx:26-58 | an empty id sets the invalid-link error and changes nothing else, with no request made; otherwise the caption request and then, when it returned, the fix request are made, the view ends as `Settle` says, and loading is off again |

## Left out

- Network plumbing is not modelled: `axios.get`, request headers, `fetch` to the internal endpoints, status codes beyond the ones the handlers choose, and `NextResponse` framing. Each response is a parameter.
- The `ytInitialPlayerResponse` regular expression and `JSON.parse` are folded into one parameter that yields the track list or nothing.
- The JSDOM XML parser is a parameter yielding the `<text>` elements in document order, or nothing when it throws.
- `new URL` is a parameter yielding a parsed record (host name, path, query pairs), or nothing when it throws. Percent-decoding and the rest of the URL Standard are not modelled; in particular the page does not encode the id it puts into `?videoId=`, and an id holding `&`, `#`, `+` or `%` reaches the caption endpoint changed, which the model does not follow.
- `axios` may hand back a parsed JSON object rather than a string when the body looks like JSON. Bodies are modelled as strings only.
- React state setters, re-rendering, the `loading` guard on the button and the JSX are not modelled. `Page.Home` keeps the four state fields of the component; `handleSubmit` reads `url` and writes the other three, and its updates land in one step.
- `src/app/utils/youtube.ts` is not part of this model; the handler never calls it.
- Logging (`console.*`) is not modelled.
- Page.Settle: the fix request's network failure and its JSON decoding failure are one boolean; a fix reply other than the handler's own is not considered.
