# WhatsApp chat analyser: message parsing and report helpers

This project is a Dafny model of the core of a browser application that reads
an exported WhatsApp chat and shows statistics about it. It covers four parts:

- The worker's `parseMessages` (parser.worker.js:8-55). It splits the
  transcript into lines and tries the header pattern on each line. A line that
  matches opens a new message, with its date, time and author taken from the
  header. Any other line is trimmed and appended to the open message, and lines
  before the first header are dropped.
- The import guards of app.js. A text shorter than 10 UTF-16 units is refused
  as empty or damaged. A transcript in which no header matched is refused as an
  unknown format. Between the two guards the model runs `parseMessages` on the
  text directly; the messaging between app.js and the worker is not modelled
  (see "Left out").
- The import's bookkeeping: it counts the messages of each author, ranks the
  authors by that count and names the chat after the top two.
- The display helpers: `formatTime`, the percent and face of the sentiment
  meter, the 3000-message render window and the PDF file name
  `getSmartFilename`.

The modules are:

- `Text`: the string primitives the code relies on. These are `trim`,
  `split`/`join`, ASCII `toLowerCase`, `includes`, and decimal digits with
  their values.
- `HeaderLine`: the header regular expression of parser.worker.js:12. It is a
  staged parser: date, clock, optional `a. m.`/`p. m.` marker, dash, speaker
  and body. Each stage has a round-trip lemma against its renderer, and the
  lemma `ParseRender` gives the same round trip for a whole header line.
- `MessageDecode`: what the worker does with the captures. It reads the date
  parts and expands a two-digit year, splits the clock, applies the 12-hour
  marker, normalises the body and builds the time field and the message.
- `ParserWorker`: `parseMessages` as an imperative loop. It is proved equal to
  a recursive reference definition `Grouped`, whose properties are proved as
  lemmas.
- `ChatImport`: the guards and the author tally, ranking and chat name of
  app.js.
- `ReportFormat`: `formatTime`, the sentiment meter and `getSmartFilename`.
- `MessageView`: the render window of `renderMessages`.

Some behaviours of the code are easy to expect of a chat importer but are not
what the code does. The model follows the code:

- Only the dashed header format `date, time - author: text` is recognised
  (the pattern at parser.worker.js:12). A bracketed `[date, time] author:`
  header is an ordinary line.
- A blank line inside a message is not skipped. It appends `"\n"` to the open
  message (parser.worker.js:44-46).
- Authors keep any bidirectional control characters. Only `trim` is applied
  (parser.worker.js:40).
- There is no "System" author: a header whose body is empty yields a message
  with empty text (parser.worker.js:35-41).
- The marker is converted only when written `a.m.`/`p.m.` without inner
  spaces. The pattern accepts `p. m.`, but `toLowerCase().includes('p.m.')`
  fails on it, so the hour is kept (parser.worker.js:26-32).
- app.js reads `msg.type`, `msg.percent` and `msg.analytics` from the worker's
  reply (app.js:189-193), as if the worker reported progress and computed
  emoji, response-time and sentiment tallies. The worker's code does none of
  this: it posts the bare message array (parser.worker.js:64).

## Model

| member | source | states |
|---|---|---|
| Text.Trim | parser.worker.js:40 | the result has no leading or trailing white space and is no longer than the input (`String.prototype.trim`) |
| Text.TrimPadded | parser.worker.js:40 | trimming white space around a text that neither starts nor ends with white space gives back exactly that text |
| Text.TrimIdempotent | parser.worker.js:35 | trimming twice is trimming once |
| Text.TrimKeepsAbsent | parser.worker.js:40 | trimming never introduces a character that was not in the text |
| Text.ToLower | parser.worker.js:27 | same length, each character lower-cased (ASCII letters) |
| Text.ContainsOnlyAtFront | parser.worker.js:27 | when no later character can start the needle, `includes` holds exactly when the text starts with it |
| Text.Split | parser.worker.js:10 | at least one piece, and no piece contains the separator |
| Text.JoinSplit | parser.worker.js:10 | joining the pieces of a split with the separator gives back the text |
| Text.SplitJoin | app.js:657 | splitting a join of separator-free pieces gives back the pieces |
| Text.SplitFreePrefix | app.js:655 | a separator-free prefix joins the first piece of what follows it |
| Text.FirstPiece | app.js:655 | the first piece is a prefix ending at the first separator or at the end |
| Text.ValueConcat | parser.worker.js:25 | the decimal value of concatenated digit strings |
| Text.NatToStringValue | app.js:239 | the decimal text of a number reads back as that number |
| HeaderLine.ParseDatePartText | parser.worker.js:12 | one or two digits followed by `/`, `.` or `-` are read back as written |
| HeaderLine.ParseDateText | parser.worker.js:12 | a date token of 1-2, 1-2 and 2-4 digits is read back with the text after it |
| HeaderLine.ParseHourMinuteText | parser.worker.js:12 | `H:MM` or `HH:MM` is read back as written |
| HeaderLine.ParseClockText | parser.worker.js:12 | the clock with its preceding spaces is read back as written |
| HeaderLine.ParseMarkerText | parser.worker.js:12 | an `a.`/`p.` marker with optional inner and trailing spaces, in any case, is read back |
| HeaderLine.ParseDashText | parser.worker.js:12 | the spaces, the optional `a.m.`/`p.m.` marker and the hyphen are read back, with and without the marker |
| HeaderLine.ParseSpeakerText | parser.worker.js:12 | a colon-free author followed by `:` is read back |
| HeaderLine.ParseTailText | parser.worker.js:12 | the spaces and the rest of the line up to a line terminator are read back |
| HeaderLine.ParseLayout | parser.worker.js:12 | a recognised line is exactly the rendering of the layout found |
| HeaderLine.ParseRender | parser.worker.js:12 | every well-formed header layout is recognised as itself |
| HeaderLine.MatchHeader | parser.worker.js:16 | on a match the author is non-empty and colon-free, and the body holds no line terminator |
| HeaderLine.HeaderMinLength | parser.worker.js:12 | a line that matches has at least 14 characters |
| MessageDecode.SlashedDateText | parser.worker.js:22 | replacing `.` and `-` by `/` in a date token joins its day, month and year with `/` |
| MessageDecode.DecodeDateToken | parser.worker.js:22-23 | the day, month and year read from a date token are those written, with the year expanded |
| MessageDecode.FullYear | parser.worker.js:23 | a year written in digits stays digits after expansion; `FullYearValue` states its value |
| MessageDecode.DecodeDate | parser.worker.js:22-23 | defined on dates with at least three parts, which the destructuring needs; `DecodeDateToken` states the day, month and expanded year it reads |
| MessageDecode.FullYearValue | parser.worker.js:23 | a two-digit year `yy` is the year 2000 + yy; a longer year is kept |
| MessageDecode.DecodeClock | parser.worker.js:25 | defined on clocks with two digit pieces; `DecodeClockToken` states the hour and minute it reads from a written clock |
| MessageDecode.DecodeClockToken | parser.worker.js:25 | `split(':')` of the clock gives hour and minute with their decimal values |
| MessageDecode.DecodeHour | parser.worker.js:26-32 | with no marker the hour is kept; otherwise it changes only by +12 below 12, or from 12 to 0 |
| MessageDecode.MarkerConversion | parser.worker.js:27-29 | the lower-cased marker contains `p.m.` (`a.m.`) exactly when it is a `p` (`a`) marker without inner spaces |
| MessageDecode.MarkerLowerFront | parser.worker.js:27 | a lower-cased marker starts with its letter and a dot, and has `m` third exactly when there is no blank inside |
| MessageDecode.DecodeHourWithMarker | parser.worker.js:26-32 | the hour after a marker: +12 for `p.m.` before noon, 0 for `a.m.` at 12, otherwise unchanged |
| MessageDecode.SpacedMarkerKeepsHour | parser.worker.js:27-29 | a marker written with inner spaces (`p. m.`) leaves the hour unchanged |
| MessageDecode.TwelveHourClock | parser.worker.js:26-32 | for hours 1-12 with an `a.m.`/`p.m.` marker, the hour keeps its 12-hour value and lies in the morning or afternoon half |
| MessageDecode.DecodeHourInDay | parser.worker.js:26-32 | an hour 1-12 always decodes to an hour of the day 0-23 |
| MessageDecode.NormalizeBody | parser.worker.js:35 | the message text has no leading or trailing white space |
| MessageDecode.PlaceholderAnyCase | parser.worker.js:35 | `<multimedia omitido>` in any case, with any surrounding space, becomes `Multimedia omitido` |
| MessageDecode.OrdinaryBodyTrimmed | parser.worker.js:35 | any other body is stored as written, less only its surrounding white space |
| MessageDecode.LabelStable | parser.worker.js:35 | the replacement label is left as it is |
| MessageDecode.NormalizeBodyIdempotent | parser.worker.js:35 | normalising the text twice is normalising it once |
| MessageDecode.TimeField | parser.worker.js:39 | the time text; `TimeFieldOfMarker` states it for every written marker |
| MessageDecode.TimeFieldOfMarker | parser.worker.js:39 | the time field is the clock, a space and the trimmed marker |
| MessageDecode.OpenMessage | parser.worker.js:21-43 | the message a decodable header opens; `DecodeLayout` states each of its fields, the time text included, for every written header line |
| MessageDecode.DecodeLayout | parser.worker.js:21-43 | the message opened by a header carries its date text, its clock with the trimmed marker as time text, the trimmed author, the normalised body and the decoded year, month, day, hour and minute |
| MessageDecode.MatchedDecodable | parser.worker.js:16-25 | every line that matches can be decoded: the date has three parts and the clock two |
| ParserWorker.Header | parser.worker.js:16-43 | a line opens a message exactly when the header pattern matches it, and `MatchedDecodable` shows every match can be decoded |
| ParserWorker.Grouped | parser.worker.js:15-52 | the reference grouping; `GroupedByHeaders`, `LeadingLinesDropped` and `ContinuationLines` state what it contains |
| ParserWorker.ParseMessages | parser.worker.js:8-55 | the messages parsed from a transcript are the reference grouping `Grouped` of its lines, read with the header pattern |
| ParserWorker.GroupLines | parser.worker.js:15-52 | the loop over the lines, with the final flush, yields exactly the reference grouping for the reader it is given |
| ParserWorker.PendingAtHeader | parser.worker.js:17-20 | at a header line the open message is closed and the header's message opened |
| ParserWorker.PendingAtOther | parser.worker.js:44-46 | any other line is trimmed and appended after a newline to the open message, or dropped if none is open |
| ParserWorker.PendingAtEnd | parser.worker.js:50-52 | at the end of the input the open message is closed |
| ParserWorker.HeaderIndices | parser.worker.js:15-17 | each listed position holds a header line |
| ParserWorker.HeaderIndicesIncreasing | parser.worker.js:15-17 | the header positions are strictly increasing |
| ParserWorker.HeaderIndicesComplete | parser.worker.js:15-17 | every header line's position is among the header positions |
| ParserWorker.GroupedByHeaders | parser.worker.js:15-47 | there is one message per header line, in order, each being that header's message with the following non-header lines appended |
| ParserWorker.LeadingLinesDropped | parser.worker.js:44 | lines before the first header contribute nothing |
| ParserWorker.ContinuationOf | parser.worker.js:44-46 | the text appended to a message is the newline-prefixed trimmed lines up to the next header |
| ParserWorker.ContinuationLines | parser.worker.js:37-46 | a header followed by non-header lines gives a single message whose text is the header's text plus those lines |
| ParserWorker.HeaderAuthorColonFree | parser.worker.js:12 | the author of a header line never contains a colon |
| ParserWorker.AuthorsColonFree | parser.worker.js:40 | if no header yields an author with a colon, no grouped message has one |
| ParserWorker.ParsedAuthorsColonFree | parser.worker.js:40 | no parsed message has an author containing a colon |
| ParserWorker.ShortTextNoMessages | parser.worker.js:10-17 | a transcript shorter than 14 characters yields no messages |
| ChatImport.Utf16Length | app.js:147 | the UTF-16 length lies between the number of code points and twice that number |
| ChatImport.ReasonsDistinct | app.js:148 | the two refusals, empty or damaged and unknown format, are reported with different messages |
| ChatImport.TooShort | app.js:147 | the guard's test; `TooShortHasNoMessages` shows it refuses only texts that hold no message |
| ChatImport.TooShortHasNoMessages | app.js:147-149 | every text the length guard refuses would also have parsed to no messages |
| ChatImport.TotalUnlisted | app.js:206 | setting the count of an author not in the key list leaves the total unchanged |
| ChatImport.TotalBump | app.js:206 | adding one to a listed author's count adds one to the total |
| ChatImport.OccurrencesStep | app.js:206 | one more message adds one to its own author's count and nothing to the others' |
| ChatImport.TalliedBump | app.js:206 | counting a message by an author already present keeps the tally exact |
| ChatImport.TalliedFresh | app.js:206 | counting a message by a new author appends it to the keys and keeps the tally exact |
| ChatImport.TallyAuthors | app.js:205-206 | the keys are exactly the authors who wrote a message, listed without repeats; each count is that author's message count; the counts add up to the number of messages |
| ChatImport.Insert | app.js:207 | inserting an author adds exactly that author to the list |
| ChatImport.InsertDescending | app.js:207 | insertion keeps the list ordered by non-increasing count |
| ChatImport.HeadDescending | app.js:207 | an author with the largest count may head an ordered list |
| ChatImport.PrependDescending | app.js:207 | an author counting at least as many as the head may precede it |
| ChatImport.InsertDistinct | app.js:207 | inserting an absent author keeps the list free of repeats |
| ChatImport.Ranked | app.js:207 | the sorted authors are a permutation of the keys, ordered by non-increasing count |
| ChatImport.RankedTop | app.js:207 | the first sorted author has the largest count |
| ChatImport.ChatName | app.js:212 | with no author the name is empty, with one it is that author, with more it is the top two joined by ` & ` |
| ChatImport.FinishImport | app.js:196-215 | an empty parse fails with the unknown-format error; otherwise the record keeps the messages, lists every author once by non-increasing message count, and is named after the top two |
| ChatImport.ImportText | app.js:147-149 | a too-short text fails as empty or damaged; otherwise the import fails exactly when parsing finds no message, and succeeds with the parsed messages and at least one participant |
| ChatImport.OccursAtIndex | app.js:206 | every message's author has a positive count |
| ReportFormat.FormatTime | app.js:235-242 | the text is never empty; the `FormatTime*` lemmas state the text of each branch |
| ReportFormat.FormatTimeMissing | app.js:236 | the text is `N/A` exactly when the value is missing or zero |
| ReportFormat.FormatTimeSeconds | app.js:237 | under a minute the text is the seconds followed by `s` |
| ReportFormat.FormatTimeMinutes | app.js:238-239 | from one minute to under an hour the text is the whole minutes followed by ` min` |
| ReportFormat.FormatTimeHours | app.js:240-241 | from an hour on, the text is the hours, `h `, the minutes past the hour and `m` |
| ReportFormat.MeterPercent | app.js:245-247 | the percent lies in 0-100 and is `50 + 2·score` unless clamped at 0 or 100 |
| ReportFormat.MeterPercentMonotone | app.js:245-247 | a higher score never gives a lower percent |
| ReportFormat.MoodOf | app.js:249-253 | the face for each band: below 20, 20-39, 40-60, 61-80, above 80 |
| ReportFormat.MoodMonotone | app.js:249-253 | a higher percent never shows a lower face |
| ReportFormat.EmojiDistinct | app.js:249-253 | the five faces are different, so a face determines its band |
| ReportFormat.MeterReading | app.js:245-253 | the step-by-step clamps and overrides give the clamped percent and the face of its band |
| ReportFormat.FirstWord | app.js:655 | the first word holds no space |
| ReportFormat.KeepAlnum | app.js:655 | the result holds only ASCII letters and digits and is no longer than the input |
| ReportFormat.KeepAlnumWhole | app.js:655 | a text of letters and digits is kept whole |
| ReportFormat.KeepAlnumDrops | app.js:655 | a text with no ASCII letter or digit is removed entirely |
| ReportFormat.KeepAlnumConcat | app.js:655 | filtering a concatenation filters each part |
| ReportFormat.Slug | app.js:655-656 | a participant's part of the name contains neither `_` nor `.` |
| ReportFormat.SlugOfPlainName | app.js:655 | a name whose first word is plain letters and digits contributes exactly that word |
| ReportFormat.SmartFilename | app.js:652-660 | fewer than two participants give `Reporte.pdf`; otherwise the name splits at `_` into the first slug, `y` and the second slug with `.pdf`; the name has three `_`-pieces exactly when there are two participants |
| ReportFormat.DefaultNameDistinct | app.js:653 | the default name has no `_`, so it cannot be a name built from participants |
| MessageView.RenderWindow | app.js:392-393 | the window is the last min(n, 3000) messages of the list |
| MessageView.NoticeWhenShortened | app.js:395 | the notice is shown exactly when some messages are left out of the window |
| MessageView.RenderWindowIdempotent | app.js:393 | taking the window of the window changes nothing |
| MessageView.RenderWindowNewest | app.js:393 | once 3000 newer messages follow, older messages do not affect the window |

## Left out

- The `timestamp` field: `new Date(...)` and `toISOString` depend on the local time zone and calendar arithmetic. The model keeps the decoded year, month, day, hour and minute, which are the `Date` constructor's arguments.
- The worker's messaging (`onmessage`, `postMessage`) is not modelled. The progress reports and the emoji, response-time and sentiment analytics have no code in the worker, so there is nothing to model.
- ChatImport.ImportText: assumes the worker replies with `{type: 'complete', data: parseMessages(text)}`. As written, app.js:181-184 posts the object `{text, attachmentNames}`, parser.worker.js:60-64 hands that object to `parseMessages`, whose `split` is not defined on it, and the bare array the worker posts matches no branch of app.js:189-228. The model takes the evident intent: the text is parsed and the result handled as at app.js:193-215.
- service-worker.js (caching), ZIP extraction, the DOM, Chart.js, PDF generation and IndexedDB storage are outside this model.
- Text.ToLower: lower-cases ASCII letters only. Full Unicode case mapping does not matter for the marker and placeholder comparisons, which are ASCII.
- Text.Trim: uses a fixed set of white-space characters (ASCII white space, NBSP, U+1680, U+2000-U+200A, U+2028/9, U+202F, U+205F, U+3000, U+FEFF), as `trim` does. Strings are sequences of code points, not UTF-16 units.
- ChatImport.Utf16Length: the length guard counts UTF-16 units from the code points. Lone surrogates cannot appear in a Dafny string.
- ChatImport.TallyAuthors: the keys are modelled in first-appearance order. JavaScript lists integer-like keys such as `"123"` first in numeric order, and a map does not reproduce the special keys of `Object.prototype` such as `__proto__`.
- ChatImport.Ranked: the order among authors with equal counts is not stated. `Array.prototype.sort` is stable, but the model's insertion sort is not claimed to match it on ties.
- ChatImport.FinishImport: the slot id, the import date and the stored attachments are left out. They come from the clock and from storage.
- ReportFormat.FormatTime: seconds are whole numbers. `Math.round` of a fraction and `NaN` (which `!seconds` also treats as missing) are not modelled. The function's own contract only says the text is non-empty; the promised texts are stated by the four `FormatTime*` lemmas.
- ReportFormat.MeterReading: the score is an integer. The signed score label and the HTML around the meter are not modelled.
- ReportFormat.SmartFilename: `participants` is a global in the source and a parameter here.
- MessageView.RenderWindow: the DOM elements built for each message are not modelled.
