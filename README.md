# CatNotes backend core, modelled in Dafny

CatNotes turns meeting audio captured by a Fireflies.ai bot into PDF notes. The backend talks to
Fireflies over GraphQL, normalises a transcript record into `{transcript, summary, actionItems}`,
lays out document bodies in three ways, and writes them as `catnotes-<title>-<timestamp>.pdf`
under `outputs/`. The three layouts are:

- the command-line tool's `# Summary` / `# Action Items` / `# Full Transcript` body;
- the Fireflies generator's `## Action Items` / `## Meeting Summary` body;
- the study-notes `* key point` body.

It also exposes HTTP handlers for scheduling a bot, generating PDFs and reporting transcription
status, and parses Zoom join links.

This project models that core as one Dafny module per source file:

| module | source file |
|---|---|
| `Fireflies` | `catnotes/backend/fireflies.js` |
| `FirefliesToPdf` | `catnotes/backend/fireflies-to-pdf.js` |
| `PdfGenerator` | `catnotes/backend/fireflies-pdf-generator.js` |
| `PdfTranscription` | `catnotes/backend/pdf-transcription.js` |
| `Api` | `catnotes/backend/api.js` |
| `Zoom` | `catnotes/backend/zoom.js` |
| `Routes` | `catnotes/backend/routes.js` |

`Wrappers` adds two wrapper types:

- `Option`;
- `Attempt`, meaning "returned a value" or "threw with a message".

`Text` states the JavaScript string and path built-ins the code relies on:

- truthiness and `||` defaults;
- ASCII `toLowerCase` and `includes`;
- `join` and `trim`;
- `split` on a regular-expression class;
- first-match regular-expression capture;
- POSIX `path.basename`.

Some steps are imperative in the source: the `+=` accumulations with `forEach`, and writing into
the outputs directory. These are methods:

- The accumulations have loop invariants and are proved equal to specification functions.
- The outputs directory is a class, `PdfTranscription.OutputStore`, whose `files` map is updated by
  `CreatePdf`.

Everything else is a function with lemmas. Network calls, the clock and the locale are parameters:

- An already-fetched `Attempt` value, or a function for a service that is called with arguments.
- `isoTimestamp` stands for `toISOString()`.
- `generatedAt` and `localeDate` stand for the locale formatting.
- `mkdirError` is what `mkdirSync` throws when `createPdf` has to create `outputs/` (`None` when it
  succeeds).

File names embed the meeting title verbatim; no sanitisation is applied (`PdfTranscription.FileName`).

## Model

| member | source | states |
|---|---|---|
| Text.Lower | catnotes/backend/fireflies.js:116 | ASCII lower-casing keeps the length of the text |
| Text.ContainsIffOccurs | catnotes/backend/fireflies.js:116 | `includes` holds exactly when the needle occurs at some position of the text |
| Text.JoinAppend | catnotes/backend/fireflies.js:167-169 | joining two non-empty lists puts exactly one separator between their joins |
| Text.BulletLinesSnoc | catnotes/backend/fireflies-to-pdf.js:77-79 | one more item appends exactly its own `marker item\n` line |
| Text.AppendBulletLines | catnotes/backend/fireflies-to-pdf.js:77-79 | the `forEach` that appends `marker item\n` per item yields the text followed by one line per item, in order |
| Text.JoinedBullets | catnotes/backend/fireflies-pdf-generator.js:40-41 | `marker + items.join('\n' + marker) + '\n'` is one `marker item\n` line per item |
| Text.TrimStart | catnotes/backend/api.js:89 | the result is a suffix of the input, every dropped character is white space, and it does not start with white space |
| Text.TrimEnd | catnotes/backend/api.js:89 | the result is a prefix of the input, every dropped character is white space, and it does not end with white space |
| Text.Trim | catnotes/backend/api.js:89 | `trim()` yields a contiguous piece of the input, made of its characters, with no white space at either end |
| Text.TrimDescribed | catnotes/backend/api.js:89 | everything `trim()` drops is white space: the result sits in the input with only white space before and after it |
| Text.TrimUnique | catnotes/backend/api.js:89 | any piece of the input with only white space around it and none at its ends is exactly `trim()` of the input |
| Text.SplitOnRuns | catnotes/backend/api.js:166 | splitting on runs of a character class gives at least one piece, and no piece holds a separator |
| Text.SplitOnRunsInterleaves | catnotes/backend/api.js:166 | the input is the pieces joined by non-empty runs of separators, with no separator in a piece and no empty piece except possibly the first and the last |
| Text.SplitUnique | catnotes/backend/api.js:166 | every way of writing the input as such pieces and runs is the split itself, so each run is a maximal run of separators, as in `split(/[.!?]+/)` |
| Text.SplitKeepsText | catnotes/backend/api.js:166 | the pieces, written back to back, are the input with exactly the separators removed |
| Text.CaptureAfter | catnotes/backend/zoom.js:20 | `match(/marker(X+)/)` fails exactly when the marker is nowhere followed by an X. Otherwise group 1 is the maximal non-empty run of X after the leftmost such marker |
| Text.FirstCaptureUnique | catnotes/backend/api.js:80 | the leftmost-start, greedy-run description of a match has at most one solution |
| Text.CaptureOfFirstMatch | catnotes/backend/zoom.js:20-25 | a match shown to be leftmost and greedy is the one `match` returns |
| Text.Basename | catnotes/backend/api.js:90 | `path.basename` never contains `/` |
| Text.BasenameOfJoined | catnotes/backend/api.js:191 | the basename of `dir/name` is `name` when `name` is non-empty and has no `/` |
| Fireflies.GetTranscription | catnotes/backend/fireflies.js:157-187 | A null record gives null. Otherwise the transcript is the `speaker: text` lines or the fallback text, and never empty. The summary is the overview or `""`. A list of action items passes through, one truthy value becomes a one-element list, and otherwise the list is empty |
| Fireflies.FormatSentencesNonEmpty | catnotes/backend/fireflies.js:166-170 | a non-empty sentence list never formats to the empty string |
| Fireflies.FormatSentencesAppend | catnotes/backend/fireflies.js:167-169 | formatting keeps provider order: two batches format to their texts joined by one blank line |
| Fireflies.NormalisedIsReady | catnotes/backend/fireflies.js:159-187 | a normalised record passes the renderers' `!data \|\| !data.transcript` test exactly when the provider returned one |
| Fireflies.FindTranscriptByTitle | catnotes/backend/fireflies.js:112-117 | the result holds exactly the listed transcripts whose lower-cased title includes the lower-cased search text, and is no longer than the list |
| Fireflies.FindAppend | catnotes/backend/fireflies.js:115-117 | filtering commutes with concatenation, so matches keep the provider's order |
| Fireflies.FindCounts | catnotes/backend/fireflies.js:115-117 | each matching transcript is kept as many times as it is listed, and nothing else is kept |
| Fireflies.FindOwnTitle | catnotes/backend/fireflies.js:115-117 | searching for a listed transcript's own title finds it |
| Fireflies.FindIgnoresSearchCase | catnotes/backend/fireflies.js:116 | lower-casing the search text does not change the result |
| Fireflies.ScheduleBot | catnotes/backend/fireflies.js:8-75 | A value is returned exactly for an error-free 2xx body that has `addToLiveMeeting`. `success` is true exactly when the provider said `success === true`, and an error is set exactly when it is false. A non-2xx response throws `API Error: ` followed by the first GraphQL error message or, failing that, the status text. A 2xx body throws its first error message, the `TypeError` message for an empty error list, `Invalid API response structure` without `data`, and `Failed to schedule bot - no result data` without `addToLiveMeeting`. A missing response throws the fixed message, and an exception from sending is rethrown unchanged |
| PdfTranscription.SafeTimestamp | catnotes/backend/pdf-transcription.js:13 | replacing `:` keeps the length, leaves no colon, turns each colon into `-` and keeps every other character |
| PdfTranscription.SafeTimestampInjective | catnotes/backend/pdf-transcription.js:13 | two different ISO timestamps never sanitise to the same text |
| PdfTranscription.FileNameInjective | catnotes/backend/pdf-transcription.js:13-14 | for one title, two different instants give two different file names |
| PdfTranscription.FileNameParts | catnotes/backend/pdf-transcription.js:13-14 | the file name is exactly `catnotes-`, the verbatim title or `meeting`, `-`, the timestamp with each `:` replaced by `-`, and `.pdf` |
| PdfTranscription.OutputPathBasename | catnotes/backend/pdf-transcription.js:14-38 | for an ISO timestamp and a title without `/`, the basename of the returned `/outputs/<file>` path is the written file's name |
| PdfTranscription.OutputStore.EnsureOutputsDir | catnotes/backend/pdf-transcription.js:18-20 | An existing `outputs` is left alone. A missing one is created unless `mkdirSync` throws, and then that error is reported and nothing changed. No other directory or file changes |
| PdfTranscription.OutputStore.CreatePdf | catnotes/backend/pdf-transcription.js:6-44 | The call rejects exactly when `outputs` is missing and `mkdirSync` throws; it then carries that error and nothing changed. Otherwise it resolves with `/outputs/<file name>`, `outputs` exists, and it writes or overwrites that file with the headings `CatNotes` and the title (or `Meeting Transcript`), the generation time and the body. Every other file is left as it was |
| PdfTranscription.RenderTwice | catnotes/backend/pdf-transcription.js:13-20 | two renders under one title at different instants return different paths and keep both documents; a first render that fails leaves nothing changed and the second fails too |
| FirefliesToPdf.AssembleFullText | catnotes/backend/fireflies-to-pdf.js:67-84 | the `fullText +=` sequence, with its `forEach`, builds exactly the `# Summary` / `# Action Items` / `# Full Transcript` body |
| FirefliesToPdf.FullTextEndsWithTranscript | catnotes/backend/fireflies-to-pdf.js:83-84 | the body always ends with `# Full Transcript` and the transcript |
| FirefliesToPdf.FullTextSummaryFirst | catnotes/backend/fireflies-to-pdf.js:69-72 | the body opens with `# Summary` exactly when the summary is non-empty, and then with `# Summary\n\n`, the summary and a blank line |
| FirefliesToPdf.FullTextActionItemsNext | catnotes/backend/fireflies-to-pdf.js:75-81 | with action items, the summary block is followed by `# Action Items`, one `• item` line per item and a blank line |
| FirefliesToPdf.GeneratePdfFromTranscriptId | catnotes/backend/fireflies-to-pdf.js:57-98 | A fetch error is rethrown, and a missing or empty transcript throws `No transcript text found`. A `createPdf` rejection is rethrown with its message. In these cases nothing is written. Otherwise exactly one file is written, with the assembled body, and its path is returned |
| FirefliesToPdf.ScheduledIffProviderAgreed | catnotes/backend/fireflies-to-pdf.js:34-55 | the tool reports success exactly when the provider answered `addToLiveMeeting.success === true` |
| FirefliesToPdf.ResolveByTitle | catnotes/backend/fireflies-to-pdf.js:125-149 | no match is refused with `No matching transcripts found` and several with `Multiple matches found`. Generation happens exactly when there is one match |
| FirefliesToPdf.ResolvedIsOnlyMatch | catnotes/backend/fireflies-to-pdf.js:146-149 | the generated transcript is the one listed transcript that matches, under its own id and title |
| FirefliesToPdf.AmbiguousIsRefused | catnotes/backend/fireflies-to-pdf.js:135-144 | two different matching transcripts make the search refused |
| FirefliesToPdf.ResolveLatest | catnotes/backend/fireflies-to-pdf.js:157-171 | the latest transcript is generated exactly when the list is non-empty, under the head's id and title. Otherwise the answer is `No transcripts found` |
| FirefliesToPdf.ListLimit | catnotes/backend/fireflies-to-pdf.js:212 | `parseInt(args[1]) \|\| 10` is never 0 and is 10 when the argument is absent |
| FirefliesToPdf.ParseIntDecimal | catnotes/backend/fireflies-to-pdf.js:212 | `parseInt` reads back every decimal numeral |
| FirefliesToPdf.ListLimitDecimal | catnotes/backend/fireflies-to-pdf.js:212 | `--list N` lists N transcripts for every positive decimal N |
| FirefliesToPdf.Dispatch | catnotes/backend/fireflies-to-pdf.js:179-269 | Help is chosen exactly for `--help`, `-h` or no arguments. Each other mode is chosen exactly on its first argument, with its required argument present. Titles default to `Meeting Transcription`. `Search title is required` is reported exactly for `--find` without a title, `Transcript ID is required` exactly for `--pdf-only` without an id, and `Meeting link is required` exactly for an empty first argument |
| FirefliesToPdf.HelpFlagWins | catnotes/backend/fireflies-to-pdf.js:183 | a help flag anywhere in the arguments selects help |
| PdfGenerator.FormatPlain | catnotes/backend/fireflies-pdf-generator.js:31-42 | with neither summary nor action items, the body is the transcript itself |
| PdfGenerator.FormatEndsWithTranscript | catnotes/backend/fireflies-pdf-generator.js:31-42 | the transcript is always the tail of the body |
| PdfGenerator.FormatActionItemsFirst | catnotes/backend/fireflies-pdf-generator.js:39-42 | action items open the body as `## Action Items` and one `• item` line per item, then a blank line, ahead of the summary block |
| PdfGenerator.GenerateTranscriptionPdf | catnotes/backend/fireflies-pdf-generator.js:11-62 | Success holds exactly for a ready record whose render does not reject. The error is null exactly on success, and the path is set exactly on success. A failure carries the thrown message (or `Unknown error occurred`), from the fetch or from `createPdf`, or `Transcription not ready yet or not available`, and writes nothing. Success writes one file under the given title, or `Meeting Transcription` when the title is absent |
| Api.ScheduleBotHandler | catnotes/backend/api.js:29-49 | A missing or empty link or title gives 400. A returned result is answered with its own `success` and `error`. A thrown error gives 500 with its message, or with `Failed to schedule bot` |
| Api.ScheduleBotEndToEnd | catnotes/backend/api.js:40-41 | wired to the Fireflies client, the endpoint answers `success: true` exactly when the provider agreed, and then carries no error |
| Api.ExtractGeneratedPath | catnotes/backend/api.js:80-89 | the path is absent exactly when the log line never appears; otherwise it is the trimmed rest of the first such line |
| Api.GenerateLatestReply | catnotes/backend/api.js:73-123 | A start failure, a non-zero exit (with stderr or the fixed message), a missing log line and a missing file each give their 500 answer. Success holds exactly otherwise, with the logged path and `/outputs/` + its basename |
| Api.ExtractLoggedPath | catnotes/backend/api.js:80-89 | a path logged on its own line, after text without the marker, is exactly the path extracted |
| Api.LatestReplyRecoversPath | catnotes/backend/api.js:78-107 | when the script logs the path `createPdf` returned, the endpoint reports that path and `/outputs/<written file name>` |
| Api.KeyPoints | catnotes/backend/api.js:165-169 | every bullet is `* ` followed by a non-empty point without sentence punctuation or surrounding white space |
| Api.NonEmptyAppend | catnotes/backend/api.js:168 | the `filter(point => point.length > 0)` commutes with concatenation, so the kept points stay in order |
| Api.NonEmptyCounts | catnotes/backend/api.js:168 | the filter keeps each non-empty point exactly as often as it occurs and drops every empty one |
| Api.SplitJoinedSentences | catnotes/backend/api.js:166 | `sentences.join(". ")` splits back into the sentences, each after the first keeping its leading space |
| Api.KeyPointsOfSentences | catnotes/backend/api.js:165-170 | a summary written as key points joined by `. ` yields exactly one bullet per point, in order |
| Api.SplitTerminated | catnotes/backend/api.js:166 | a summary written as sentences, each ended by a run of `.`, `!` or `?`, then an unterminated last piece, splits into exactly those sentences and that piece |
| Api.KeyPointsOfSplit | catnotes/backend/api.js:165-169 | for any way of writing the summary as pieces between runs of sentence marks, the bullets are the pieces that are not blank after trimming, trimmed, in order |
| Api.KeyPointsOfTerminated | catnotes/backend/api.js:165-169 | for a summary such as `We met. We agreed!` each non-blank sentence becomes one bullet holding its trimmed text, in order; an unterminated last piece adds a bullet exactly when it is not blank |
| Api.AppendKeyPoints | catnotes/backend/api.js:162-171 | the `## Key Points` block is appended only for a non-empty summary |
| Api.ComposeStudyNotes | catnotes/backend/api.js:157-180 | the `notesContent +=` sequence, with its `forEach`, builds exactly the study-notes text |
| Api.StudyNotesOpening | catnotes/backend/api.js:157-158 | the notes open with the fixed header and `## ` followed by the title, or `Class Notes` when there is none |
| Api.GenerateStudyNotes | catnotes/backend/api.js:134-202 | A failed list fetch or transcript fetch gives 500, an empty list gives 404 `No recent transcripts found`, and a record that is not ready gives 404 `Transcript data not found`. A `createPdf` rejection gives 500. None of these writes anything. Success holds exactly otherwise; it writes the notes under `<title or Class Notes> - Summary` and reports `outputs/` + the basename |
| Api.NotesPathNamesFile | catnotes/backend/api.js:183-191 | for a title without `/`, the reported path is `outputs/` followed by the written file's name |
| Zoom.ExtractMeetingInfo | catnotes/backend/zoom.js:17-39 | A link with no `/j/` followed by a digit throws `Invalid Zoom meeting link`. Otherwise the meeting number is the first such digit run (non-empty, all digits). The password is null exactly when no `pwd=` is followed by a non-`&`; otherwise it is the first such run, non-empty and free of `&` |
| Zoom.JoinLinkInfo | catnotes/backend/zoom.js:20-34 | `<host>/j/<number>?pwd=<password>`, with any further `&` parameters, yields exactly that number and password |
| Zoom.JoinMarkerFirst | catnotes/backend/zoom.js:20-21 | in such a link the `/j/` match captures exactly the number |
| Zoom.PasswordMarkerFirst | catnotes/backend/zoom.js:24-25 | in such a link the `pwd=` match captures exactly the password |
| Zoom.SmokeTestLink | catnotes/backend/test-zoom.js:6 | the smoke-test link yields `75759622983` and `Xa1A66VuTRl9jTPUuOyia16E28iKt4.1` |
| Zoom.NoPasswordStillParses | catnotes/backend/zoom.js:24-34 | a link with a meeting number but no `pwd=` still parses, with a null password |
| Routes.JoinMeeting | catnotes/backend/routes.js:9-24 | The reply is a join exactly when the link is present, parses and can be signed; it then carries the parsed number and the signature. The password is the request's when it is truthy, otherwise the parsed one. Every failure is 500 `Failed to join meeting` |
| Routes.JoinLinkReply | catnotes/backend/routes.js:12-19 | for a `<host>/j/<number>?pwd=<password>` link, the reply carries the number, and the link's password unless the request supplies a non-empty one |
| Routes.JoinRejectsLinkWithoutNumber | catnotes/backend/routes.js:12-23 | a link without `/j/` is answered with the 500 error |
| Routes.ScheduleBotRoute | catnotes/backend/routes.js:102-124 | A missing or empty link gives 400 `Meeting link is required`. Otherwise the service is called with the title or `CatNotes Meeting`, and its `success` is reported. A throw gives 500 |
| Routes.ScheduleTitleDefaults | catnotes/backend/routes.js:110-113 | a missing or empty title is the same request as `CatNotes Meeting` |
| Routes.TranscriptionStatusOf | catnotes/backend/routes.js:127-151 | `COMPLETED`, with the record's transcript, summary and action items, is reported exactly for a record with a non-empty transcript. `IN_PROGRESS` is reported exactly for a returned record without one. A throw gives 500 |
| Routes.StatusOfProviderPayload | catnotes/backend/routes.js:131-146 | wired to the normaliser, the status is `COMPLETED` exactly when the provider returned a record, with its sentences as `speaker: text` lines |
| Routes.FirefliesGeneratePdf | catnotes/backend/routes.js:188-221 | A missing or empty bot id gives 400 without calling the generator. Generator success, which needs a ready record and a render that does not reject, gives the written path. A generator failure gives 400 with its error (including a `createPdf` rejection's message), and nothing is written |

## Left out

- Network clients: the bodies of `getRecentTranscripts` and of the `axios.post` calls. Their results are inputs (`Attempt` values or service functions), including thrown errors.
- `catnotes/backend/transcribe.js` is not part of this model. The `/transcribe`, `/transcribe/:jobId`, `/join-and-transcribe` and `/process-meeting` handlers are left out. They call services that are never defined or not exported (`recallService`, the unexported `transcribeService` methods), so only their call-and-respond shape exists.
- The `/generate-notes` and `/generate-pdf` handlers are outside the modelled core. Each awaits `createPdf` (`PdfTranscription.OutputStore.CreatePdf`) and answers with its path, or with a fixed 500 message when it rejects.
- `catnotes/backend/routes.js:99` requires a module that does not exist, so the router cannot load as written. `Routes` models the decision logic of its handlers as if the Fireflies client were wired in.
- Routes.ScheduleBotRoute: the reply's `botId` is left out, because the Fireflies client never returns one (it is always `undefined`).
- The unused polling constants `POLL_INTERVAL_MS` and `MAX_POLLS`. There is no polling loop in the code.
- The file-permission block at the top of `fireflies-to-pdf.js`. It is a best-effort `chmod`/`mkdir` whose failure is only logged.
- The console output of `listRecentTranscripts`, of the multiple-match listing and of `main`'s hints. `FirefliesToPdf.Dispatch` stops at the chosen command.
- Spawning the script in `/api/generate-latest`. The run is the `ScriptRun` input: it failed to start, or it closed with an exit code, stdout and stderr. `existsSync` is the `fileExists` input.
- PDF layout: fonts, alignment and page flow (PDFKit). A `Document` holds the heading, the generation time and the body text. A rejection when `mkdirSync` throws is modelled. The stream flush is asynchronous, and an error from the PDF library or the write stream is not modelled: such errors come after `resolve` or, for a synchronous throw inside the layout calls, from code outside this model. This includes a title containing `/`, which names a file in a sub-directory.
- The clock and the locale: `toISOString()`, `toLocaleString()` and `toLocaleDateString()` are parameters. PdfTranscription.IsIsoTimestamp covers years 0000-9999 only, not the six-digit extended years.
- `generateSignature`: HMAC-SHA256, base64 and the wall clock. Routes.JoinMeeting takes the signer as a parameter that may throw.
- Text.Lower: lower-cases ASCII letters only, because Unicode case mapping is out of scope.
- FirefliesToPdf.ParseInt: reads digits into an unbounded integer, so the double-precision rounding of very long numerals is not modelled.
- Request-body values that are not strings (numbers, objects, `null` where the code uses a default parameter). Text fields are `Option<string>`, and `None` stands for absent.
- FirefliesToPdf.ResolveByTitle and FirefliesToPdf.ResolveLatest: they take the already-fetched recent list, so a failing list fetch (caught and returned as `{success: false, error}`) is not part of them.
