/**
 * The command-line tool catnotes/backend/fireflies-to-pdf.js: how it assembles the document body
 * from a normalised transcript, how it resolves "latest" and "by title" requests to one transcript,
 * and how it dispatches on its arguments.
 */
module FirefliesToPdf {
  import opened Wrappers
  import opened Text
  import opened Fireflies
  import opened PdfTranscription

  // ---------------------------------------------------------------------------------------------
  // generatePdfFromTranscriptId
  // ---------------------------------------------------------------------------------------------

  const SummaryHeading := "# Summary\n\n"
  const ActionItemsHeading := "# Action Items\n\n"
  const TranscriptHeading := "# Full Transcript\n\n"
  const Bullet := "• "
  const NoTranscriptFound := "No transcript text found"

  /** The optional `# Summary` section: present exactly when the summary is non-empty. */
  function SummarySection(summary: string): string {
    if summary != "" then SummaryHeading + summary + "\n\n" else ""
  }

  /** The optional `# Action Items` section: one `• item` line per item, then a blank line. */
  function ActionItemsSection(items: seq<string>): string {
    if items != [] then ActionItemsHeading + BulletLines(Bullet, items) + "\n" else ""
  }

  /** The body `generatePdfFromTranscriptId` hands to the renderer. */
  function FullText(t: Transcription): string {
    SummarySection(t.summary) + ActionItemsSection(t.actionItems) + TranscriptHeading + t.transcript
  }

  /** The `fullText += …` sequence of the source, with its `forEach` over the action items. */
  method AssembleFullText(t: Transcription) returns (fullText: string)
    ensures fullText == FullText(t)
  {
    fullText := "";
    if t.summary != "" {
      fullText := fullText + SummaryHeading;
      fullText := fullText + t.summary + "\n\n";
    }
    assert fullText == SummarySection(t.summary);
    var items := t.actionItems;
    if |items| > 0 {
      fullText := fullText + ActionItemsHeading;
      fullText := AppendBulletLines(fullText, Bullet, items);
      fullText := fullText + "\n";
    }
    assert fullText == SummarySection(t.summary) + ActionItemsSection(items);
    fullText := fullText + TranscriptHeading;
    fullText := fullText + t.transcript;
  }

  /** The transcript section is always present and always last. */
  lemma {:induction false} FullTextEndsWithTranscript(t: Transcription)
    ensures var body := FullText(t); var tail := TranscriptHeading + t.transcript;
      |tail| <= |body| && body[|body| - |tail|..] == tail
  {
    var body := FullText(t);
    var head := SummarySection(t.summary) + ActionItemsSection(t.actionItems);
    assert body == head + (TranscriptHeading + t.transcript);
  }

  /**
   * The body opens with the `# Summary` heading exactly when the summary is non-empty, and then
   * with the summary itself and a blank line.
   */
  lemma {:induction false} FullTextSummaryFirst(t: Transcription)
    ensures SummaryHeading <= FullText(t) <==> t.summary != ""
    ensures t.summary != "" ==> SummaryHeading + t.summary + "\n\n" <= FullText(t)
  {
    var body := FullText(t);
    if t.summary == "" {
      if t.actionItems != [] {
        assert body[2] == ActionItemsHeading[2];
      } else {
        assert body[2] == TranscriptHeading[2];
      }
      assert body[2] != SummaryHeading[2];
    } else {
      assert body == SummaryHeading + (t.summary + "\n\n" + ActionItemsSection(t.actionItems) + TranscriptHeading + t.transcript);
      assert body == (SummaryHeading + t.summary + "\n\n") + (ActionItemsSection(t.actionItems) + TranscriptHeading + t.transcript);
    }
  }

  /**
   * Right after the summary section comes the `# Action Items` heading exactly when there are
   * action items, followed by one `• item` line per item, in order, and a blank line.
   */
  lemma {:induction false} FullTextActionItemsNext(t: Transcription)
    ensures var rest := FullText(t)[|SummarySection(t.summary)|..];
      ActionItemsHeading <= rest <==> t.actionItems != []
    ensures var rest := FullText(t)[|SummarySection(t.summary)|..];
      t.actionItems != [] ==> ActionItemsHeading + BulletLines(Bullet, t.actionItems) + "\n" <= rest
  {
    var rest := FullText(t)[|SummarySection(t.summary)|..];
    assert rest == ActionItemsSection(t.actionItems) + TranscriptHeading + t.transcript;
    if t.actionItems == [] {
      assert rest[2] == TranscriptHeading[2];
      assert rest[2] != ActionItemsHeading[2];
    } else {
      assert rest == ActionItemsHeading + (BulletLines(Bullet, t.actionItems) + "\n" + TranscriptHeading + t.transcript);
      assert rest == (ActionItemsHeading + BulletLines(Bullet, t.actionItems) + "\n") + (TranscriptHeading + t.transcript);
    }
  }

  /**
   * `generatePdfFromTranscriptId(transcriptId, title)`, where `fetched` is what
   * `getTranscription(transcriptId)` produced. A missing or empty transcript fails before anything
   * is rendered; otherwise the body is rendered under `title` and the returned path comes back, or
   * the rejection of `createPdf` (the outputs directory cannot be created) is rethrown.
   */
  method GeneratePdfFromTranscriptId(store: OutputStore, fetched: Attempt<Option<Transcription>>, title: string,
                                     isoTimestamp: string, generatedAt: string, mkdirError: Option<string>)
    returns (r: Attempt<string>)
    requires store.Valid()
    modifies store
    ensures store.Valid()
    ensures fetched.Threw? ==> r == Threw(fetched.message) && unchanged(store)
    ensures fetched.Returned? && !Ready(fetched.value) ==> r == Threw(NoTranscriptFound) && unchanged(store)
    ensures fetched.Returned? && Ready(fetched.value) && MkdirFails(old(store.directories), mkdirError) ==>
      r == Threw(mkdirError.value) && unchanged(store)
    ensures fetched.Returned? && Ready(fetched.value) && !MkdirFails(old(store.directories), mkdirError) ==>
      && r == Returned(OutputPath(title, isoTimestamp))
      && store.directories == old(store.directories) + {OutputsDir}
      && store.files == old(store.files)[FileName(title, isoTimestamp) :=
                                         Document(AppHeading, Heading(title), generatedAt, FullText(fetched.value.value))]
  {
    match fetched
    case Threw(message) =>
      r := Threw(message);
    case Returned(data) =>
      if !Ready(data) {
        r := Threw(NoTranscriptFound);
      } else {
        var fullText := AssembleFullText(data.value);
        r := store.CreatePdf(fullText, title, isoTimestamp, generatedAt, mkdirError);
      }
  }

  // ---------------------------------------------------------------------------------------------
  // scheduleBotAndGetTranscript
  // ---------------------------------------------------------------------------------------------

  /** `{success, error?}` as `scheduleBotAndGetTranscript` returns it. */
  datatype SchedulingReport = SchedulingReport(success: bool, error: Option<string>)

  function ScheduleBotAndGetTranscript(outcome: Attempt<ScheduleResult>): SchedulingReport {
    match outcome
    case Returned(result) => SchedulingReport(result.success, None)
    case Threw(message) => SchedulingReport(false, Some(message))
  }

  /** The tool reports a scheduled bot exactly when the provider answered `addToLiveMeeting.success === true`. */
  lemma {:induction false} ScheduledIffProviderAgreed(meetingLink: string, meetingTitle: string, post: (string, string) -> PostOutcome)
    ensures ScheduleBotAndGetTranscript(ScheduleBot(meetingLink, meetingTitle, post)).success <==>
      var outcome := post(meetingLink, meetingTitle);
      && outcome.Responded? && outcome.body.errors.None? && outcome.body.data.Some?
      && outcome.body.data.value.addToLiveMeeting.Some?
      && outcome.body.data.value.addToLiveMeeting.value.success == Some(true)
  {
  }

  // ---------------------------------------------------------------------------------------------
  // findAndGeneratePdf and generatePdfFromLatest
  // ---------------------------------------------------------------------------------------------

  /** A refusal `{success: false, error}`, or the transcript to generate from. */
  datatype Resolution = Refused(error: string) | Generate(transcriptId: string, title: string)

  const NoMatches := "No matching transcripts found"
  const MultipleMatches := "Multiple matches found"
  const NoTranscripts := "No transcripts found"

  /** `findAndGeneratePdf(searchTitle)` up to the generation step: zero, one or several matches. */
  function ResolveByTitle(recent: seq<TranscriptRef>, searchTitle: string): (r: Resolution)
    ensures var matches := FindTranscriptByTitle(recent, searchTitle);
      && (r == Refused(NoMatches) <==> matches == [])
      && (r == Refused(MultipleMatches) <==> |matches| > 1)
      && (r.Generate? <==> |matches| == 1)
  {
    var matches := FindTranscriptByTitle(recent, searchTitle);
    if |matches| == 0 then Refused(NoMatches)
    else if |matches| > 1 then Refused(MultipleMatches)
    else Generate(matches[0].id, matches[0].title)
  }

  /** A generated transcript is the one listed transcript that matches, and its id and title are used. */
  lemma {:induction false} ResolvedIsOnlyMatch(recent: seq<TranscriptRef>, searchTitle: string)
    requires ResolveByTitle(recent, searchTitle).Generate?
    ensures exists m :: (m in recent && TitleMatches(m, searchTitle)
      && ResolveByTitle(recent, searchTitle) == Generate(m.id, m.title)
      && forall t :: t in recent && TitleMatches(t, searchTitle) ==> t == m)
  {
    var matches := FindTranscriptByTitle(recent, searchTitle);
    var m := matches[0];
    assert m in matches;
    forall t | t in recent && TitleMatches(t, searchTitle)
      ensures t == m
    {
      assert t in matches;
    }
  }

  /** Two different matching transcripts make the request ambiguous: it is refused rather than guessed. */
  lemma {:induction false} AmbiguousIsRefused(recent: seq<TranscriptRef>, searchTitle: string, i: nat, j: nat)
    requires i < |recent| && j < |recent| && recent[i] != recent[j]
    requires TitleMatches(recent[i], searchTitle) && TitleMatches(recent[j], searchTitle)
    ensures ResolveByTitle(recent, searchTitle) == Refused(MultipleMatches)
  {
    var matches := FindTranscriptByTitle(recent, searchTitle);
    assert recent[i] in matches && recent[j] in matches;
  }

  /** `generatePdfFromLatest()` up to the generation step: the head of the recent list, if any. */
  function ResolveLatest(recent: seq<TranscriptRef>): (r: Resolution)
    ensures r.Generate? <==> recent != []
    ensures r.Refused? ==> r.error == NoTranscripts
    ensures r.Generate? ==> r.transcriptId == recent[0].id && r.title == recent[0].title
  {
    if |recent| == 0 then Refused(NoTranscripts) else Generate(recent[0].id, recent[0].title)
  }

  // ---------------------------------------------------------------------------------------------
  // main: argument dispatch
  // ---------------------------------------------------------------------------------------------

  predicate IsHexDigit(c: char) {
    IsDigit(c) || 'a' <= c <= 'f' || 'A' <= c <= 'F'
  }

  function DigitValue(c: char): nat {
    if IsDigit(c) then c as int - '0' as int
    else if 'a' <= c <= 'f' then c as int - 'a' as int + 10
    else if 'A' <= c <= 'F' then c as int - 'A' as int + 10
    else 0
  }

  /** The value of a digit string, most significant digit first. */
  function DigitsValue(digits: string, radix: nat): nat
    decreases |digits|
  {
    if digits == [] then 0 else DigitsValue(digits[..|digits| - 1], radix) * radix + DigitValue(digits[|digits| - 1])
  }

  /**
   * The longest run of digits at the start of an unsigned numeral: base 16 after a `0x`/`0X`
   * prefix, base 10 otherwise; `None` when the run is empty.
   */
  function ReadDigits(unsigned: string): Option<nat> {
    var hex := |unsigned| >= 2 && unsigned[0] == '0' && (unsigned[1] == 'x' || unsigned[1] == 'X');
    var digits := if hex then unsigned[2..] else unsigned;
    var end := RunEnd(digits, 0, if hex then IsHexDigit else IsDigit);
    if end == 0 then None else Some(DigitsValue(digits[..end], if hex then 16 else 10))
  }

  /**
   * `parseInt(arg)` with no radix; `None` stands for `NaN`. Leading white space is skipped, one
   * sign is read, then the digits. An absent argument is the string "undefined", which has no
   * digits.
   */
  function ParseInt(arg: Option<string>): Option<int> {
    if arg.None? then None
    else
      var s := TrimStart(arg.value);
      var negative := s != [] && s[0] == '-';
      var signed := s != [] && (s[0] == '-' || s[0] == '+');
      match ReadDigits(if signed then s[1..] else s)
      case None => None
      case Some(v) => var n: int := v; Some(if negative then -n else n)
  }

  const DefaultListLimit := 10

  /** `parseInt(args[1]) || 10`: `NaN` and zero fall back to 10. */
  function ListLimit(arg: Option<string>): (limit: int)
    ensures limit != 0
    ensures arg.None? ==> limit == DefaultListLimit
  {
    var n := ParseInt(arg);
    if n.None? || n.value == 0 then DefaultListLimit else n.value
  }

  function DigitChar(d: nat): char
    requires d < 10
  {
    ('0' as int + d) as char
  }

  /** The decimal numeral of `n`, as a user types it. */
  function DecimalString(n: nat): (s: string)
    ensures s != [] && forall k :: 0 <= k < |s| ==> IsDigit(s[k])
    decreases n
  {
    if n < 10 then [DigitChar(n)] else DecimalString(n / 10) + [DigitChar(n % 10)]
  }

  lemma {:induction false} DecimalValue(n: nat)
    ensures DigitsValue(DecimalString(n), 10) == n
    decreases n
  {
    var s := DecimalString(n);
    if n >= 10 {
      DecimalValue(n / 10);
      assert s[..|s| - 1] == DecimalString(n / 10);
    }
  }

  /** `parseInt` reads back every decimal numeral. */
  lemma {:induction false} ParseIntDecimal(n: nat)
    ensures ParseInt(Some(DecimalString(n))) == Some(n)
  {
    var s := DecimalString(n);
    assert !IsJsSpace(s[0]);
    assert TrimStart(s) == s;
    ReadDecimalDigits(n);
  }

  lemma {:induction false} ReadDecimalDigits(n: nat)
    ensures ReadDigits(DecimalString(n)) == Some(n)
  {
    var s := DecimalString(n);
    assert |s| >= 2 ==> s[1] != 'x' && s[1] != 'X';
    assert RunEnd(s, 0, IsDigit) == |s|;
    assert s[..|s|] == s;
    DecimalValue(n);
  }

  /** `--list N` lists N transcripts for every positive decimal N. */
  lemma {:induction false} ListLimitDecimal(n: nat)
    requires n > 0
    ensures ListLimit(Some(DecimalString(n))) == n
  {
    ParseIntDecimal(n);
  }

  /** What `main` does for one argument vector. */
  datatype Command =
    | Help
    | Latest
    | ListRecent(limit: int)
    | FindByTitle(searchTitle: string)
    | PdfOnly(transcriptId: string, meetingTitle: string)
    | ScheduleMeeting(meetingLink: string, meetingTitle: string)
    | UsageError(message: string)

  const DefaultMeetingTitle := "Meeting Transcription"
  const SearchTitleRequired := "Error: Search title is required"
  const TranscriptIdRequired := "Error: Transcript ID is required"
  const MeetingLinkRequired := "Error: Meeting link is required"

  /** `args[i]`, or `undefined` past the end. */
  function Arg(args: seq<string>, i: nat): Option<string> {
    if i < |args| then Some(args[i]) else None
  }

  predicate WantsHelp(args: seq<string>) {
    "--help" in args || "-h" in args || |args| == 0
  }

  /** `main()` over `process.argv.slice(2)`. */
  function Dispatch(args: seq<string>): (c: Command)
    ensures c == Help <==> WantsHelp(args)
    ensures c == Latest <==> !WantsHelp(args) && args[0] == "--latest"
    ensures c.ListRecent? <==> !WantsHelp(args) && args[0] == "--list"
    ensures c.ListRecent? ==> c.limit == ListLimit(Arg(args, 1)) && c.limit != 0
    ensures c.FindByTitle? <==> !WantsHelp(args) && args[0] == "--find" && Truthy(Arg(args, 1))
    ensures c.FindByTitle? ==> c.searchTitle == args[1]
    ensures c.PdfOnly? <==> !WantsHelp(args) && args[0] == "--pdf-only" && Truthy(Arg(args, 1))
    ensures c.PdfOnly? ==> c == PdfOnly(args[1], OrDefault(Arg(args, 2), DefaultMeetingTitle))
    ensures c.ScheduleMeeting? <==>
      !WantsHelp(args) && args[0] !in {"--latest", "--list", "--find", "--pdf-only"} && args[0] != ""
    ensures c.ScheduleMeeting? ==> c == ScheduleMeeting(args[0], OrDefault(Arg(args, 1), DefaultMeetingTitle))
    ensures c == UsageError(SearchTitleRequired) <==> !WantsHelp(args) && args[0] == "--find" && !Truthy(Arg(args, 1))
    ensures c == UsageError(TranscriptIdRequired) <==> !WantsHelp(args) && args[0] == "--pdf-only" && !Truthy(Arg(args, 1))
    ensures c == UsageError(MeetingLinkRequired) <==> !WantsHelp(args) && args[0] == ""
    ensures c.UsageError? ==> c.message in {SearchTitleRequired, TranscriptIdRequired, MeetingLinkRequired}
  {
    if WantsHelp(args) then Help
    else if args[0] == "--latest" then Latest
    else if args[0] == "--list" then ListRecent(ListLimit(Arg(args, 1)))
    else if args[0] == "--find" then
      if !Truthy(Arg(args, 1)) then UsageError(SearchTitleRequired) else FindByTitle(args[1])
    else if args[0] == "--pdf-only" then
      var meetingTitle := OrDefault(Arg(args, 2), DefaultMeetingTitle);
      if !Truthy(Arg(args, 1)) then UsageError(TranscriptIdRequired) else PdfOnly(args[1], meetingTitle)
    else
      var meetingTitle := OrDefault(Arg(args, 1), DefaultMeetingTitle);
      if args[0] == "" then UsageError(MeetingLinkRequired) else ScheduleMeeting(args[0], meetingTitle)
  }

  /** A help flag anywhere wins over every mode, whatever comes first. */
  lemma {:induction false} HelpFlagWins(args: seq<string>, i: nat)
    requires i < |args| && args[i] in {"--help", "-h"}
    ensures Dispatch(args) == Help
  {
    assert args[i] in args;
  }
}
