/**
 * `generateTranscriptionPdf` (catnotes/backend/fireflies-pdf-generator.js): the readiness check,
 * the body layout with the optional summary and action-item blocks, and the
 * `{success, pdfPath, error}` result.
 */
module PdfGenerator {
  import opened Wrappers
  import opened Text
  import opened Fireflies
  import opened PdfTranscription

  const DefaultMeetingTitle := "Meeting Transcription"
  const NotReady := "Transcription not ready yet or not available"
  const UnknownError := "Unknown error occurred"
  const SummaryHeading := "## Meeting Summary\n"
  const TranscriptHeading := "\n\n## Full Transcript\n"
  const ActionItemsHeading := "## Action Items\n"
  const Bullet := "• "

  /** The transcript, wrapped with the summary when there is one. */
  function WithSummary(t: Transcription): string {
    if t.summary != "" then SummaryHeading + t.summary + TranscriptHeading + t.transcript else t.transcript
  }

  /** `formattedTranscription` after both optional rewrites: action items, if any, come first. */
  function FormatTranscription(t: Transcription): string {
    if |t.actionItems| > 0 then
      ActionItemsHeading + Bullet + Join(t.actionItems, "\n" + Bullet) + "\n\n" + WithSummary(t)
    else WithSummary(t)
  }

  /** With neither summary nor action items the body is the transcript itself. */
  lemma {:induction false} FormatPlain(t: Transcription)
    requires t.summary == "" && t.actionItems == []
    ensures FormatTranscription(t) == t.transcript
  {
  }

  /** The transcript is always the tail of the body. */
  lemma {:induction false} FormatEndsWithTranscript(t: Transcription)
    ensures var body := FormatTranscription(t);
      |t.transcript| <= |body| && body[|body| - |t.transcript|..] == t.transcript
  {
    var body := FormatTranscription(t);
    var w := WithSummary(t);
    if t.summary != "" {
      assert w == (SummaryHeading + t.summary + TranscriptHeading) + t.transcript;
    }
    if |t.actionItems| > 0 {
      var head := ActionItemsHeading + Bullet + Join(t.actionItems, "\n" + Bullet) + "\n\n";
      assert body == head + w;
      assert body[|body| - |w|..] == w;
    }
  }

  /**
   * Action items open the body as one `• item` line per item followed by a blank line, ahead of
   * the summary: the same bullet lines as the command-line tool's `# Action Items` section.
   */
  lemma {:induction false} FormatActionItemsFirst(t: Transcription)
    requires t.actionItems != []
    ensures FormatTranscription(t) == ActionItemsHeading + BulletLines(Bullet, t.actionItems) + "\n" + WithSummary(t)
  {
    JoinedBullets(Bullet, t.actionItems);
    var j := Join(t.actionItems, "\n" + Bullet);
    assert ActionItemsHeading + Bullet + j + "\n\n" + WithSummary(t)
        == ActionItemsHeading + (Bullet + j + "\n") + "\n" + WithSummary(t);
  }

  /** `{success, pdfPath, error}` */
  datatype PdfResult = PdfResult(success: bool, pdfPath: Option<string>, error: Option<string>)

  /**
   * `generateTranscriptionPdf(transcriptId, meetingTitle)`, where `fetched` is what
   * `getTranscription(transcriptId)` produced and `meetingTitle` is `None` when the caller passed
   * `undefined` (only then does the default parameter apply). `mkdirError` is what creating the
   * outputs directory would throw; a rejected `createPdf` is caught like any other error.
   */
  method GenerateTranscriptionPdf(store: OutputStore, fetched: Attempt<Option<Transcription>>, meetingTitle: Option<string>,
                                  isoTimestamp: string, generatedAt: string, mkdirError: Option<string>)
    returns (r: PdfResult)
    requires store.Valid()
    modifies store
    ensures store.Valid()
    ensures r.success <==> fetched.Returned? && Ready(fetched.value) && !MkdirFails(old(store.directories), mkdirError)
    ensures r.error.None? <==> r.success
    ensures r.pdfPath.Some? <==> r.success
    ensures fetched.Threw? ==> r.error == Some(OrElse(fetched.message, UnknownError))
    ensures fetched.Returned? && !Ready(fetched.value) ==> r.error == Some(NotReady)
    ensures fetched.Returned? && Ready(fetched.value) && MkdirFails(old(store.directories), mkdirError) ==>
      r.error == Some(OrElse(mkdirError.value, UnknownError))
    ensures !r.success ==> unchanged(store)
    ensures r.success ==>
      var title := meetingTitle.GetOr(DefaultMeetingTitle);
      && r.pdfPath == Some(OutputPath(title, isoTimestamp))
      && store.directories == old(store.directories) + {OutputsDir}
      && store.files == old(store.files)[FileName(title, isoTimestamp) :=
                                         Document(AppHeading, Heading(title), generatedAt, FormatTranscription(fetched.value.value))]
  {
    var title := meetingTitle.GetOr(DefaultMeetingTitle);
    match fetched
    case Threw(message) =>
      r := PdfResult(false, None, Some(OrElse(message, UnknownError)));
    case Returned(data) =>
      if !Ready(data) {
        r := PdfResult(false, None, Some(NotReady));
      } else {
        var rendered := store.CreatePdf(FormatTranscription(data.value), title, isoTimestamp, generatedAt, mkdirError);
        match rendered
        case Threw(message) =>
          r := PdfResult(false, None, Some(OrElse(message, UnknownError)));
        case Returned(pdfPath) =>
          r := PdfResult(true, Some(pdfPath), None);
      }
  }
}
