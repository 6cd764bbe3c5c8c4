/**
 * The decision logic of the Express handlers in catnotes/backend/routes.js that the rest of the
 * backend can serve: `/meetings/join`, `/schedule-bot`, `/transcription/:botId` and
 * `/fireflies/generate-pdf`. Each handler's `res.status(...).json(...)` becomes a returned reply
 * value; the services it awaits are parameters.
 */
module Routes {
  import opened Wrappers
  import opened Text
  import opened Fireflies
  import opened Zoom
  import opened PdfTranscription
  import opened PdfGenerator

  // ---------------------------------------------------------------------------------------------
  // POST /meetings/join
  // ---------------------------------------------------------------------------------------------

  /** `{signature, meetingNumber, password}`, or `500 {error}`. */
  datatype JoinReply =
    | Joined(signature: string, meetingNumber: string, password: Option<string>)
    | JoinFailed(status: nat, error: string)

  const JoinFailedMessage := "Failed to join meeting"

  /**
   * `meetingLink` is `None` when the body has none (then `.match` throws); `sign` stands for
   * `generateSignature(meetingNumber)`, which throws when the Zoom credentials are missing.
   */
  function JoinMeeting(meetingLink: Option<string>, password: Option<string>, sign: string -> Attempt<string>): (r: JoinReply)
    ensures r.Joined? <==>
      && meetingLink.Some? && ExtractMeetingInfo(meetingLink.value).Returned?
      && sign(ExtractMeetingInfo(meetingLink.value).value.meetingNumber).Returned?
    ensures !r.Joined? ==> r == JoinFailed(500, JoinFailedMessage)
    ensures r.Joined? ==>
      var info := ExtractMeetingInfo(meetingLink.value).value;
      && r.meetingNumber == info.meetingNumber
      && r.signature == sign(info.meetingNumber).value
      && r.password == (if Truthy(password) then password else info.password)
  {
    if meetingLink.None? then JoinFailed(500, JoinFailedMessage)
    else match ExtractMeetingInfo(meetingLink.value)
      case Threw(_) => JoinFailed(500, JoinFailedMessage)
      case Returned(details) =>
        match sign(details.meetingNumber)
        case Threw(_) => JoinFailed(500, JoinFailedMessage)
        case Returned(signature) =>
          Joined(signature, details.meetingNumber, if Truthy(password) then password else details.password)
  }

  /**
   * For a join link `<host>/j/<number>?pwd=<password>`, the reply carries the link's number, and its
   * password unless the request supplies a non-empty one, which then wins.
   */
  lemma {:induction false} JoinLinkReply(host: string, number: string, linkPassword: string, requestPassword: Option<string>,
                      sign: string -> Attempt<string>)
    requires 'j' !in host && '=' !in host
    requires number != [] && forall m :: 0 <= m < |number| ==> IsDigit(number[m])
    requires linkPassword != [] && '&' !in linkPassword
    requires sign(number).Returned?
    ensures var r := JoinMeeting(Some(host + JoinMarker + number + "?" + PasswordMarker + linkPassword), requestPassword, sign);
      && r == Joined(sign(number).value, number, if Truthy(requestPassword) then requestPassword else Some(linkPassword))
  {
    var link := host + JoinMarker + number + "?" + PasswordMarker + linkPassword;
    JoinLinkInfo(host, number, linkPassword, "");
    assert link + "" == link;
  }

  /** A link without a meeting number is answered with the 500 error whatever else the request holds. */
  lemma {:induction false} JoinRejectsLinkWithoutNumber(meetingLink: string, password: Option<string>, sign: string -> Attempt<string>)
    requires !Contains(meetingLink, JoinMarker)
    ensures JoinMeeting(Some(meetingLink), password, sign) == JoinFailed(500, JoinFailedMessage)
  {
    forall k: nat | FollowedAt(meetingLink, JoinMarker, IsDigit, k)
      ensures false
    {
      assert OccursAt(meetingLink, JoinMarker, k);
      ContainsIffOccurs(meetingLink, JoinMarker);
    }
  }

  // ---------------------------------------------------------------------------------------------
  // POST /schedule-bot
  // ---------------------------------------------------------------------------------------------

  /** `{message, botId, success}` (the service sends no `botId`), or an error status. */
  datatype RouteScheduleReply =
    | BotScheduled(message: string, success: bool)
    | RouteScheduleFailed(status: nat, error: string)

  const DefaultRouteTitle := "CatNotes Meeting"
  const LinkRequired := "Meeting link is required"
  const BotScheduledMessage := "Bot scheduled successfully"
  const RouteScheduleFailedMessage := "Failed to schedule bot"

  function ScheduleBotRoute(meetingLink: Option<string>, meetingTitle: Option<string>,
                            scheduleBot: (string, string) -> Attempt<ScheduleResult>): (r: RouteScheduleReply)
    ensures !Truthy(meetingLink) ==> r == RouteScheduleFailed(400, LinkRequired)
    ensures Truthy(meetingLink) ==>
      var called := scheduleBot(meetingLink.value, OrDefault(meetingTitle, DefaultRouteTitle));
      && (r.BotScheduled? <==> called.Returned?)
      && (called.Returned? ==> r == BotScheduled(BotScheduledMessage, called.value.success))
      && (called.Threw? ==> r == RouteScheduleFailed(500, RouteScheduleFailedMessage))
  {
    if !Truthy(meetingLink) then RouteScheduleFailed(400, LinkRequired)
    else match scheduleBot(meetingLink.value, OrDefault(meetingTitle, DefaultRouteTitle))
      case Returned(result) => BotScheduled(BotScheduledMessage, result.success)
      case Threw(_) => RouteScheduleFailed(500, RouteScheduleFailedMessage)
  }

  /** A missing or empty title is the same request as one titled `CatNotes Meeting`. */
  lemma {:induction false} ScheduleTitleDefaults(meetingLink: Option<string>, scheduleBot: (string, string) -> Attempt<ScheduleResult>)
    ensures ScheduleBotRoute(meetingLink, None, scheduleBot) == ScheduleBotRoute(meetingLink, Some(DefaultRouteTitle), scheduleBot)
    ensures ScheduleBotRoute(meetingLink, Some(""), scheduleBot) == ScheduleBotRoute(meetingLink, Some(DefaultRouteTitle), scheduleBot)
  {
  }

  // ---------------------------------------------------------------------------------------------
  // GET /transcription/:botId
  // ---------------------------------------------------------------------------------------------

  /** `{status: 'COMPLETED', transcript, summary, actionItems}`, `{status: 'IN_PROGRESS'}`, or `500 {error}`. */
  datatype TranscriptionStatus =
    | Completed(transcript: string, summary: string, actionItems: seq<string>)
    | InProgress
    | StatusFailed(status: nat, error: string)

  const StatusFailedMessage := "Failed to get transcription"

  /** The reply for what `getTranscription(botId)` produced. */
  function TranscriptionStatusOf(fetched: Attempt<Option<Transcription>>): (r: TranscriptionStatus)
    ensures r.Completed? <==> fetched.Returned? && Ready(fetched.value)
    ensures r.Completed? ==>
      && r.transcript == fetched.value.value.transcript
      && r.summary == fetched.value.value.summary
      && r.actionItems == fetched.value.value.actionItems
    ensures r.InProgress? <==> fetched.Returned? && !Ready(fetched.value)
    ensures fetched.Threw? ==> r == StatusFailed(500, StatusFailedMessage)
  {
    match fetched
    case Threw(_) => StatusFailed(500, StatusFailedMessage)
    case Returned(data) =>
      if Ready(data) then Completed(data.value.transcript, data.value.summary, data.value.actionItems)
      else InProgress
  }

  /**
   * Wired to the Fireflies normaliser, the route answers `COMPLETED` exactly when the provider
   * returned a transcript record, and then carries its sentences as `speaker: text` lines.
   */
  lemma {:induction false} StatusOfProviderPayload(payload: Option<RawTranscript>)
    ensures var r := TranscriptionStatusOf(Returned(GetTranscription(payload)));
      && (r.Completed? <==> payload.Some?)
      && (r.InProgress? <==> payload.None?)
      && (r.Completed? && payload.value.sentences.Some? && payload.value.sentences.value != [] ==>
            r.transcript == FormatSentences(payload.value.sentences.value))
  {
    NormalisedIsReady(payload);
  }

  // ---------------------------------------------------------------------------------------------
  // POST /fireflies/generate-pdf
  // ---------------------------------------------------------------------------------------------

  /**
   * `{success: true, message, pdfPath}`; `400 {success: false, message, error}` for a generator
   * failure; `400 {error: 'Bot ID is required'}`.
   */
  datatype FirefliesPdfReply =
    | PdfGenerated(pdfPath: string)
    | PdfFailed(error: Option<string>)
    | BotIdMissing
  {
    function Status(): nat {
      if PdfGenerated? then 200 else 400
    }
  }

  /**
   * The handler, given the transcript service the generator calls with `botId`. `meetingTitle` is
   * passed on as it came in the body, so the generator's default applies only when it is absent.
   */
  method FirefliesGeneratePdf(store: OutputStore, botId: Option<string>, meetingTitle: Option<string>,
                              getTranscription: string -> Attempt<Option<Transcription>>,
                              isoTimestamp: string, generatedAt: string, mkdirError: Option<string>)
    returns (r: FirefliesPdfReply)
    requires store.Valid()
    modifies store
    ensures store.Valid()
    ensures !Truthy(botId) ==> r == BotIdMissing && unchanged(store)
    ensures Truthy(botId) ==>
      var fetched := getTranscription(botId.value);
      && (r.PdfGenerated? <==> fetched.Returned? && Ready(fetched.value) && !MkdirFails(old(store.directories), mkdirError))
      && (fetched.Threw? ==> r == PdfFailed(Some(OrElse(fetched.message, UnknownError))))
      && (fetched.Returned? && !Ready(fetched.value) ==> r == PdfFailed(Some(NotReady)))
      && (fetched.Returned? && Ready(fetched.value) && MkdirFails(old(store.directories), mkdirError) ==>
            r == PdfFailed(Some(OrElse(mkdirError.value, UnknownError))))
    ensures !r.PdfGenerated? ==> unchanged(store)
    ensures r.PdfGenerated? ==>
      var title := meetingTitle.GetOr(DefaultMeetingTitle);
      && r.pdfPath == OutputPath(title, isoTimestamp)
      && store.directories == old(store.directories) + {OutputsDir}
      && store.files == old(store.files)[FileName(title, isoTimestamp) :=
           Document(AppHeading, Heading(title), generatedAt, FormatTranscription(getTranscription(botId.value).value.value))]
  {
    if !Truthy(botId) {
      return BotIdMissing;
    }
    var result := GenerateTranscriptionPdf(store, getTranscription(botId.value), meetingTitle, isoTimestamp, generatedAt, mkdirError);
    if result.success {
      r := PdfGenerated(result.pdfPath.value);
    } else {
      r := PdfFailed(result.error);
    }
  }
}
