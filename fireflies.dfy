/**
 * The Fireflies GraphQL client (catnotes/backend/fireflies.js) once the HTTP calls are taken as
 * inputs: normalising a `transcript` payload, filtering recent transcripts by title, and
 * classifying the outcome of the `addToLiveMeeting` mutation.
 */
module Fireflies {
  import opened Wrappers
  import opened Text

  // ---------------------------------------------------------------------------------------------
  // getTranscription: the raw payload and its normal form
  // ---------------------------------------------------------------------------------------------

  /** One entry of `transcript.sentences`. */
  datatype RawSentence = RawSentence(text: string, speakerName: Option<string>)

  /** `summary.action_items` as the provider sends it: absent, one value, or a list. */
  datatype RawActionItems = NoActionItems | SingleItem(item: string) | ItemList(items: seq<string>)

  datatype RawSummary = RawSummary(actionItems: RawActionItems, overview: Option<string>)

  /**
   * `data.transcript`. A `sentences` value that is not an array is represented as `None`: the
   * source treats it exactly like an absent one.
   */
  datatype RawTranscript = RawTranscript(sentences: Option<seq<RawSentence>>, summary: Option<RawSummary>)

  /** The normalised record `{transcript, summary, actionItems}`. */
  datatype Transcription = Transcription(transcript: string, summary: string, actionItems: seq<string>)

  const SpeakerFallback := "Speaker"
  const NoTranscriptText := "No transcript text available."
  const SentenceSeparator := "\n\n"

  /** `${sentence.speaker_name || 'Speaker'}: ${sentence.text}` */
  function SentenceLine(s: RawSentence): string {
    OrDefault(s.speakerName, SpeakerFallback) + ": " + s.text
  }

  function SentenceLines(ss: seq<RawSentence>): (lines: seq<string>)
    ensures |lines| == |ss|
  {
    seq(|ss|, i requires 0 <= i < |ss| => SentenceLine(ss[i]))
  }

  /** The sentences as `speaker: text` lines, in provider order, separated by a blank line. */
  function FormatSentences(ss: seq<RawSentence>): string {
    Join(SentenceLines(ss), SentenceSeparator)
  }

  /** A non-empty sentence list never formats to the empty string, so the fallback text is then unused. */
  lemma {:induction false} FormatSentencesNonEmpty(ss: seq<RawSentence>)
    requires ss != []
    ensures FormatSentences(ss) != ""
  {
    var lines := SentenceLines(ss);
    assert |lines[0]| > 0 by {
      assert lines[0] == OrDefault(ss[0].speakerName, SpeakerFallback) + ": " + ss[0].text;
    }
    if |lines| > 1 {
      assert Join(lines, SentenceSeparator) == lines[0] + SentenceSeparator + Join(lines[1..], SentenceSeparator);
    }
  }

  /** Formatting keeps provider order: two batches format to their texts joined by one blank line. */
  lemma {:induction false} FormatSentencesAppend(a: seq<RawSentence>, b: seq<RawSentence>)
    requires a != [] && b != []
    ensures FormatSentences(a + b) == FormatSentences(a) + SentenceSeparator + FormatSentences(b)
  {
    assert SentenceLines(a + b) == SentenceLines(a) + SentenceLines(b);
    JoinAppend(SentenceLines(a), SentenceLines(b), SentenceSeparator);
  }

  /** `actionItems`: a list passes through, one truthy value becomes a one-element list, otherwise empty. */
  function ActionItemsOf(summary: Option<RawSummary>): seq<string> {
    if summary.None? then []
    else match summary.value.actionItems
      case NoActionItems => []
      case SingleItem(x) => if x != "" then [x] else []
      case ItemList(xs) => xs
  }

  /** `getTranscription` after the query: `None` stands for the `null` it returns when there is no record. */
  function GetTranscription(payload: Option<RawTranscript>): (r: Option<Transcription>)
    ensures r.None? <==> payload.None?
    ensures r.Some? ==> r.value.transcript != ""
    ensures r.Some? ==> var sentences := payload.value.sentences;
      if sentences.Some? && sentences.value != [] then r.value.transcript == FormatSentences(sentences.value)
      else r.value.transcript == NoTranscriptText
    ensures r.Some? ==> var summary := payload.value.summary;
      r.value.summary == (if summary.Some? && summary.value.overview.Some? then summary.value.overview.value else "")
    ensures r.Some? && payload.value.summary.Some? && payload.value.summary.value.actionItems.ItemList? ==>
      r.value.actionItems == payload.value.summary.value.actionItems.items
    ensures r.Some? && payload.value.summary.Some? && payload.value.summary.value.actionItems.SingleItem? ==>
      var x := payload.value.summary.value.actionItems.item;
      r.value.actionItems == if x != "" then [x] else []
    ensures r.Some? && (payload.value.summary.None? || payload.value.summary.value.actionItems.NoActionItems?) ==>
      r.value.actionItems == []
  {
    match payload
    case None => None
    case Some(data) =>
      var formatted :=
        if data.sentences.Some? && |data.sentences.value| > 0 then FormatSentences(data.sentences.value) else "";
      assert data.sentences.Some? && |data.sentences.value| > 0 ==> formatted != "" by {
        if data.sentences.Some? && |data.sentences.value| > 0 {
          FormatSentencesNonEmpty(data.sentences.value);
        }
      }
      var summary := if data.summary.Some? then OrDefault(data.summary.value.overview, "") else "";
      Some(Transcription(OrElse(formatted, NoTranscriptText), summary, ActionItemsOf(data.summary)))
  }

  /**
   * The renderers' readiness test `!data || !data.transcript`: a record with a non-empty transcript.
   */
  predicate Ready(fetched: Option<Transcription>) {
    fetched.Some? && fetched.value.transcript != ""
  }

  /** Every record the normaliser produces passes the renderers' readiness test. */
  lemma {:induction false} NormalisedIsReady(payload: Option<RawTranscript>)
    ensures Ready(GetTranscription(payload)) <==> payload.Some?
  {
  }

  // ---------------------------------------------------------------------------------------------
  // findTranscriptByTitle
  // ---------------------------------------------------------------------------------------------

  /** An entry of the `transcripts(limit)` list. */
  datatype TranscriptRef = TranscriptRef(id: string, title: string, dateString: string)

  /** `t.title.toLowerCase().includes(searchTitle.toLowerCase())` */
  predicate TitleMatches(t: TranscriptRef, searchTitle: string) {
    Contains(Lower(t.title), Lower(searchTitle))
  }

  /** `transcripts.filter(...)`: the recent transcripts whose title contains the search text, ignoring case. */
  function FindTranscriptByTitle(recent: seq<TranscriptRef>, searchTitle: string): (r: seq<TranscriptRef>)
    ensures |r| <= |recent|
    ensures forall t :: t in r <==> t in recent && TitleMatches(t, searchTitle)
    decreases |recent|
  {
    if recent == [] then []
    else
      (if TitleMatches(recent[0], searchTitle) then [recent[0]] else [])
      + FindTranscriptByTitle(recent[1..], searchTitle)
  }

  /** Filtering commutes with concatenation, so matches keep the provider's order. */
  lemma {:induction false} FindAppend(a: seq<TranscriptRef>, b: seq<TranscriptRef>, searchTitle: string)
    ensures FindTranscriptByTitle(a + b, searchTitle)
         == FindTranscriptByTitle(a, searchTitle) + FindTranscriptByTitle(b, searchTitle)
    decreases |a|
  {
    if a == [] {
      assert a + b == b;
    } else {
      assert (a + b)[1..] == a[1..] + b;
      FindAppend(a[1..], b, searchTitle);
    }
  }

  /** Each matching entry is kept as many times as it is listed, and no other entry is kept. */
  lemma {:induction false} FindCounts(recent: seq<TranscriptRef>, searchTitle: string, t: TranscriptRef)
    ensures multiset(FindTranscriptByTitle(recent, searchTitle))[t]
         == if TitleMatches(t, searchTitle) then multiset(recent)[t] else 0
    decreases |recent|
  {
    if recent != [] {
      FindCounts(recent[1..], searchTitle, t);
      assert recent == [recent[0]] + recent[1..];
    }
  }

  /** Searching for a listed transcript's own title, in any letter case, finds that transcript. */
  lemma {:induction false} FindOwnTitle(recent: seq<TranscriptRef>, t: TranscriptRef)
    requires t in recent
    ensures t in FindTranscriptByTitle(recent, t.title)
  {
    assert Lower(t.title) <= Lower(t.title);
  }

  /** Lower-casing is idempotent, so the search text's letter case never matters. */
  lemma {:induction false} FindIgnoresSearchCase(recent: seq<TranscriptRef>, searchTitle: string)
    ensures FindTranscriptByTitle(recent, Lower(searchTitle)) == FindTranscriptByTitle(recent, searchTitle)
    decreases |recent|
  {
    assert Lower(Lower(searchTitle)) == Lower(searchTitle);
    if recent != [] {
      FindIgnoresSearchCase(recent[1..], searchTitle);
    }
  }

  // ---------------------------------------------------------------------------------------------
  // scheduleBot
  // ---------------------------------------------------------------------------------------------

  /** `data.addToLiveMeeting`; `success` is whatever the provider sent, `None` for null or absent. */
  datatype LiveMeetingResult = LiveMeetingResult(success: Option<bool>)

  datatype ResponseData = ResponseData(addToLiveMeeting: Option<LiveMeetingResult>)

  /** A 2xx response body `{data, errors}`; `errors` holds the `message` of each GraphQL error. */
  datatype ResponseBody = ResponseBody(errors: Option<seq<string>>, data: Option<ResponseData>)

  /**
   * What `axios.post` did: a 2xx response, a non-2xx response (its first GraphQL error message, if
   * any, and its status text), a request that got no response, or an error raised before sending.
   */
  datatype PostOutcome =
    | Responded(body: ResponseBody)
    | ErrorStatus(firstErrorMessage: Option<string>, statusText: string)
    | NoResponse
    | RequestFailed(message: string)

  /** The value `scheduleBot` resolves with. */
  datatype ScheduleResult = ScheduleResult(success: bool, error: Option<string>)

  const ScheduleFailed := "Failed to schedule bot"
  const InvalidStructure := "Invalid API response structure"
  const NoResultData := "Failed to schedule bot - no result data"
  const NoResponseMessage := "No response received from Fireflies API"
  /** The message of the TypeError raised by `errors[0].message` when `errors` is an empty array. */
  const EmptyErrorsMessage := "Cannot read properties of undefined (reading 'message')"

  /**
   * `scheduleBot(meetingLink, meetingTitle)` where `post` stands for the mutation request. Errors
   * raised inside the `try` carry neither `response` nor `request`, so the `catch` rethrows them as
   * they are.
   */
  function ScheduleBot(meetingLink: string, meetingTitle: string, post: (string, string) -> PostOutcome): (r: Attempt<ScheduleResult>)
    ensures r.Returned? <==>
      var outcome := post(meetingLink, meetingTitle);
      && outcome.Responded? && outcome.body.errors.None?
      && outcome.body.data.Some? && outcome.body.data.value.addToLiveMeeting.Some?
    ensures r.Returned? ==>
      (r.value.success <==> post(meetingLink, meetingTitle).body.data.value.addToLiveMeeting.value.success == Some(true))
    ensures r.Returned? ==> (r.value.error.None? <==> r.value.success)
    ensures r.Returned? && !r.value.success ==> r.value.error == Some(ScheduleFailed)
    ensures post(meetingLink, meetingTitle).NoResponse? ==> r == Threw(NoResponseMessage)
    ensures post(meetingLink, meetingTitle).RequestFailed? ==> r == Threw(post(meetingLink, meetingTitle).message)
    ensures var outcome := post(meetingLink, meetingTitle);
      outcome.ErrorStatus? ==> r == Threw("API Error: " + OrDefault(outcome.firstErrorMessage, outcome.statusText))
    ensures var outcome := post(meetingLink, meetingTitle);
      outcome.Responded? && outcome.body.errors.Some? && outcome.body.errors.value != [] ==>
        r == Threw(outcome.body.errors.value[0])
    ensures var outcome := post(meetingLink, meetingTitle);
      outcome.Responded? && outcome.body.errors == Some([]) ==> r == Threw(EmptyErrorsMessage)
    ensures var outcome := post(meetingLink, meetingTitle);
      outcome.Responded? && outcome.body.errors.None? && outcome.body.data.None? ==> r == Threw(InvalidStructure)
    ensures var outcome := post(meetingLink, meetingTitle);
      (outcome.Responded? && outcome.body.errors.None? && outcome.body.data.Some?
       && outcome.body.data.value.addToLiveMeeting.None?) ==> r == Threw(NoResultData)
  {
    match post(meetingLink, meetingTitle)
    case Responded(body) =>
      if body.errors.Some? then
        Threw(if body.errors.value != [] then body.errors.value[0] else EmptyErrorsMessage)
      else if body.data.None? then Threw(InvalidStructure)
      else if body.data.value.addToLiveMeeting.None? then Threw(NoResultData)
      else
        var ok := body.data.value.addToLiveMeeting.value.success == Some(true);
        Returned(ScheduleResult(ok, if ok then None else Some(ScheduleFailed)))
    case ErrorStatus(first, statusText) => Threw("API Error: " + OrDefault(first, statusText))
    case NoResponse => Threw(NoResponseMessage)
    case RequestFailed(message) => Threw(message)
  }
}
