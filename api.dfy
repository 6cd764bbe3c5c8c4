/**
 * The Express handlers of catnotes/backend/api.js: `/api/schedule-bot`, the result side of
 * `/api/generate-latest` (which runs fireflies-to-pdf.js and reads the path from its log), and
 * `/api/generate-study-notes` with its summary bullets.
 */
module Api {
  import opened Wrappers
  import opened Text
  import opened Fireflies
  import opened PdfTranscription

  // ---------------------------------------------------------------------------------------------
  // POST /api/schedule-bot
  // ---------------------------------------------------------------------------------------------

  /** `200 {success: true, ...result}` (the spread overrides `success`), or an error status. */
  datatype ScheduleReply =
    | ScheduleAnswered(success: bool, error: Option<string>)
    | ScheduleRejected(status: nat, message: string)

  const LinkAndTitleRequired := "Meeting link and title are required"
  const ScheduleFailed := "Failed to schedule bot"

  function ScheduleBotHandler(meetingLink: Option<string>, meetingTitle: Option<string>,
                              scheduleBot: (string, string) -> Attempt<ScheduleResult>): (r: ScheduleReply)
    ensures !Truthy(meetingLink) || !Truthy(meetingTitle) ==> r == ScheduleRejected(400, LinkAndTitleRequired)
    ensures r.ScheduleAnswered? <==>
      Truthy(meetingLink) && Truthy(meetingTitle) && scheduleBot(meetingLink.value, meetingTitle.value).Returned?
    ensures r.ScheduleAnswered? ==>
      r.success == scheduleBot(meetingLink.value, meetingTitle.value).value.success
      && r.error == scheduleBot(meetingLink.value, meetingTitle.value).value.error
    ensures Truthy(meetingLink) && Truthy(meetingTitle) && scheduleBot(meetingLink.value, meetingTitle.value).Threw? ==>
      r == ScheduleRejected(500, OrElse(scheduleBot(meetingLink.value, meetingTitle.value).message, ScheduleFailed))
  {
    if !Truthy(meetingLink) || !Truthy(meetingTitle) then ScheduleRejected(400, LinkAndTitleRequired)
    else match scheduleBot(meetingLink.value, meetingTitle.value)
      case Returned(result) => ScheduleAnswered(result.success, result.error)
      case Threw(message) => ScheduleRejected(500, OrElse(message, ScheduleFailed))
  }

  /**
   * Wired to the Fireflies client, the endpoint answers `success: true` exactly when the provider
   * answered `addToLiveMeeting.success === true`, and then carries no error.
   */
  lemma {:induction false} ScheduleBotEndToEnd(meetingLink: string, meetingTitle: string, post: (string, string) -> PostOutcome)
    requires meetingLink != "" && meetingTitle != ""
    ensures var r := ScheduleBotHandler(Some(meetingLink), Some(meetingTitle), (l, t) => ScheduleBot(l, t, post));
      var outcome := post(meetingLink, meetingTitle);
      && (r.ScheduleAnswered? && r.success <==>
           && outcome.Responded? && outcome.body.errors.None? && outcome.body.data.Some?
           && outcome.body.data.value.addToLiveMeeting.Some?
           && outcome.body.data.value.addToLiveMeeting.value.success == Some(true))
      && (r.ScheduleAnswered? ==> (r.error.None? <==> r.success))
  {
    var service := (l, t) => ScheduleBot(l, t, post);
    assert service(meetingLink, meetingTitle) == ScheduleBot(meetingLink, meetingTitle, post);
  }

  // ---------------------------------------------------------------------------------------------
  // POST /api/generate-latest: reading the result of the script run
  // ---------------------------------------------------------------------------------------------

  const PathMarker := "PDF generated successfully at: "
  const PathNotFound := "Could not find generated PDF path"
  const GenerateFailed := "Failed to generate PDF"
  const DownloadPrefix := "/outputs/"

  /** The characters the regular-expression `.` matches: all but the line terminators. */
  predicate NotLineTerminator(c: char) {
    c != '\n' && c != '\r' && c != '\U{2028}' && c != '\U{2029}'
  }

  /** `output.match(/PDF generated successfully at: (.+)/)`, group 1 trimmed; `None` when it does not match. */
  function ExtractGeneratedPath(output: string): (r: Option<string>)
    ensures r.None? <==> forall k: nat :: !FollowedAt(output, PathMarker, NotLineTerminator, k)
    ensures r.Some? ==> exists i: nat, cap: string ::
      IsFirstCapture(output, PathMarker, NotLineTerminator, i, cap) && r.value == Trim(cap)
  {
    match CaptureAfter(output, PathMarker, NotLineTerminator)
    case None => None
    case Some(cap) => Some(Trim(cap))
  }

  /** How the spawned `node fireflies-to-pdf.js --latest` ended: it never started, or it closed with an exit code. */
  datatype ScriptRun =
    | FailedToStart
    | Closed(exitCode: int, stdout: string, stderr: string)

  /** The JSON answer of `/api/generate-latest`. */
  datatype LatestReply =
    | LatestGenerated(pdfPath: string, downloadUrl: string)
    | LatestFailed(status: nat, error: string)

  const FileNotFound := "Generated PDF file not found"
  const FailedToStartMessage := "Failed to start PDF generation script"

  /**
   * The `close` and `error` handlers of `/api/generate-latest`. `fileExists` answers `existsSync`
   * for the path the log names, taken relative to the project root.
   */
  function GenerateLatestReply(run: ScriptRun, fileExists: string -> bool): (r: LatestReply)
    ensures run.FailedToStart? ==> r == LatestFailed(500, FailedToStartMessage)
    ensures run.Closed? && run.exitCode != 0 ==> r == LatestFailed(500, OrElse(run.stderr, GenerateFailed))
    ensures run.Closed? && run.exitCode == 0 && ExtractGeneratedPath(run.stdout).None? ==> r == LatestFailed(500, PathNotFound)
    ensures (run.Closed? && run.exitCode == 0 && ExtractGeneratedPath(run.stdout).Some?
             && !fileExists(ExtractGeneratedPath(run.stdout).value)) ==> r == LatestFailed(500, FileNotFound)
    ensures r.LatestGenerated? <==>
      && run.Closed? && run.exitCode == 0 && ExtractGeneratedPath(run.stdout).Some?
      && fileExists(ExtractGeneratedPath(run.stdout).value)
    ensures r.LatestGenerated? ==>
      && ExtractGeneratedPath(run.stdout) == Some(r.pdfPath)
      && r.downloadUrl == DownloadPrefix + Basename(r.pdfPath)
      && '/' !in r.downloadUrl[|DownloadPrefix|..]
  {
    match run
    case FailedToStart => LatestFailed(500, FailedToStartMessage)
    case Closed(exitCode, stdout, stderr) =>
      if exitCode == 0 then
        match ExtractGeneratedPath(stdout)
        case None => LatestFailed(500, PathNotFound)
        case Some(pdfPath) =>
          if !fileExists(pdfPath) then LatestFailed(500, FileNotFound)
          else LatestGenerated(pdfPath, DownloadPrefix + Basename(pdfPath))
      else LatestFailed(500, OrElse(stderr, GenerateFailed))
  }

  lemma {:induction false} TrimKeeps(s: string)
    requires s != [] && !IsJsSpace(s[0]) && !IsJsSpace(s[|s| - 1])
    ensures Trim(s) == s
  {
    assert TrimStart(s) == s;
    assert TrimEnd(s) == s;
  }

  /** A path logged on its own line, after a prefix that does not already hold the marker, is the one extracted. */
  lemma {:induction false} ExtractLoggedPath(prefix: string, path: string, rest: string)
    requires forall k :: 0 <= k < |prefix| ==> !OccursAt(prefix + PathMarker, PathMarker, k)
    requires path != [] && !IsJsSpace(path[0]) && !IsJsSpace(path[|path| - 1])
    requires OneLine(path)
    ensures ExtractGeneratedPath(prefix + PathMarker + path + "\n" + rest) == Some(path)
  {
    var stdout := prefix + PathMarker + path + "\n" + rest;
    var start := |prefix| + |PathMarker|;
    assert stdout[start..start + |path|] == path;
    assert stdout[start + |path|] == '\n';
    assert stdout[|prefix|..start] == PathMarker;
    assert FollowedAt(stdout, PathMarker, NotLineTerminator, |prefix|);
    assert prefix + PathMarker <= stdout;
    forall k: nat | k < |prefix|
      ensures !FollowedAt(stdout, PathMarker, NotLineTerminator, k)
    {
      assert stdout[k..k + |PathMarker|] == (prefix + PathMarker)[k..k + |PathMarker|];
      assert !OccursAt(prefix + PathMarker, PathMarker, k);
    }
    CaptureOfFirstMatch(stdout, PathMarker, NotLineTerminator, |prefix|, path);
    TrimKeeps(path);
  }

  /** A sanitised ISO timestamp holds no line terminator. */
  lemma {:induction false} SafeTimestampOneLine(isoTimestamp: string)
    requires IsIsoTimestamp(isoTimestamp)
    ensures OneLine(SafeTimestamp(isoTimestamp))
  {
    var ts := SafeTimestamp(isoTimestamp);
    forall k | 0 <= k < |ts| ensures NotLineTerminator(ts[k]) {
      assert isoTimestamp[k] != '\n' && isoTimestamp[k] != '\r';
    }
  }

  /** `s` holds no line terminator. */
  predicate OneLine(s: string) {
    forall k :: 0 <= k < |s| ==> NotLineTerminator(s[k])
  }

  lemma {:induction false} OneLineConcat(a: string, b: string)
    requires OneLine(a) && OneLine(b)
    ensures OneLine(a + b)
  {
    forall k | 0 <= k < |a + b| ensures NotLineTerminator((a + b)[k]) {
      if k >= |a| {
        assert (a + b)[k] == b[k - |a|];
      }
    }
  }

  /** The path `createPdf` returns fits on one line when the title does, and has no white space at its ends. */
  lemma {:induction false} OutputPathOneLine(meetingTitle: string, isoTimestamp: string)
    requires OneLine(meetingTitle)
    requires IsIsoTimestamp(isoTimestamp)
    ensures var p := OutputPath(meetingTitle, isoTimestamp);
      && p != [] && !IsJsSpace(p[0]) && !IsJsSpace(p[|p| - 1])
      && OneLine(p)
  {
    FileNameOneLine(meetingTitle, isoTimestamp);
    var f := FileName(meetingTitle, isoTimestamp);
    assert OneLine(ReturnedPrefix);
    OneLineConcat(ReturnedPrefix, f);
    var p := OutputPath(meetingTitle, isoTimestamp);
    assert p[0] == ReturnedPrefix[0];
    assert p[|p| - 1] == f[|f| - 1];
  }

  /** The file name fits on one line when the title does, and ends with the extension's `f`. */
  lemma {:induction false} FileNameOneLine(meetingTitle: string, isoTimestamp: string)
    requires OneLine(meetingTitle)
    requires IsIsoTimestamp(isoTimestamp)
    ensures var f := FileName(meetingTitle, isoTimestamp);
      f != [] && f[|f| - 1] == 'f' && OneLine(f)
  {
    var name := OrElse(meetingTitle, FileTitleFallback);
    var ts := SafeTimestamp(isoTimestamp);
    SafeTimestampOneLine(isoTimestamp);
    assert OneLine(FilePrefix);
    assert OneLine(name);
    assert OneLine("-");
    assert OneLine(FileExtension);
    OneLineConcat(FilePrefix, name);
    OneLineConcat(FilePrefix + name, "-");
    OneLineConcat(FilePrefix + name + "-", ts);
    OneLineConcat(FilePrefix + name + "-" + ts, FileExtension);
    var f := FileName(meetingTitle, isoTimestamp);
    assert f[|f| - 1] == FileExtension[|FileExtension| - 1];
  }

  /**
   * When the script logs `PDF generated successfully at: <path>` for the path `createPdf` returned
   * and exits with 0, and the file is there, the endpoint reports that path and a download URL
   * naming the written file.
   */
  lemma {:induction false} LatestReplyRecoversPath(prefix: string, meetingTitle: string, isoTimestamp: string, rest: string, stderr: string,
                                fileExists: string -> bool)
    requires forall k :: 0 <= k < |prefix| ==> !OccursAt(prefix + PathMarker, PathMarker, k)
    requires OneLine(meetingTitle) && '/' !in meetingTitle
    requires IsIsoTimestamp(isoTimestamp)
    requires fileExists(OutputPath(meetingTitle, isoTimestamp))
    ensures var stdout := prefix + PathMarker + OutputPath(meetingTitle, isoTimestamp) + "\n" + rest;
      GenerateLatestReply(Closed(0, stdout, stderr), fileExists)
        == LatestGenerated(OutputPath(meetingTitle, isoTimestamp), DownloadPrefix + FileName(meetingTitle, isoTimestamp))
  {
    OutputPathOneLine(meetingTitle, isoTimestamp);
    ExtractLoggedPath(prefix, OutputPath(meetingTitle, isoTimestamp), rest);
    OutputPathBasename(meetingTitle, isoTimestamp);
  }

  // ---------------------------------------------------------------------------------------------
  // POST /api/generate-study-notes
  // ---------------------------------------------------------------------------------------------

  /** The class `[.!?]`. */
  predicate IsSentenceEnd(c: char) {
    c == '.' || c == '!' || c == '?'
  }

  function Trimmed(pieces: seq<string>): (r: seq<string>)
    ensures |r| == |pieces|
  {
    seq(|pieces|, i requires 0 <= i < |pieces| => Trim(pieces[i]))
  }

  /** `.filter(point => point.length > 0)` */
  function NonEmpty(points: seq<string>): (r: seq<string>)
    ensures forall i :: 0 <= i < |r| ==> r[i] != "" && r[i] in points
    decreases |points|
  {
    if points == [] then []
    else (if points[0] != "" then [points[0]] else []) + NonEmpty(points[1..])
  }

  const NotesBullet := "* "

  /** `.map(point => `* ${point}`)` */
  function Bulleted(points: seq<string>): (r: seq<string>)
    ensures |r| == |points|
  {
    seq(|points|, i requires 0 <= i < |points| => NotesBullet + points[i])
  }

  /** A key point: non-empty, no white space at either end, no sentence punctuation. */
  predicate IsPoint(p: string) {
    && p != [] && !IsJsSpace(p[0]) && !IsJsSpace(p[|p| - 1])
    && forall k :: 0 <= k < |p| ==> !IsSentenceEnd(p[k])
  }

  /** A piece of the split that is not blank trims to a key point. */
  lemma {:induction false} TrimmedPieceIsPoint(piece: string)
    requires forall k :: 0 <= k < |piece| ==> !IsSentenceEnd(piece[k])
    requires Trim(piece) != ""
    ensures IsPoint(Trim(piece))
  {
    var p := Trim(piece);
    forall k | 0 <= k < |p| ensures !IsSentenceEnd(p[k]) {
      assert p[k] in p;
    }
  }

  /** Trimming the pieces of the split and dropping the empty ones leaves only key points. */
  lemma {:induction false} PointsOfPieces(pieces: seq<string>)
    requires forall i, k :: 0 <= i < |pieces| && 0 <= k < |pieces[i]| ==> !IsSentenceEnd(pieces[i][k])
    ensures forall p :: p in NonEmpty(Trimmed(pieces)) ==> IsPoint(p)
  {
    var trimmed := Trimmed(pieces);
    forall p | p in NonEmpty(trimmed) ensures IsPoint(p) {
      var j :| 0 <= j < |trimmed| && trimmed[j] == p;
      TrimmedPieceIsPoint(pieces[j]);
    }
  }

  /** Each bullet of a list of key points is `* ` followed by its point. */
  lemma {:induction false} BulletedPoints(points: seq<string>)
    requires forall p :: p in points ==> IsPoint(p)
    ensures var bullets := Bulleted(points);
      forall i :: 0 <= i < |bullets| ==>
        |NotesBullet| <= |bullets[i]| && bullets[i][..|NotesBullet|] == NotesBullet && IsPoint(bullets[i][|NotesBullet|..])
  {
    var bullets := Bulleted(points);
    forall i | 0 <= i < |bullets|
      ensures bullets[i][..|NotesBullet|] == NotesBullet && IsPoint(bullets[i][|NotesBullet|..])
    {
      assert bullets[i] == NotesBullet + points[i];
      assert bullets[i][|NotesBullet|..] == points[i];
    }
  }

  /**
   * The key-point bullets of a summary: split on runs of `.`, `!` or `?`, trim, drop empty pieces,
   * prefix `* `. Every bullet is `* ` followed by a key point.
   */
  function KeyPoints(summary: string): (bullets: seq<string>)
    ensures forall i :: 0 <= i < |bullets| ==>
      |NotesBullet| <= |bullets[i]| && bullets[i][..|NotesBullet|] == NotesBullet && IsPoint(bullets[i][|NotesBullet|..])
  {
    var pieces := SplitOnRuns(summary, IsSentenceEnd);
    PointsOfPieces(pieces);
    BulletedPoints(NonEmpty(Trimmed(pieces)));
    Bulleted(NonEmpty(Trimmed(pieces)))
  }

  lemma {:induction false} SplitAfterText(text: string, mark: char, rest: string)
    requires forall k :: 0 <= k < |text| ==> !IsSentenceEnd(text[k])
    requires IsSentenceEnd(mark) && (rest == [] || !IsSentenceEnd(rest[0]))
    ensures SplitOnRuns(text + [mark] + rest, IsSentenceEnd) == [text] + SplitOnRuns(rest, IsSentenceEnd)
  {
    var s := text + [mark] + rest;
    var i := SkipUntil(s, 0, IsSentenceEnd);
    assert s[|text|] == mark;
    assert i == |text|;
    var j := RunEnd(s, i, IsSentenceEnd);
    if |s| > |text| + 1 {
      assert s[|text| + 1] == rest[0];
    }
    assert j == |text| + 1;
    assert s[..i] == text;
    assert s[j..] == rest;
  }

  /** `lead + sentences.join(". ")` splits into the sentences, each after the first keeping its leading space. */
  lemma {:induction false} SplitJoinedSentences(lead: string, sentences: seq<string>)
    requires sentences != []
    requires forall k :: 0 <= k < |lead| ==> !IsSentenceEnd(lead[k])
    requires forall i, k :: 0 <= i < |sentences| && 0 <= k < |sentences[i]| ==> !IsSentenceEnd(sentences[i][k])
    ensures SplitOnRuns(lead + Join(sentences, ". "), IsSentenceEnd)
         == [lead + sentences[0]] + seq(|sentences| - 1, i requires 0 <= i < |sentences| - 1 => " " + sentences[i + 1])
    decreases |sentences|
  {
    var tail := seq(|sentences| - 1, i requires 0 <= i < |sentences| - 1 => " " + sentences[i + 1]);
    var first := lead + sentences[0];
    NoSentenceEndConcat(lead, sentences[0]);
    if |sentences| == 1 {
      assert SkipUntil(first, 0, IsSentenceEnd) == |first|;
      assert tail == [];
    } else {
      var rest := " " + Join(sentences[1..], ". ");
      assert lead + Join(sentences, ". ") == first + ['.'] + rest;
      SplitAfterText(first, '.', rest);
      SplitJoinedSentences(" ", sentences[1..]);
      SpacedTailShift(sentences);
    }
  }

  lemma {:induction false} NoSentenceEndConcat(a: string, b: string)
    requires forall k :: 0 <= k < |a| ==> !IsSentenceEnd(a[k])
    requires forall k :: 0 <= k < |b| ==> !IsSentenceEnd(b[k])
    ensures forall k :: 0 <= k < |a + b| ==> !IsSentenceEnd((a + b)[k])
  {
    forall k | 0 <= k < |a + b| ensures !IsSentenceEnd((a + b)[k]) {
      if k >= |a| {
        assert (a + b)[k] == b[k - |a|];
      }
    }
  }

  /** The spaced tail of `sentences` is the second sentence, spaced, then the spaced tail of `sentences[1..]`. */
  lemma {:induction false} SpacedTailShift(sentences: seq<string>)
    requires |sentences| >= 2
    ensures [" " + sentences[1..][0]] + seq(|sentences[1..]| - 1, i requires 0 <= i < |sentences[1..]| - 1 => " " + sentences[1..][i + 1])
         == seq(|sentences| - 1, i requires 0 <= i < |sentences| - 1 => " " + sentences[i + 1])
  {
  }

  /**
   * Round trip: a summary written as key points joined by ". " comes back as exactly one bullet per
   * point, in order.
   */
  lemma {:induction false} KeyPointsOfSentences(sentences: seq<string>)
    requires sentences != []
    requires forall i :: 0 <= i < |sentences| ==> IsPoint(sentences[i])
    ensures KeyPoints(Join(sentences, ". ")) == Bulleted(sentences)
  {
    var text := Join(sentences, ". ");
    SplitJoinedSentences("", sentences);
    assert "" + text == text;
    TrimmedSentencePieces(sentences);
    NonEmptyKeeps(sentences);
  }

  /** Trimming the pieces of `sentences.join(". ")` gives the sentences back. */
  lemma {:induction false} TrimmedSentencePieces(sentences: seq<string>)
    requires sentences != []
    requires forall i :: 0 <= i < |sentences| ==> IsPoint(sentences[i])
    ensures Trimmed([sentences[0]] + seq(|sentences| - 1, i requires 0 <= i < |sentences| - 1 => " " + sentences[i + 1]))
         == sentences
  {
    var tail := seq(|sentences| - 1, i requires 0 <= i < |sentences| - 1 => " " + sentences[i + 1]);
    forall j | 0 <= j < |tail|
      ensures Trim(tail[j]) == sentences[1..][j]
    {
      TrimLeadingSpace(sentences[j + 1]);
    }
    TrimmedPointwise(tail, sentences[1..]);
    TrimKeeps(sentences[0]);
    TrimmedCons(sentences[0], tail);
    assert [sentences[0]] + sentences[1..] == sentences;
  }

  lemma {:induction false} TrimmedCons(first: string, rest: seq<string>)
    ensures Trimmed([first] + rest) == [Trim(first)] + Trimmed(rest)
  {
  }

  lemma {:induction false} TrimmedPointwise(pieces: seq<string>, expected: seq<string>)
    requires |pieces| == |expected|
    requires forall i :: 0 <= i < |pieces| ==> Trim(pieces[i]) == expected[i]
    ensures Trimmed(pieces) == expected
  {
  }

  lemma {:induction false} TrimLeadingSpace(s: string)
    requires s != [] && !IsJsSpace(s[0]) && !IsJsSpace(s[|s| - 1])
    ensures Trim(" " + s) == s
  {
    var padded := " " + s;
    assert padded[0] == ' ' && padded[1..] == s;
    assert IsJsSpace(padded[0]);
    assert TrimStart(s) == s;
    assert TrimStart(padded) == TrimStart(s);
    assert TrimEnd(s) == s;
  }

  lemma {:induction false} NonEmptyKeeps(points: seq<string>)
    requires forall i :: 0 <= i < |points| ==> points[i] != ""
    ensures NonEmpty(points) == points
    decreases |points|
  {
    if points != [] {
      NonEmptyKeeps(points[1..]);
    }
  }

  /** The filter commutes with concatenation, so the kept points stay in their order. */
  lemma {:induction false} NonEmptyAppend(a: seq<string>, b: seq<string>)
    ensures NonEmpty(a + b) == NonEmpty(a) + NonEmpty(b)
    decreases |a|
  {
    if a == [] {
      assert a + b == b;
    } else {
      assert (a + b)[0] == a[0] && (a + b)[1..] == a[1..] + b;
      NonEmptyAppend(a[1..], b);
    }
  }

  /** The filter keeps each non-empty point as often as it occurs, and drops every empty one. */
  lemma {:induction false} NonEmptyCounts(points: seq<string>)
    ensures forall p :: multiset(NonEmpty(points))[p] == if p == "" then 0 else multiset(points)[p]
    decreases |points|
  {
    if points != [] {
      NonEmptyCounts(points[1..]);
      assert points == [points[0]] + points[1..];
      assert NonEmpty(points) == (if points[0] != "" then [points[0]] else []) + NonEmpty(points[1..]);
      assert multiset(points) == multiset{points[0]} + multiset(points[1..]);
    }
  }

  /** The summary key points are split from: each sentence followed by its run of `.`, `!` or `?`. */
  function Terminated(sentences: seq<string>, marks: seq<string>): string
    requires |sentences| == |marks|
    decreases |sentences|
  {
    if sentences == [] then "" else sentences[0] + marks[0] + Terminated(sentences[1..], marks[1..])
  }

  /** Terminated sentences followed by a last unterminated piece are the interleaving of the pieces. */
  lemma {:induction false} TerminatedInterleave(sentences: seq<string>, marks: seq<string>, last: string)
    requires |sentences| == |marks|
    ensures Terminated(sentences, marks) + last == Interleave(sentences + [last], marks)
    decreases |sentences|
  {
    if sentences != [] {
      TerminatedInterleave(sentences[1..], marks[1..], last);
      assert (sentences + [last])[1..] == sentences[1..] + [last];
    }
  }

  /** Written as terminated sentences and a last piece, the summary is split into exactly those pieces. */
  lemma {:induction false} SplitTerminated(sentences: seq<string>, marks: seq<string>, last: string)
    requires |sentences| == |marks|
    requires forall i :: 0 <= i < |sentences| ==> sentences[i] != []
    requires forall i, k :: 0 <= i < |sentences| && 0 <= k < |sentences[i]| ==> !IsSentenceEnd(sentences[i][k])
    requires forall i :: 0 <= i < |marks| ==> marks[i] != [] && forall k :: 0 <= k < |marks[i]| ==> IsSentenceEnd(marks[i][k])
    requires forall k :: 0 <= k < |last| ==> !IsSentenceEnd(last[k])
    ensures IsSplitOf(Terminated(sentences, marks) + last, sentences + [last], marks, IsSentenceEnd)
    ensures SplitOnRuns(Terminated(sentences, marks) + last, IsSentenceEnd) == sentences + [last]
  {
    var pieces := sentences + [last];
    TerminatedInterleave(sentences, marks, last);
    forall n, k | 0 <= n < |pieces| && 0 <= k < |pieces[n]| ensures !IsSentenceEnd(pieces[n][k]) {
      if n < |sentences| {
        assert pieces[n] == sentences[n];
      }
    }
    forall n | 0 < n < |pieces| - 1 ensures pieces[n] != [] {
      assert pieces[n] == sentences[n];
    }
    assert IsSplitOf(Terminated(sentences, marks) + last, pieces, marks, IsSentenceEnd);
    SplitUnique(Terminated(sentences, marks) + last, pieces, marks, IsSentenceEnd);
  }

  /**
   * Every split of a summary yields one bullet per piece that is not blank after trimming, in
   * order, and nothing else.
   */
  lemma {:induction false} KeyPointsOfSplit(summary: string, pieces: seq<string>, marks: seq<string>)
    requires IsSplitOf(summary, pieces, marks, IsSentenceEnd)
    ensures KeyPoints(summary) == Bulleted(NonEmpty(Trimmed(pieces)))
  {
    SplitUnique(summary, pieces, marks, IsSentenceEnd);
  }

  /** A text that is not blank after trimming is not empty. */
  lemma {:induction false} NonBlankNonEmpty(sentences: seq<string>)
    requires forall i :: 0 <= i < |sentences| ==> Trim(sentences[i]) != []
    ensures forall i :: 0 <= i < |sentences| ==> sentences[i] != []
  {
    forall i | 0 <= i < |sentences| ensures sentences[i] != [] {
      var r := Trim(sentences[i]);
      assert r[0] in r;
    }
  }

  /** The trimmed pieces of the sentences and a last piece, and what the filter keeps of them. */
  lemma {:induction false} PointsOfTerminated(sentences: seq<string>, last: string)
    requires forall i :: 0 <= i < |sentences| ==> Trim(sentences[i]) != []
    ensures NonEmpty(Trimmed(sentences + [last])) == Trimmed(sentences) + NonEmpty([Trim(last)])
  {
    var t := Trimmed(sentences);
    TrimmedSnoc(sentences, last);
    assert forall i :: 0 <= i < |t| ==> t[i] != "";
    NonEmptyKeeps(t);
    NonEmptyAppend(t, [Trim(last)]);
  }

  lemma {:induction false} TrimmedSnoc(pieces: seq<string>, last: string)
    ensures Trimmed(pieces + [last]) == Trimmed(pieces) + [Trim(last)]
  {
    var l, r := Trimmed(pieces + [last]), Trimmed(pieces) + [Trim(last)];
    assert |l| == |r|;
    forall i | 0 <= i < |l| ensures l[i] == r[i] {
      if i < |pieces| {
        assert (pieces + [last])[i] == pieces[i];
      }
    }
  }

  /** The filter on one point keeps it exactly when it is not empty. */
  lemma {:induction false} NonEmptySingle(p: string)
    ensures NonEmpty([p]) == if p == "" then [] else [p]
  {
    assert [p][1..] == [];
  }

  /**
   * Round trip for the usual summary: sentences that are not blank, each ended by a run of `.`,
   * `!` or `?`, then an optional unterminated last piece. Each sentence becomes one bullet holding
   * its trimmed text, in order, and the last piece adds a bullet exactly when it is not blank.
   */
  lemma {:induction false} KeyPointsOfTerminated(sentences: seq<string>, marks: seq<string>, last: string)
    requires |sentences| == |marks|
    requires forall i :: 0 <= i < |sentences| ==> Trim(sentences[i]) != []
    requires forall i, k :: 0 <= i < |sentences| && 0 <= k < |sentences[i]| ==> !IsSentenceEnd(sentences[i][k])
    requires forall i :: 0 <= i < |marks| ==> marks[i] != [] && forall k :: 0 <= k < |marks[i]| ==> IsSentenceEnd(marks[i][k])
    requires forall k :: 0 <= k < |last| ==> !IsSentenceEnd(last[k])
    ensures KeyPoints(Terminated(sentences, marks) + last)
         == Bulleted(Trimmed(sentences) + (if Trim(last) == "" then [] else [Trim(last)]))
  {
    NonBlankNonEmpty(sentences);
    SplitTerminated(sentences, marks, last);
    KeyPointsOfSplit(Terminated(sentences, marks) + last, sentences + [last], marks);
    PointsOfTerminated(sentences, last);
    NonEmptySingle(Trim(last));
  }

  const NotesHeader := "# CatNotes Summarized\n\n"
  const DefaultNotesTitle := "Class Notes"
  const KeyPointsHeading := "## Key Points\n\n"
  const NotesActionItemsHeading := "## Action Items\n\n"

  /** The notes header: `## <title || 'Class Notes'>` and the `Date:` line. */
  function NotesHead(title: string, dateText: string): string {
    NotesHeader + "## " + OrElse(title, DefaultNotesTitle) + "\n" + "Date: " + dateText + "\n\n"
  }

  function KeyPointsSection(summary: string): string {
    if summary != "" then KeyPointsHeading + Join(KeyPoints(summary), "\n") + "\n\n" else ""
  }

  function NotesActionItemsSection(items: seq<string>): string {
    if items != [] then NotesActionItemsHeading + BulletLines(NotesBullet, items) + "\n" else ""
  }

  /** The study-notes text: header, key points when there is a summary, action items when there are any. */
  function StudyNotesText(title: string, dateText: string, t: Transcription): string {
    NotesHead(title, dateText) + KeyPointsSection(t.summary) + NotesActionItemsSection(t.actionItems)
  }

  /** The `notesContent += …` sequence of the handler, with its `forEach` over the action items. */
  method ComposeStudyNotes(title: string, dateText: string, t: Transcription) returns (notesContent: string)
    ensures notesContent == StudyNotesText(title, dateText, t)
  {
    notesContent := NotesHeader;
    notesContent := notesContent + "## " + OrElse(title, DefaultNotesTitle) + "\n";
    notesContent := notesContent + "Date: " + dateText + "\n\n";
    assert notesContent == NotesHead(title, dateText);
    notesContent := AppendKeyPoints(notesContent, t.summary);
    ghost var before := notesContent;
    assert before == NotesHead(title, dateText) + KeyPointsSection(t.summary);
    var items := t.actionItems;
    if |items| > 0 {
      notesContent := notesContent + NotesActionItemsHeading;
      notesContent := AppendBulletLines(notesContent, NotesBullet, items);
      notesContent := notesContent + "\n";
      assert notesContent == before + (NotesActionItemsHeading + BulletLines(NotesBullet, items) + "\n");
    }
    assert notesContent == before + NotesActionItemsSection(items);
  }

  /** The `## Key Points` block: only for a non-empty summary, one `* ` line per sentence. */
  method AppendKeyPoints(notesContent: string, summary: string) returns (r: string)
    ensures r == notesContent + KeyPointsSection(summary)
  {
    r := notesContent;
    if summary != "" {
      r := r + KeyPointsHeading;
      var summaryPoints := KeyPoints(summary);
      var lines := Join(summaryPoints, "\n");
      r := r + lines + "\n\n";
      assert r == notesContent + (KeyPointsHeading + lines + "\n\n");
    }
  }

  /** The notes open with the fixed header and the transcript's title, or `Class Notes` when it has none. */
  lemma {:induction false} StudyNotesOpening(title: string, dateText: string, t: Transcription)
    ensures NotesHeader + "## " + OrElse(title, DefaultNotesTitle) + "\n" <= StudyNotesText(title, dateText, t)
  {
    var opening := NotesHeader + "## " + OrElse(title, DefaultNotesTitle) + "\n";
    var head := NotesHead(title, dateText);
    var withPoints := head + KeyPointsSection(t.summary);
    assert head == opening + "Date: " + dateText + "\n\n";
    assert opening <= head;
    assert head <= withPoints;
    assert withPoints <= StudyNotesText(title, dateText, t);
  }

  /** The JSON answer of `/api/generate-study-notes`. */
  datatype NotesReply =
    | NotesGenerated(pdfPath: string, message: string)
    | NotesFailed(status: nat, error: string)

  const NoRecentTranscripts := "No recent transcripts found"
  const TranscriptDataNotFound := "Transcript data not found"
  const NotesFailedMessage := "Failed to generate summary notes"
  const NotesGeneratedMessage := "Summary notes generated successfully"
  const SummarySuffix := " - Summary"

  /** The title the notes document is rendered under. */
  function NotesTitle(ref: TranscriptRef): string {
    OrElse(ref.title, DefaultNotesTitle) + SummarySuffix
  }

  /**
   * The handler of `/api/generate-study-notes`, given what `getRecentTranscripts(1)` produced, the
   * transcript service, and `toLocaleDateString` of a date string. Any exception becomes the fixed
   * 500 answer.
   */
  method GenerateStudyNotes(store: OutputStore, fetchedRecent: Attempt<seq<TranscriptRef>>,
                            getTranscription: string -> Attempt<Option<Transcription>>,
                            localeDate: string -> string, isoTimestamp: string, generatedAt: string,
                            mkdirError: Option<string>)
    returns (r: NotesReply)
    requires store.Valid()
    modifies store
    ensures store.Valid()
    ensures fetchedRecent.Threw? ==> r == NotesFailed(500, NotesFailedMessage) && unchanged(store)
    ensures fetchedRecent == Returned([]) ==> r == NotesFailed(404, NoRecentTranscripts) && unchanged(store)
    ensures fetchedRecent.Returned? && fetchedRecent.value != [] ==>
      var fetched := getTranscription(fetchedRecent.value[0].id);
      && (fetched.Threw? ==> r == NotesFailed(500, NotesFailedMessage) && unchanged(store))
      && (fetched.Returned? && !Ready(fetched.value) ==> r == NotesFailed(404, TranscriptDataNotFound) && unchanged(store))
      && (fetched.Returned? && Ready(fetched.value) && MkdirFails(old(store.directories), mkdirError) ==>
            r == NotesFailed(500, NotesFailedMessage) && unchanged(store))
    ensures r.NotesGenerated? <==>
      && fetchedRecent.Returned? && fetchedRecent.value != []
      && getTranscription(fetchedRecent.value[0].id).Returned? && Ready(getTranscription(fetchedRecent.value[0].id).value)
      && !MkdirFails(old(store.directories), mkdirError)
    ensures r.NotesGenerated? ==>
      var latest := fetchedRecent.value[0];
      var t := getTranscription(latest.id).value.value;
      && r == NotesGenerated("outputs/" + Basename(OutputPath(NotesTitle(latest), isoTimestamp)), NotesGeneratedMessage)
      && store.directories == old(store.directories) + {OutputsDir}
      && store.files == old(store.files)[FileName(NotesTitle(latest), isoTimestamp) :=
           Document(AppHeading, Heading(NotesTitle(latest)), generatedAt, StudyNotesText(latest.title, localeDate(latest.dateString), t))]
  {
    if fetchedRecent.Threw? {
      return NotesFailed(500, NotesFailedMessage);
    }
    var transcripts := fetchedRecent.value;
    if |transcripts| == 0 {
      return NotesFailed(404, NoRecentTranscripts);
    }
    var latest := transcripts[0];
    match getTranscription(latest.id)
    case Threw(_) =>
      r := NotesFailed(500, NotesFailedMessage);
    case Returned(data) =>
      if !Ready(data) {
        r := NotesFailed(404, TranscriptDataNotFound);
      } else {
        var notesContent := ComposeStudyNotes(latest.title, localeDate(latest.dateString), data.value);
        var rendered := store.CreatePdf(notesContent, NotesTitle(latest), isoTimestamp, generatedAt, mkdirError);
        match rendered
        case Threw(_) =>
          r := NotesFailed(500, NotesFailedMessage);
        case Returned(pdfPath) =>
          r := NotesGenerated("outputs/" + Basename(pdfPath), NotesGeneratedMessage);
      }
  }

  /** For a title without `/`, the reported path is `outputs/` followed by the written file's name. */
  lemma {:induction false} NotesPathNamesFile(latest: TranscriptRef, isoTimestamp: string)
    requires '/' !in latest.title && IsIsoTimestamp(isoTimestamp)
    ensures "outputs/" + Basename(OutputPath(NotesTitle(latest), isoTimestamp))
         == "outputs/" + FileName(NotesTitle(latest), isoTimestamp)
  {
    assert '/' !in NotesTitle(latest);
    OutputPathBasename(NotesTitle(latest), isoTimestamp);
  }
}
