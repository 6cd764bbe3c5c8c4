/**
 * The document writer `createPdf` (catnotes/backend/pdf-transcription.js): how the file name and
 * the returned path are built from a title and an ISO-8601 timestamp, and what a call leaves in the
 * outputs directory. The clock is a parameter: `isoTimestamp` is `new Date().toISOString()` and
 * `generatedAt` is `new Date().toLocaleString()`.
 */
module PdfTranscription {
  import opened Wrappers
  import opened Text

  /** The directory (next to `backend/`) that holds every generated document. */
  const OutputsDir := "outputs"
  const ReturnedPrefix := "/outputs/"
  const FilePrefix := "catnotes-"
  const FileExtension := ".pdf"
  const FileTitleFallback := "meeting"
  const HeadingFallback := "Meeting Transcript"
  const AppHeading := "CatNotes"

  /** `isoTimestamp.replace(/:/g, '-')`: every colon becomes a hyphen and nothing else changes. */
  function SafeTimestamp(isoTimestamp: string): (r: string)
    ensures |r| == |isoTimestamp|
    ensures ':' !in r
    ensures forall i :: 0 <= i < |r| && isoTimestamp[i] != ':' ==> r[i] == isoTimestamp[i]
    ensures forall i :: 0 <= i < |r| && isoTimestamp[i] == ':' ==> r[i] == '-'
    decreases |isoTimestamp|
  {
    if isoTimestamp == [] then []
    else [if isoTimestamp[0] == ':' then '-' else isoTimestamp[0]] + SafeTimestamp(isoTimestamp[1..])
  }

  /** The shape of `Date.prototype.toISOString` for years 0000-9999: `YYYY-MM-DDTHH:mm:ss.sssZ`. */
  const IsoShape := "dddd-dd-ddTdd:dd:dd.dddZ"

  predicate IsIsoTimestamp(s: string) {
    && |s| == |IsoShape|
    && forall i :: 0 <= i < |s| ==> if IsoShape[i] == 'd' then IsDigit(s[i]) else s[i] == IsoShape[i]
  }

  /** Two different ISO timestamps never sanitise to the same text. */
  lemma {:induction false} SafeTimestampInjective(a: string, b: string)
    requires IsIsoTimestamp(a) && IsIsoTimestamp(b)
    requires SafeTimestamp(a) == SafeTimestamp(b)
    ensures a == b
  {
    forall i | 0 <= i < |a|
      ensures a[i] == b[i]
    {
      assert SafeTimestamp(a)[i] == SafeTimestamp(b)[i];
    }
  }

  /** `catnotes-${meetingTitle || 'meeting'}-${timestamp}.pdf`; the title is used as given. */
  function FileName(meetingTitle: string, isoTimestamp: string): string {
    FilePrefix + OrElse(meetingTitle, FileTitleFallback) + "-" + SafeTimestamp(isoTimestamp) + FileExtension
  }

  /** The value `createPdf` resolves with. */
  function OutputPath(meetingTitle: string, isoTimestamp: string): string {
    ReturnedPrefix + FileName(meetingTitle, isoTimestamp)
  }

  /** The second heading line of the document, `meetingTitle || 'Meeting Transcript'`. */
  function Heading(meetingTitle: string): string {
    OrElse(meetingTitle, HeadingFallback)
  }

  /** For one title, renders at two different instants get two different file names. */
  lemma {:induction false} FileNameInjective(meetingTitle: string, a: string, b: string)
    requires IsIsoTimestamp(a) && IsIsoTimestamp(b) && a != b
    ensures FileName(meetingTitle, a) != FileName(meetingTitle, b)
  {
    var pre := FilePrefix + OrElse(meetingTitle, FileTitleFallback) + "-";
    if FileName(meetingTitle, a) == FileName(meetingTitle, b) {
      var fa, fb := FileName(meetingTitle, a), FileName(meetingTitle, b);
      assert fa[|pre|..|pre| + |a|] == SafeTimestamp(a);
      assert fb[|pre|..|pre| + |b|] == SafeTimestamp(b);
      SafeTimestampInjective(a, b);
    }
  }

  /** The file name and its parts: prefix, the title verbatim (or `meeting`), the timestamp, the extension. */
  lemma {:induction false} FileNameParts(meetingTitle: string, isoTimestamp: string)
    ensures var f := FileName(meetingTitle, isoTimestamp);
      && FilePrefix <= f
      && f[|FilePrefix|..|FilePrefix| + |OrElse(meetingTitle, FileTitleFallback)|] == OrElse(meetingTitle, FileTitleFallback)
      && f[|FilePrefix| + |OrElse(meetingTitle, FileTitleFallback)|] == '-'
      && f[|f| - |FileExtension| - |isoTimestamp|..|f| - |FileExtension|] == SafeTimestamp(isoTimestamp)
      && ':' !in f[|f| - |FileExtension| - |isoTimestamp|..|f| - |FileExtension|]
      && f[|f| - |FileExtension|..] == FileExtension
      && |f| == |FilePrefix| + |OrElse(meetingTitle, FileTitleFallback)| + 1 + |isoTimestamp| + |FileExtension|
  {
    var f := FileName(meetingTitle, isoTimestamp);
    assert f[|f| - |FileExtension| - |isoTimestamp|..|f| - |FileExtension|] == SafeTimestamp(isoTimestamp);
  }

  /** The returned path names the written file: its basename is the file name when the title has no `/`. */
  lemma {:induction false} OutputPathBasename(meetingTitle: string, isoTimestamp: string)
    requires '/' !in meetingTitle && IsIsoTimestamp(isoTimestamp)
    ensures Basename(OutputPath(meetingTitle, isoTimestamp)) == FileName(meetingTitle, isoTimestamp)
  {
    var f := FileName(meetingTitle, isoTimestamp);
    var t := SafeTimestamp(isoTimestamp);
    assert '/' !in t by {
      forall i | 0 <= i < |t| ensures t[i] != '/' {
        assert isoTimestamp[i] != '/';
      }
    }
    assert '/' !in OrElse(meetingTitle, FileTitleFallback);
    assert f == FilePrefix + OrElse(meetingTitle, FileTitleFallback) + "-" + t + FileExtension;
    assert '/' !in f;
    assert OutputPath(meetingTitle, isoTimestamp) == "/outputs" + "/" + f;
    BasenameOfJoined("/outputs", f);
  }

  /**
   * What a rendered document holds: the three heading lines (always `CatNotes`, then the title, then
   * the generation time) and the body text as one block.
   */
  datatype Document = Document(appHeading: string, title: string, generatedAt: string, body: string)

  /** The output directory tree and the documents written into `outputs/`, keyed by file name. */
  class OutputStore {
    var directories: set<string>
    var files: map<string, Document>

    /** Every written document sits in an existing outputs directory. */
    ghost predicate Valid()
      reads this
    {
      files != map[] ==> OutputsDir in directories
    }

    constructor (existing: set<string>)
      ensures Valid()
      ensures directories == existing && files == map[]
    {
      directories := existing;
      files := map[];
    }

    /**
     * `if (!existsSync(dir)) mkdirSync(dir, {recursive: true})`. `mkdirError` is what `mkdirSync`
     * would throw (`None` when it succeeds); it matters only when the directory is missing. On
     * success the directory exists afterwards and nothing else changed; on failure nothing changed.
     */
    method EnsureOutputsDir(mkdirError: Option<string>) returns (failure: Option<string>)
      modifies this
      ensures failure == (if OutputsDir in old(directories) then None else mkdirError)
      ensures failure.None? ==> directories == old(directories) + {OutputsDir}
      ensures failure.Some? ==> unchanged(this)
      ensures files == old(files)
    {
      failure := None;
      if OutputsDir !in directories {
        if mkdirError.Some? {
          return mkdirError;
        }
        directories := directories + {OutputsDir};
      }
    }

    /**
     * `createPdf(transcriptionText, meetingTitle)`: writes (or overwrites) the named file and
     * resolves with `/outputs/<file name>`; earlier documents under other names are untouched.
     * When the outputs directory is missing and cannot be created, it rejects with that error and
     * nothing is written.
     */
    method CreatePdf(transcriptionText: string, meetingTitle: string, isoTimestamp: string, generatedAt: string,
                     mkdirError: Option<string>)
      returns (r: Attempt<string>)
      requires Valid()
      modifies this
      ensures Valid()
      ensures r.Threw? <==> MkdirFails(old(directories), mkdirError)
      ensures r.Threw? ==> r.message == mkdirError.value && unchanged(this)
      ensures r.Returned? ==>
        && r.value == OutputPath(meetingTitle, isoTimestamp)
        && directories == old(directories) + {OutputsDir}
        && files == old(files)[FileName(meetingTitle, isoTimestamp) := Document(AppHeading, Heading(meetingTitle), generatedAt, transcriptionText)]
      ensures forall f :: f in old(files) && f != FileName(meetingTitle, isoTimestamp) ==> f in files && files[f] == old(files)[f]
    {
      var fileName := FileName(meetingTitle, isoTimestamp);
      var failure := EnsureOutputsDir(mkdirError);
      if failure.Some? {
        return Threw(failure.value);
      }
      files := files[fileName := Document(AppHeading, Heading(meetingTitle), generatedAt, transcriptionText)];
      r := Returned(ReturnedPrefix + fileName);
    }
  }

  /** `createPdf` rejects exactly when the outputs directory is missing and `mkdirSync` throws. */
  predicate MkdirFails(directories: set<string>, mkdirError: Option<string>) {
    OutputsDir !in directories && mkdirError.Some?
  }

  /**
   * Rendering twice under one title at different instants keeps both documents; once a render has
   * succeeded the outputs directory exists, so the second cannot fail, and a failed first render
   * leaves the directory missing, so the second fails too.
   */
  method RenderTwice(store: OutputStore, body1: string, body2: string, meetingTitle: string, t1: string, t2: string,
                     generatedAt: string, mkdirError: Option<string>)
    returns (p1: Attempt<string>, p2: Attempt<string>)
    requires store.Valid()
    requires IsIsoTimestamp(t1) && IsIsoTimestamp(t2) && t1 != t2
    modifies store
    ensures p1.Returned? ==> p2.Returned? && p1.value != p2.value
    ensures p1.Returned? ==>
      && FileName(meetingTitle, t1) in store.files && store.files[FileName(meetingTitle, t1)].body == body1
      && FileName(meetingTitle, t2) in store.files && store.files[FileName(meetingTitle, t2)].body == body2
    ensures p1.Threw? ==> p2.Threw? && unchanged(store)
  {
    p1 := store.CreatePdf(body1, meetingTitle, t1, generatedAt, mkdirError);
    p2 := store.CreatePdf(body2, meetingTitle, t2, generatedAt, mkdirError);
    if p1.Returned? {
      FileNameInjective(meetingTitle, t1, t2);
      assert p1.value[|ReturnedPrefix|..] == FileName(meetingTitle, t1);
      assert p2.value[|ReturnedPrefix|..] == FileName(meetingTitle, t2);
    }
  }
}
