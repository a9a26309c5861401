/** The page that runs one document-processing request: the guard on the
    button, the staged run over the page state with its progress values and
    failure messages, the progress ticker, the text join of the PDF's first
    page and the name offered for the download. The PDF and Word decoders,
    the HTTP call and the data-URI encoder are inputs here (Env). */
module Page {
  import opened Wrappers
  import opened Text
  import opened FileUploadZone

  // ---------------------------------------------------------------------
  // The two upload zones of the page

  const PdfAccept := ".pdf,application/pdf"
  const PdfMaxFileSizeMB: nat := 5
  /** The template zone's accept list, written as its two halves: the Word
      extensions, then the Word MIME types. */
  const WordExtensions := ".doc,.docx"
  const WordMimeTypes := "application/msword,application/vnd.openxmlformats-officedocument.wordprocessingml.document"
  const TemplateAccept := WordExtensions + "," + WordMimeTypes
  const TemplateMaxFileSizeMB: nat := 2

  /** The PDF zone matches extensions without regard to case: it takes a
      file whose name ends in '.' and any casing of `pdf` (`REPORT.PDF`,
      say), up to five megabytes and whatever MIME type it declares. */
  lemma PdfZoneTakesAnyCaseOfPdf(stem: string, ext: string, mime: string, size: nat)
    requires ToLower(ext) == "pdf" && size <= SizeLimit(PdfMaxFileSizeMB)
    ensures Validate(FileInfo(stem + "." + ext, mime, size), PdfAccept, PdfMaxFileSizeMB) == Accepted
  {
    assert FileExtension(stem + "." + ext) == ".pdf" by {
      LowerExtension(stem, ext);
    }
    PdfAcceptFirstEntry();
    ExtensionEntryAccepts(FileInfo(stem + "." + ext, mime, size), PdfAccept, PdfMaxFileSizeMB, 0);
  }

  /** The template zone, likewise, takes a file whose name ends in '.' and
      any casing of `docx` (`Letter.DOCX`, say), up to two megabytes and
      whatever MIME type it declares. It is the second entry, `.docx`, that
      admits it: the first, `.doc`, is compared whole and does not. */
  lemma TemplateZoneTakesAnyCaseOfDocx(stem: string, ext: string, mime: string, size: nat)
    requires ToLower(ext) == "docx" && size <= SizeLimit(TemplateMaxFileSizeMB)
    ensures Validate(FileInfo(stem + "." + ext, mime, size), TemplateAccept, TemplateMaxFileSizeMB) == Accepted
  {
    assert FileExtension(stem + "." + ext) == ".docx" by {
      LowerExtension(stem, ext);
    }
    TemplateAcceptSecondEntry();
    ExtensionEntryAccepts(FileInfo(stem + "." + ext, mime, size), TemplateAccept, TemplateMaxFileSizeMB, 1);
  }

  /** The second entry of the template zone's accept list is `.docx`. */
  lemma TemplateAcceptSecondEntry()
    ensures |AcceptEntries(TemplateAccept)| >= 2 && AcceptEntries(TemplateAccept)[1] == ".docx"
  {
    SecondEntryIsDocx(WordMimeTypes);
  }

  /** An accept list that starts with `.doc,.docx,` has `.docx` as its
      second entry, whatever follows. */
  lemma SecondEntryIsDocx(rest: string)
    ensures |AcceptEntries(WordExtensions + "," + rest)| >= 2
    ensures AcceptEntries(WordExtensions + "," + rest)[1] == ".docx"
  {
    var accept := WordExtensions + "," + rest;
    assert Split(accept, ',')[1] == ".docx" by {
      WordExtensionsPieces();
      assert accept == WordExtensions + [','] + rest;
      SplitConcat(WordExtensions, ',', rest);
    }
    AcceptEntryIsCleanedPiece(accept, 1);
    DocxEntryIsClean();
  }

  /** The Word extensions split into `.doc` and `.docx`. */
  lemma WordExtensionsPieces()
    ensures Split(WordExtensions, ',') == [".doc", ".docx"]
  {
    var pieces := [".doc", ".docx"];
    assert Join(pieces, ',') == WordExtensions by {
      assert Join(pieces[..1], ',') == ".doc";
    }
    JoinSplit(pieces, ',');
  }

  lemma DocxEntryIsClean()
    ensures ToLower(Trim(".docx")) == ".docx"
  {
    CleanEntryIsFixed(".docx");
  }

  /** The first entry of the PDF zone's accept list is `.pdf`. */
  lemma PdfAcceptFirstEntry()
    ensures AcceptEntries(PdfAccept)[0] == ".pdf"
  {
    PdfAcceptPieces();
    PdfEntryIsClean();
  }

  lemma PdfEntryIsClean()
    ensures ToLower(Trim(".pdf")) == ".pdf"
  {
    CleanEntryIsFixed(".pdf");
  }

  /** The PDF zone's accept list has the two pieces `.pdf` and
      `application/pdf`. */
  lemma PdfAcceptPieces()
    ensures Split(PdfAccept, ',') == [".pdf", "application/pdf"]
  {
    var pieces := [".pdf", "application/pdf"];
    assert Join(pieces, ',') == PdfAccept by {
      assert Join(pieces[..1], ',') == ".pdf";
    }
    JoinSplit(pieces, ',');
  }

  // ---------------------------------------------------------------------
  // Text of the PDF's first page

  /** One item of `page.getTextContent()`; only its `str` is used. */
  datatype TextItem = TextItem(str: string)

  function Strs(items: seq<TextItem>): seq<string> {
    seq(|items|, k requires 0 <= k < |items| => items[k].str)
  }

  /** The PDF text: the items' strings in reported order, one space
      between neighbours. */
  function PdfText(items: seq<TextItem>): string {
    Join(Strs(items), ' ')
  }

  /** When no item holds a space, splitting the PDF text on spaces gives
      back exactly the items' strings: nothing is added, dropped or
      reordered, and exactly one space separates neighbours. */
  lemma PdfTextRecoversItems(items: seq<TextItem>)
    requires |items| >= 1
    requires forall k :: 0 <= k < |items| ==> ' ' !in items[k].str
    ensures Split(PdfText(items), ' ') == Strs(items)
  {
    JoinSplit(Strs(items), ' ');
  }

  // ---------------------------------------------------------------------
  // What the run talks to

  /** A thrown value: an `Error` with its message, or anything else. */
  datatype Thrown = ErrorValue(message: string) | OtherValue

  /** The result of an awaited call: a value, or a throw. */
  datatype Step<T> = Done(value: T) | Throws(thrown: Thrown)

  /** `result.translatedContent`: absent, or a string. */
  datatype Content = Absent | Present(text: string)

  datatype Reply = Reply(translatedContent: Content)

  /** A fetch response: the `ok` flag and the outcome of `response.json()`. */
  datatype Response = Response(ok: bool, json: Step<Reply>)

  /** The JSON body posted to the processing endpoint. */
  datatype Request = Request(pdfText: string, templateText: string, targetLanguage: string)

  /** The file handed to the data-URI encoder: the content, the name
      `translated.docx`, and an empty type (the document type given to the
      blob does not carry over to a file built without options). */
  datatype Upload = Upload(content: string, name: string, mimeType: string)

  /** Everything outside the page that one run consults: the first page's
      text items (or the decoder's throw), the template's raw text (or the
      decoder's throw), the HTTP call, and the data-URI encoder. */
  datatype Env = Env(
    pdf: Step<seq<TextItem>>,
    template: Step<string>,
    fetch: Request -> Step<Response>,
    dataUri: Upload -> Step<string>)

  const FailedToProcess := "Failed to process documents"
  const NoValidContent := "AI processing did not return valid content."
  const UnknownError := "An unknown error occurred during processing. Please try again."

  const ExtractingStep := "Extracting PDF content..."
  const TemplateStep := "Processing template..."
  const AiStep := "AI processing content..."

  /** The explicitly set progress values of a successful run, in order. */
  const StageProgress: seq<int> := [5, 30, 50, 70, 90, 100]

  /** JavaScript truthiness of `translatedContent`. */
  predicate Truthy(c: Content) {
    c.Present? && c.text != ""
  }

  /** The message shown for a throw. */
  function ErrorMessage(t: Thrown): string {
    match t
    case ErrorValue(m) => m
    case OtherValue => UnknownError
  }

  // ---------------------------------------------------------------------
  // One run, as a value

  /** What the `try` block does: the progress values it sets, the step text
      it leaves, and the data URI or the value it throws. */
  datatype Attempt = Attempt(progressSet: seq<int>, stepText: string, result: Step<string>)

  /** The progress values a `try` block sets are the stage values after the
      initial 5, in order, and it sets all five exactly when it returns. */
  predicate StagedAttempt(a: Attempt) {
    |a.progressSet| <= 5 && a.progressSet == StageProgress[1..|a.progressSet| + 1] &&
    (a.result.Done? <==> |a.progressSet| == 5)
  }

  function TryBlock(lang: string, env: Env): (a: Attempt)
    ensures StagedAttempt(a)
  {
    match env.pdf
    case Throws(t) => Attempt([], ExtractingStep, Throws(t))
    case Done(items) =>
      match env.template
      case Throws(t) => Attempt([30], TemplateStep, Throws(t))
      case Done(templateText) =>
        var ai := AiAttempt(Request(PdfText(items), templateText, lang), env);
        Attempt([30, 50] + ai.progressSet, ai.stepText, ai.result)
  }

  /** The last stage of the `try` block, from the request to the packaged
      document: its progress values are a non-empty prefix of 70, 90, 100,
      all three exactly when it returns a data URI. */
  function AiAttempt(req: Request, env: Env): (a: Attempt)
    ensures 1 <= |a.progressSet| <= 3 && a.progressSet == [70, 90, 100][..|a.progressSet|]
    ensures a.result.Done? <==> |a.progressSet| == 3
    ensures a.stepText == AiStep
  {
    match env.fetch(req)
    case Throws(t) => Attempt([70], AiStep, Throws(t))
    case Done(response) =>
      if !response.ok then Attempt([70], AiStep, Throws(ErrorValue(FailedToProcess)))
      else
        match response.json
        case Throws(t) => Attempt([70], AiStep, Throws(t))
        case Done(reply) =>
          if !Truthy(reply.translatedContent) then
            Attempt([70, 90], AiStep, Throws(ErrorValue(NoValidContent)))
          else
            match env.dataUri(Upload(reply.translatedContent.text, "translated.docx", ""))
            case Throws(t) => Attempt([70, 90], AiStep, Throws(t))
            case Done(uri) => Attempt([70, 90, 100], AiStep, Done(uri))
  }

  datatype Outcome = Succeeded(dataUri: string) | Failed(message: string)

  /** One started run: every progress value it sets (the initial 5, the
      stage values, and the 0 of the `catch`), the step text it leaves, and
      its outcome. */
  datatype Run = Run(progressSet: seq<int>, stepText: string, outcome: Outcome)

  /** The progress values a run sets before it either completes or fails. */
  function StageValues(r: Run): seq<int> {
    if r.outcome.Failed? && r.progressSet != [] then r.progressSet[..|r.progressSet| - 1] else r.progressSet
  }

  /** The shape of every started run: the stage values are a prefix of 5,
      30, 50, 70, 90, 100, all of it exactly on success and a proper prefix
      followed by a single 0 on failure, and 100 is set only on success. */
  predicate WellStaged(r: Run) {
    |r.progressSet| >= 1 && r.progressSet[0] == 5 &&
    (r.outcome.Succeeded? ==> r.progressSet == StageProgress) &&
    (r.outcome.Failed? ==>
      |r.progressSet| >= 2 && r.progressSet[|r.progressSet| - 1] == 0 &&
      |StageValues(r)| < |StageProgress| && StageValues(r) == StageProgress[..|StageValues(r)|]) &&
    (100 in r.progressSet <==> r.outcome.Succeeded?)
  }

  /** A started run: the initial 5, the `try` block, the `catch`. */
  function RunOf(lang: string, env: Env): Run {
    Finish(TryBlock(lang, env))
  }

  /** Every started run has the staged shape. */
  lemma RunIsWellStaged(lang: string, env: Env)
    ensures WellStaged(RunOf(lang, env))
  {
    FinishIsWellStaged(TryBlock(lang, env));
  }

  /** The run around a `try` block: the initial 5 before it, and the
      `catch` that turns a throw into its message and a progress of 0. */
  function Finish(a: Attempt): Run
    requires StagedAttempt(a)
  {
    match a.result
    case Done(uri) => Run([5] + a.progressSet, a.stepText, Succeeded(uri))
    case Throws(t) => Run([5] + a.progressSet + [0], a.stepText, Failed(ErrorMessage(t)))
  }

  lemma FinishIsWellStaged(a: Attempt)
    requires StagedAttempt(a)
    ensures WellStaged(Finish(a))
  {
    var r := Finish(a);
    match a.result
    case Done(uri) =>
      assert r.progressSet == StageProgress;
    case Throws(t) =>
      assert StageValues(r) == [5] + a.progressSet;
      assert StageValues(r) == StageProgress[..|StageValues(r)|];
      assert 100 !in StageValues(r);
  }

  /** The stage values of every run rise strictly. */
  lemma StageValuesIncrease(lang: string, env: Env, i: nat, j: nat)
    requires i < j < |StageValues(RunOf(lang, env))|
    ensures StageValues(RunOf(lang, env))[i] < StageValues(RunOf(lang, env))[j]
  {
    RunIsWellStaged(lang, env);
    WellStagedIncreases(RunOf(lang, env), i, j);
  }

  lemma WellStagedIncreases(r: Run, i: nat, j: nat)
    requires WellStaged(r) && i < j < |StageValues(r)|
    ensures StageValues(r)[i] < StageValues(r)[j]
  {
    assert StageValues(r)[i] == StageProgress[i] && StageValues(r)[j] == StageProgress[j];
  }

  /** A run succeeds exactly when both decoders return, the response is ok,
      its JSON parses with non-empty content, and that content can be
      encoded; the request carries the PDF text, the template text and the
      language as typed (untrimmed), and the result is the encoder's URI. */
  lemma SuccessIff(lang: string, env: Env, uri: string)
    ensures RunOf(lang, env).outcome == Succeeded(uri) <==>
      env.pdf.Done? && env.template.Done? &&
      var response := env.fetch(Request(PdfText(env.pdf.value), env.template.value, lang));
      response.Done? && response.value.ok && response.value.json.Done? &&
      Truthy(response.value.json.value.translatedContent) &&
      env.dataUri(Upload(response.value.json.value.translatedContent.text, "translated.docx", "")) == Done(uri)
  {
  }

  /** A response that is not ok fails the run with the fixed message, after
      the progress reached 70. */
  lemma NotOkFails(lang: string, env: Env, items: seq<TextItem>, templateText: string, response: Response)
    requires env.pdf == Done(items) && env.template == Done(templateText)
    requires env.fetch(Request(PdfText(items), templateText, lang)) == Done(response)
    requires !response.ok
    ensures RunOf(lang, env) == Run([5, 30, 50, 70, 0], AiStep, Failed(FailedToProcess))
  {
  }

  /** An ok response whose content is missing or empty fails the run with
      the second fixed message, after the progress reached 90. */
  lemma EmptyContentFails(lang: string, env: Env, items: seq<TextItem>, templateText: string, reply: Reply)
    requires env.pdf == Done(items) && env.template == Done(templateText)
    requires env.fetch(Request(PdfText(items), templateText, lang)) == Done(Response(true, Done(reply)))
    requires reply.translatedContent == Absent || reply.translatedContent == Present("")
    ensures RunOf(lang, env) == Run([5, 30, 50, 70, 90, 0], AiStep, Failed(NoValidContent))
  {
  }

  /** A decoder that throws ends the run with the thrown error's message,
      or the fixed text when what was thrown is not an `Error`. */
  lemma ExtractionThrowFails(lang: string, env: Env, t: Thrown)
    requires env.pdf == Throws(t) || (env.pdf.Done? && env.template == Throws(t))
    ensures RunOf(lang, env).outcome == Failed(if t.ErrorValue? then t.message else UnknownError)
    ensures RunOf(lang, env).progressSet == if env.pdf.Done? then [5, 30, 0] else [5, 0]
  {
  }

  // ---------------------------------------------------------------------
  // The start guard and the button

  /** Both files are present and the language is not blank. */
  function CanStart(pdf: Option<FileInfo>, template: Option<FileInfo>, lang: string): (r: bool)
    ensures r <==> pdf.Some? && template.Some? && exists k :: 0 <= k < |lang| && !IsWhitespace(lang[k])
  {
    TrimEmptyIff(lang);
    pdf.Some? && template.Some? && Trim(lang) != ""
  }

  /** The button is disabled while loading and whenever a run could not
      start. */
  function ButtonDisabled(isLoading: bool, pdf: Option<FileInfo>, template: Option<FileInfo>, lang: string): (r: bool)
    ensures !isLoading ==> (r <==> !CanStart(pdf, template, lang))
    ensures isLoading ==> r
  {
    TrimEmptyIff(lang);
    isLoading || pdf.None? || template.None? || Trim(lang) == ""
  }

  // ---------------------------------------------------------------------
  // The progress ticker

  /** The updater clears the interval when it sees 95 or more. */
  predicate TickerStops(p: int) {
    p >= 95
  }

  /** One firing of the 300 ms ticker's updater. */
  function Tick(p: int): int {
    if TickerStops(p) then 95 else p + 5
  }

  /** The value after the ticker fires `n` times, undisturbed, from `p`. */
  function TickerRun(p: int, n: nat): int
    decreases n
  {
    if n == 0 then p
    else if TickerStops(p) then Tick(p)
    else TickerRun(Tick(p), n - 1)
  }

  function Min(a: int, b: int): int {
    if a <= b then a else b
  }

  /** From a multiple of five not above 95 the ticker climbs in steps of
      five and settles at 95. */
  lemma {:induction false} TickerClimbs(p: int, n: nat)
    requires p <= 95 && p % 5 == 0
    ensures TickerRun(p, n) == Min(p + 5 * n, 95)
    decreases n
  {
    if n > 0 && !TickerStops(p) {
      TickerClimbs(p + 5, n - 1);
    }
  }

  /** From a value just below 95 that is not a multiple of five, the ticker
      overshoots 95 once before it settles. */
  lemma TickerOvershoots()
    ensures TickerRun(94, 1) == 99 && TickerRun(94, 2) == 95
  {
  }

  /** A firing after the final 100 pulls the progress back to 95. */
  lemma TickAfterCompletion()
    ensures Tick(100) == 95 && TickerStops(100)
  {
  }

  // ---------------------------------------------------------------------
  // The name offered for the download

  /** The language part of the name: trimmed and lower-cased, or
      `translated` when that leaves nothing. */
  function LanguageTag(lang: string): string {
    var t := ToLower(Trim(lang));
    if t == "" then "translated" else t
  }

  /** `getDownloadFileName`: split the template's name on '.', pop the last
      piece as the extension, join the rest with '.'. */
  function DownloadFileName(template: Option<FileInfo>, lang: string): string {
    match template
    case None => "LinguaLeap_Translated_Document.docx"
    case Some(f) =>
      var parts := Split(f.name, '.');
      var extension := parts[|parts| - 1];
      var base := Join(parts[..|parts| - 1], '.');
      "LinguaLeap_" + base + "_" + LanguageTag(lang) + "." + (if extension == "" then "docx" else extension)
  }

  /** The text before the last '.' of a name, or nothing when it has none. */
  function BeforeLastDot(name: string): string {
    var j := LastIndexOf(name, '.');
    if j == -1 then "" else name[..j]
  }

  /** The name is the template's name cut at its last '.': everything before
      it (inner dots kept) as the base, everything after it as the extension,
      `docx` when that is empty; a name without '.' gives an empty base and
      is itself the extension. */
  lemma DownloadFileNameCutsAtLastDot(f: FileInfo, lang: string)
    ensures DownloadFileName(Some(f), lang) ==
      "LinguaLeap_" + BeforeLastDot(f.name) + "_" + LanguageTag(lang) + "." +
      (if AfterLastDot(f.name) == "" then "docx" else AfterLastDot(f.name))
  {
    SplitAtLast(f.name, '.');
  }

  lemma DownloadFileNameWithoutTemplate(lang: string)
    ensures DownloadFileName(None, lang) == "LinguaLeap_Translated_Document.docx"
  {
  }

  /** Inner dots stay in the base: `a.b.docx` is cut into `a.b` and
      `docx`. */
  lemma InnerDotsName()
    ensures BeforeLastDot("a.b.docx") == "a.b" && AfterLastDot("a.b.docx") == "docx"
  {
    var name := "a.b.docx";
    assert LastIndexOf(name, '.') == 3 by {
      assert name[3] == '.' && '.' !in name[4..];
    }
    assert name[..3] == "a.b" && name[4..] == "docx";
  }

  // ---------------------------------------------------------------------
  // The page state

  class PageState {
    var pdfFile: Option<FileInfo>
    var templateFile: Option<FileInfo>
    var targetLanguage: string
    var populatedDocumentDataUri: Option<string>
    var isLoading: bool
    var error: Option<string>
    var progress: int
    var currentProgressStep: string
    /** Whether the ticker's interval is running. */
    var tickerActive: bool
    /** Every value handed to `setProgress`, in order. */
    ghost var progressLog: seq<int>

    constructor ()
      ensures pdfFile == None && templateFile == None && targetLanguage == ""
      ensures populatedDocumentDataUri == None && !isLoading && error == None
      ensures progress == 0 && currentProgressStep == "" && !tickerActive && progressLog == []
    {
      pdfFile, templateFile, targetLanguage := None, None, "";
      populatedDocumentDataUri, isLoading, error := None, false, None;
      progress, currentProgressStep, tickerActive := 0, "", false;
      progressLog := [];
    }

    method SetProgress(p: int)
      modifies this`progress, this`progressLog
      ensures progress == p && progressLog == old(progressLog) + [p]
    {
      progress := p;
      progressLog := progressLog + [p];
    }

    /** The `try` block of `handleProcessDocuments`: returns what it threw,
        or nothing when the document was packaged. */
    method TryStages(env: Env) returns (thrown: Option<Thrown>, ghost a: Attempt)
      modifies this`progress, this`progressLog, this`currentProgressStep, this`populatedDocumentDataUri
      ensures a == TryBlock(targetLanguage, env)
      ensures progressLog == old(progressLog) + a.progressSet &&
        progress == (if a.progressSet == [] then old(progress) else a.progressSet[|a.progressSet| - 1]) &&
        currentProgressStep == a.stepText &&
        match a.result
        case Done(uri) => thrown == None && populatedDocumentDataUri == Some(uri)
        case Throws(t) => thrown == Some(t) && populatedDocumentDataUri == old(populatedDocumentDataUri)
    {
      a := TryBlock(targetLanguage, env);
      currentProgressStep := ExtractingStep;
      if env.pdf.Throws? {
        return Some(env.pdf.thrown), a;
      }
      var pdfText := PdfText(env.pdf.value);
      SetProgress(30);

      currentProgressStep := TemplateStep;
      if env.template.Throws? {
        return Some(env.template.thrown), a;
      }
      var templateText := env.template.value;
      SetProgress(50);

      ghost var logged := progressLog;
      ghost var ai;
      thrown, ai := AiStage(Request(pdfText, templateText, targetLanguage), env);
      assert a.progressSet == [30, 50] + ai.progressSet;
      assert logged == old(progressLog) + [30, 50];
    }

    /** The AI stage of the `try` block: request, response checks, content
        check and packaging. */
    method AiStage(req: Request, env: Env) returns (thrown: Option<Thrown>, ghost a: Attempt)
      modifies this`progress, this`progressLog, this`currentProgressStep, this`populatedDocumentDataUri
      ensures a == AiAttempt(req, env)
      ensures progressLog == old(progressLog) + a.progressSet &&
        progress == a.progressSet[|a.progressSet| - 1] &&
        currentProgressStep == a.stepText &&
        match a.result
        case Done(uri) => thrown == None && populatedDocumentDataUri == Some(uri)
        case Throws(t) => thrown == Some(t) && populatedDocumentDataUri == old(populatedDocumentDataUri)
    {
      a := AiAttempt(req, env);
      currentProgressStep := AiStep;
      SetProgress(70);
      var response := env.fetch(req);
      if response.Throws? {
        return Some(response.thrown), a;
      }
      if !response.value.ok {
        return Some(ErrorValue(FailedToProcess)), a;
      }
      var json := response.value.json;
      if json.Throws? {
        return Some(json.thrown), a;
      }
      SetProgress(90);

      var content := json.value.translatedContent;
      if Truthy(content) {
        var uri := env.dataUri(Upload(content.text, "translated.docx", ""));
        if uri.Throws? {
          return Some(uri.thrown), a;
        }
        populatedDocumentDataUri := Some(uri.value);
        SetProgress(100);
        return None, a;
      } else {
        return Some(ErrorValue(NoValidContent)), a;
      }
    }

    /** `handleProcessDocuments`: nothing happens unless both files are
        present and the language is not blank; otherwise the run starts,
        and after the `catch` and `finally` the page holds either the data
        URI and no error, or the error message, no result and progress 0,
        and is no longer loading. */
    method HandleProcessDocuments(env: Env)
      modifies this`isLoading, this`error, this`populatedDocumentDataUri
      modifies this`progress, this`progressLog, this`currentProgressStep
      ensures !CanStart(old(pdfFile), old(templateFile), old(targetLanguage)) ==> unchanged(this)
      ensures CanStart(old(pdfFile), old(templateFile), old(targetLanguage)) ==>
        Settled(old(progressLog), RunOf(old(targetLanguage), env))
    {
      if CanStart(pdfFile, templateFile, targetLanguage) {
        ghost var a := StartedRun(env);
        assert RunOf(targetLanguage, env) == Finish(a);
      }
    }

    /** The page after run `r`, which found the progress log `log`: not
        loading, every progress value of the run logged, the last one shown,
        and either the data URI and no error, or no result and the error
        message. */
    ghost predicate Settled(log: seq<int>, r: Run)
      reads this
    {
      !isLoading && |r.progressSet| >= 1 &&
      progressLog == log + r.progressSet &&
      progress == r.progressSet[|r.progressSet| - 1] &&
      currentProgressStep == r.stepText &&
      match r.outcome
      case Succeeded(uri) => populatedDocumentDataUri == Some(uri) && error == None
      case Failed(m) => populatedDocumentDataUri == None && error == Some(m)
    }

    /** A run that passed the guard: the resets and the initial 5, the
        stages, the `catch`, the `finally`. */
    method StartedRun(env: Env) returns (ghost a: Attempt)
      modifies this`isLoading, this`error, this`populatedDocumentDataUri
      modifies this`progress, this`progressLog, this`currentProgressStep
      ensures a == TryBlock(targetLanguage, env)
      ensures Settled(old(progressLog), Finish(a))
    {
      BeginRun();
      var thrown;
      thrown, a := TryStages(env);
      CatchAndFinally(thrown, old(progressLog), a);
    }

    /** What a run does before any extraction: loading, no error, no
        result, progress 5. */
    method BeginRun()
      modifies this`isLoading, this`error, this`populatedDocumentDataUri, this`progress, this`progressLog
      ensures isLoading && error == None && populatedDocumentDataUri == None
      ensures progress == 5 && progressLog == old(progressLog) + [5]
    {
      isLoading := true;
      error := None;
      populatedDocumentDataUri := None;
      SetProgress(5);
    }

    /** The `catch` (error message, progress 0) and the `finally` (no
        longer loading), after the `try` block `a` of a run that found the
        progress log `log`. */
    method CatchAndFinally(thrown: Option<Thrown>, ghost log: seq<int>, ghost a: Attempt)
      requires StagedAttempt(a) && progressLog == log + [5] + a.progressSet
      requires progress == (if a.progressSet == [] then 5 else a.progressSet[|a.progressSet| - 1])
      requires currentProgressStep == a.stepText
      requires match a.result
        case Done(uri) => thrown == None && populatedDocumentDataUri == Some(uri) && error == None
        case Throws(t) => thrown == Some(t) && populatedDocumentDataUri == None
      modifies this`error, this`progress, this`progressLog, this`isLoading
      ensures Settled(log, Finish(a))
    {
      ghost var tried := progressLog;
      if thrown.Some? {
        error := Some(ErrorMessage(thrown.value));
        SetProgress(0);
      }
      isLoading := false;
      if thrown.Some? {
        FailedRunSettles(log, a, log + [5], tried);
      } else {
        SucceededRunSettles(log, a, log + [5]);
      }
    }

    /** The state a `try` block that returned and the `finally` leave is
        the settled state of the successful run they make up. */
    lemma SucceededRunSettles(log: seq<int>, a: Attempt, started: seq<int>)
      requires StagedAttempt(a) && a.result.Done? && !isLoading
      requires populatedDocumentDataUri == Some(a.result.value) && error == None
      requires started == log + [5] && progressLog == started + a.progressSet
      requires progress == a.progressSet[|a.progressSet| - 1] && currentProgressStep == a.stepText
      ensures Settled(log, Finish(a))
    {
    }

    /** The state a `try` block that threw, the `catch` and the `finally`
        leave is the settled state of the failed run they make up. */
    lemma FailedRunSettles(log: seq<int>, a: Attempt, started: seq<int>, tried: seq<int>)
      requires StagedAttempt(a) && a.result.Throws? && !isLoading
      requires populatedDocumentDataUri == None && error == Some(ErrorMessage(a.result.thrown))
      requires started == log + [5] && tried == started + a.progressSet && progressLog == tried + [0]
      requires progress == 0 && currentProgressStep == a.stepText
      ensures Settled(log, Finish(a))
    {
    }

    /** The effect on `isLoading`: while loading, (re)start the ticker;
        otherwise stop it and reset the progress and the step text. */
    method LoadingEffect()
      modifies this`tickerActive, this`progress, this`progressLog, this`currentProgressStep
      ensures tickerActive == isLoading
      ensures isLoading ==> progress == old(progress) && progressLog == old(progressLog) && currentProgressStep == old(currentProgressStep)
      ensures !isLoading ==> progress == 0 && progressLog == old(progressLog) + [0] && currentProgressStep == ""
    {
      if isLoading {
        tickerActive := true;
      } else {
        tickerActive := false;
        SetProgress(0);
        currentProgressStep := "";
      }
    }

    /** One firing of the ticker's interval. */
    method TickerFires()
      modifies this`tickerActive, this`progress, this`progressLog
      ensures !old(tickerActive) ==> progress == old(progress) && progressLog == old(progressLog) && !tickerActive
      ensures old(tickerActive) ==>
        progress == Tick(old(progress)) && progressLog == old(progressLog) + [progress] &&
        tickerActive == !TickerStops(old(progress))
    {
      if tickerActive {
        if TickerStops(progress) {
          tickerActive := false;
        }
        SetProgress(Tick(progress));
      }
    }

    /** A click followed by the effect that the change of `isLoading`
        triggers: a run that started leaves the page not loading, with the
        ticker stopped, the progress back at 0 and no step text, and with
        the run's result or error in place. */
    method ProcessAndSettle(env: Env)
      modifies this`isLoading, this`error, this`populatedDocumentDataUri, this`tickerActive
      modifies this`progress, this`progressLog, this`currentProgressStep
      ensures CanStart(old(pdfFile), old(templateFile), old(targetLanguage)) ==>
        Idle(old(progressLog), RunOf(old(targetLanguage), env))
      ensures !CanStart(old(pdfFile), old(templateFile), old(targetLanguage)) ==> unchanged(this)
    {
      if CanStart(pdfFile, templateFile, targetLanguage) {
        ghost var r := RunOf(targetLanguage, env);
        HandleProcessDocuments(env);
        ghost var settled := progressLog;
        SettledIsNotLoading(old(progressLog), r);
        LoadingEffect();
        IdleAfterSettled(old(progressLog), r, settled);
      } else {
        HandleProcessDocuments(env);
      }
    }

    /** The page once a run `r`, which found the progress log `log`, has
        settled and the effect has run: not loading, the ticker stopped,
        the progress back at 0 and no step text, and the run's result or
        error in place. */
    ghost predicate Idle(log: seq<int>, r: Run)
      reads this
    {
      !isLoading && !tickerActive && progress == 0 && currentProgressStep == "" &&
      progressLog == log + r.progressSet + [0] &&
      match r.outcome
      case Succeeded(uri) => populatedDocumentDataUri == Some(uri) && error == None
      case Failed(m) => populatedDocumentDataUri == None && error == Some(m)
    }

    lemma SettledIsNotLoading(log: seq<int>, r: Run)
      requires Settled(log, r)
      ensures !isLoading && progressLog == log + r.progressSet
      ensures match r.outcome
        case Succeeded(uri) => populatedDocumentDataUri == Some(uri) && error == None
        case Failed(m) => populatedDocumentDataUri == None && error == Some(m)
    {
    }

    lemma IdleAfterSettled(log: seq<int>, r: Run, settled: seq<int>)
      requires !isLoading && !tickerActive && progress == 0 && currentProgressStep == ""
      requires settled == log + r.progressSet && progressLog == settled + [0]
      requires match r.outcome
        case Succeeded(uri) => populatedDocumentDataUri == Some(uri) && error == None
        case Failed(m) => populatedDocumentDataUri == None && error == Some(m)
      ensures Idle(log, r)
    {
    }
  }
}
