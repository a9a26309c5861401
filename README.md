# LinguaLeap: upload validation and the processing run, in Dafny

LinguaLeap is a web page that takes a PDF and a Word template, sends their
text and a target language to a translation service, and offers the
returned document for download. This project models the two parts of it
that hold logic of their own:

- **The upload widget** (`FileUploadZone`). It validates a picked or
  dropped file: first the size limit (10 MB unless the page passes
  another), then the comma-separated accept list. Each entry is trimmed and
  lower-cased and is one of three kinds: a `.ext` extension, a `type/*`
  wildcard or an exact MIME type. The widget also keeps a one-slot selection
  and reports every change to its parent. `Validate` is a pure function.
  `UploadZone` is a class whose methods update the selection, the hidden
  input's value while it is rendered (there is none while a file is
  shown in its place) and the list of notifications sent to the parent.
- **The page** (`Page`). It holds:
  - the guard on the button;
  - the staged run of `handleProcessDocuments` over the page state, as the
    class `PageState`;
  - the progress ticker;
  - the space-joined text of the PDF's first page;
  - the name offered for the download.

  The PDF decoder, the Word decoder, the HTTP call, the JSON body and the
  data-URI encoder are inputs of the run (`Env`): each one either returns a
  value or throws.

A run is specified twice:
- as a value: `TryBlock` and `AiAttempt` give what the `try` block does,
  `Finish` adds the initial 5 and the `catch`, and `RunOf` is the whole run;
- as imperative methods on `PageState` that write the fields step by step.

The methods are proved to leave exactly the state the value describes. The
lemmas about `RunOf` then give the properties of every run:
- the order of the progress values;
- when a run succeeds;
- the two fixed failure messages;
- what a throw turns into.

`Text` models the JavaScript string operations the code calls:
- `trim`, with the ECMAScript white-space and line-terminator set;
- `toLowerCase`, on ASCII letters;
- `split` and `join` with a one-character separator;
- `startsWith` and `endsWith`.

It also defines `LastIndexOf`. The code never calls `lastIndexOf`: it takes
`split('.').pop()`. `LastIndexOf` is the helper the model uses to say "the
text after the last separator", so that the lemmas can state what
`split(...).pop()` yields. `Split` is defined from the last separator. `SplitJoin` and `JoinSplit`
prove that this gives the one decomposition into separator-free pieces that
JavaScript's `split` produces.

Three behaviours a reader might expect of such a page are not what the
code does. The model follows the code in each of them:
- Failures do not keep distinct kinds (a decoding failure, a rejected
  request, an empty reply). The code turns every failure into one message:
  the thrown `Error`'s message, or a fixed text.
- Progress is not non-decreasing within a run. The code sets progress to
  0 on failure, and the ticker can pull a final 100 back to 95
  (`TickAfterCompletion`).
- No request builder rejects a blank language. Only the page's guard
  refuses to start, and the language is sent as typed, untrimmed
  (`SuccessIff`).

## Model

| member | source | states |
|---|---|---|
| FileUploadZone.DefaultLimit | src/components/app/file-upload-zone.tsx:28 | without an explicit limit, the largest accepted size is 10 × 1024 × 1024 bytes |
| FileUploadZone.MaxFileSizeMB | src/components/app/file-upload-zone.tsx:28 | a definition: the limit the parent passes, or 10 when it passes none |
| FileUploadZone.SizeLimit | src/components/app/file-upload-zone.tsx:36 | a definition: the limit in megabytes times 1024 × 1024, in bytes |
| FileUploadZone.Validate | src/components/app/file-upload-zone.tsx:35-68 | a file is rejected for size iff it is larger than the limit in bytes; it is accepted iff it is within the limit and some accept entry matches its extension or lower-cased MIME type; a wrong-type rejection names the lower-cased MIME type, or the extension when the type is empty |
| FileUploadZone.SizeCheckedFirst | src/components/app/file-upload-zone.tsx:36-43 | an oversize file is rejected whatever the accept list; a file of exactly the limit is not rejected for its size |
| FileUploadZone.AcceptEntries | src/components/app/file-upload-zone.tsx:45 | one entry per comma-separated piece of the accept list, each free of commas and upper-case letters and with no white space at either end |
| FileUploadZone.AcceptEntryIsCleanedPiece | src/components/app/file-upload-zone.tsx:45 | each entry is its piece of the accept list split on ',', trimmed and lower-cased |
| FileUploadZone.CleanedPiece | src/components/app/file-upload-zone.tsx:45 | trimming and lower-casing a piece without commas gives a clean entry |
| FileUploadZone.CleanEntryIsFixed | src/components/app/file-upload-zone.tsx:45 | trimming and lower-casing an entry that is already clean leaves it as it is |
| FileUploadZone.AnyEntryMatches | src/components/app/file-upload-zone.tsx:49-57 | `some` over the entries holds iff some entry matches; no entries means no match |
| FileUploadZone.EntryMatches | src/components/app/file-upload-zone.tsx:50-56 | a definition of the three branches: an entry starting with '.' must equal the extension; an entry ending in `/*` must be a prefix of the MIME type once its last two characters are cut; any other entry must equal the MIME type |
| FileUploadZone.FileExtension | src/components/app/file-upload-zone.tsx:46 | a definition: '.' and the lower-cased last piece of the name split on '.'; ExtensionIsAfterLastDot states what that piece is |
| FileUploadZone.ExtensionEntryAccepts | src/components/app/file-upload-zone.tsx:45-57 | a file within the limit is accepted once some entry of the accept list equals its extension |
| FileUploadZone.AfterLastDot | src/components/app/file-upload-zone.tsx:46 | a reference definition: the text after the last '.' of a name, or the whole name when there is none |
| FileUploadZone.ExtensionIsAfterLastDot | src/components/app/file-upload-zone.tsx:46 | the extension is '.' and the lower-cased text after the last '.' of the name (the whole name when it has none) |
| FileUploadZone.ExtensionAfterLastDot | src/components/app/file-upload-zone.tsx:46 | for a name `stem.ext` whose `ext` has no '.', the extension is '.' and `ext` lower-cased |
| FileUploadZone.LowerExtension | src/components/app/file-upload-zone.tsx:46 | a last piece whose lower-cased form has no '.' gives the extension '.' and that lower-cased form |
| FileUploadZone.ExtensionEntrySemantics | src/components/app/file-upload-zone.tsx:50-52 | an entry starting with '.' admits a file iff it equals '.' and the lower-cased text after the last '.' of the name |
| FileUploadZone.LastDotOfLower | src/components/app/file-upload-zone.tsx:46 | lower-casing a name keeps the position of its last '.' |
| FileUploadZone.AfterLastDotOfLower | src/components/app/file-upload-zone.tsx:46 | the text after the last '.' of the lower-cased name is the lower-cased text after the last '.' |
| FileUploadZone.ExtensionCaseInsensitive | src/components/app/file-upload-zone.tsx:46 | a name and its lower-cased form have the same extension |
| FileUploadZone.NameWithoutDot | src/components/app/file-upload-zone.tsx:46 | a name with no '.' is its own extension: `PDF` gives `.pdf` |
| FileUploadZone.WildcardIsBarePrefix | src/components/app/file-upload-zone.tsx:53-55 | for every `t` not starting with '.', the entry `t` + `/*` admits a file iff its lower-cased MIME type starts with `t`: the slash is dropped too, so the entry for all images admits `imagery/x` |
| FileUploadZone.EmptyEntryAdmitsUntypedFiles | src/components/app/file-upload-zone.tsx:45-57 | an empty accept list yields one empty entry, which admits every file within the limit whose MIME type is empty |
| FileUploadZone.UploadZone.constructor | src/components/app/file-upload-zone.tsx:21-32 | a new widget has no selection, a rendered, empty input and no notifications, and its limit is the given one or 10 |
| FileUploadZone.UploadZone.InputMounted | src/components/app/file-upload-zone.tsx:131-178 | a definition: a file input is rendered, and with it the ref is set; Consistent requires that to hold exactly while no file is selected |
| FileUploadZone.UploadZone.Consistent | src/components/app/file-upload-zone.tsx:30-178 | the widget's invariant: a selection is always a file that passes validation, the parent was last told exactly the current selection, and the input is rendered exactly while no file is selected; every handler ends in it and OnDrop requires it |
| FileUploadZone.UploadZone.Rerender | src/components/app/file-upload-zone.tsx:131-178 | the render after a handler: with a selection there is no input; without one the rendered input keeps its value, or a new, empty input is mounted |
| FileUploadZone.UploadZone.PickedValue | src/components/app/file-upload-zone.tsx:105-111 | a definition: the chosen file's name, standing for the path string the browser writes into the input on a choice, or nothing when the choice was cancelled |
| FileUploadZone.UploadZone.HandleFileSelect | src/components/app/file-upload-zone.tsx:70-81 | the selection becomes the file iff it is present and valid, otherwise none (a previous valid selection is dropped); the parent is told the new selection; on rejection a mounted input is cleared; after the render there is no input when a file was kept and an empty one otherwise; the widget ends consistent |
| FileUploadZone.UploadZone.ClearFile | src/components/app/file-upload-zone.tsx:113-119 | the selection becomes none and the parent is told none; a mounted input is cleared, and otherwise (the Clear button is shown only beside a selection, so always in practice) the render mounts a new one, so the input is rendered and empty |
| FileUploadZone.UploadZone.OnFileInputChange | src/components/app/file-upload-zone.tsx:105-111 | the browser first writes the choice into the mounted input; the first chosen file is then handled as a selection, and a cancelled choice as none; after the render an accepted choice leaves no input and a rejected one an empty input; the widget ends consistent |
| FileUploadZone.UploadZone.OnDrop | src/components/app/file-upload-zone.tsx:83-91 | the first dropped file is handled as a selection, ending with no input when it is kept and an empty one otherwise; a drop without files changes nothing; a consistent widget stays consistent |
| Text.IsWhitespace | src/components/app/file-upload-zone.tsx:45 | a definition: the ECMAScript WhiteSpace and LineTerminator code points, the set `trim` removes (also page.tsx:54 and page.tsx:144) |
| Text.TrimStart | src/components/app/file-upload-zone.tsx:45 | the result is a suffix of the input that does not start with white space |
| Text.TrimStartDropsWhitespace | src/components/app/file-upload-zone.tsx:45 | what trimming the start drops is white space |
| Text.TrimEnd | src/components/app/file-upload-zone.tsx:45 | the result is a prefix of the input that does not end with white space |
| Text.TrimEndDropsWhitespace | src/components/app/file-upload-zone.tsx:45 | what trimming the end drops is white space |
| Text.Trim | src/components/app/file-upload-zone.tsx:45 | a definition: the end trim of the start trim; TrimIsInnerSlice and TrimEmptyIff state what it yields |
| Text.TrimIsInnerSlice | src/components/app/file-upload-zone.tsx:45 | `trim` gives a contiguous slice of its input; only white space is cut on either side, and neither end of the result is white space |
| Text.TrimAbsent | src/components/app/file-upload-zone.tsx:45 | a character absent from the input is absent from the trimmed string |
| Text.TrimEmptyIff | src/app/page.tsx:54 | a string trims to the empty string iff all of it is white space |
| Text.TrimKeepsTrimmed | src/components/app/file-upload-zone.tsx:45 | a string with no white space at either end trims to itself |
| Text.ToLower | src/components/app/file-upload-zone.tsx:45-47 | same length, no upper-case letter in the result, every other character kept in place, and every upper-case letter mapped to its own lower-case letter, 32 code points later (`A` to `a`, ..., `Z` to `z`) |
| Text.LowerChar | src/components/app/file-upload-zone.tsx:45-47 | a definition: an ASCII capital goes to the letter 32 code points later, every other character to itself |
| Text.ToLowerKeepsLowerCase | src/components/app/file-upload-zone.tsx:45-47 | a string with no upper-case letter lower-cases to itself |
| Text.ToLowerIdempotent | src/components/app/file-upload-zone.tsx:45-47 | lower-casing twice is lower-casing once |
| Text.ToLowerSlice | src/components/app/file-upload-zone.tsx:46 | lower-casing commutes with slicing |
| Text.LowerCharKeeps | src/components/app/file-upload-zone.tsx:46 | lower-casing maps a character that is no letter to itself and nothing else onto it |
| Text.ToLowerAbsent | src/components/app/file-upload-zone.tsx:45 | a character that is no letter stays absent after lower-casing |
| Text.StartsWith | src/components/app/file-upload-zone.tsx:50 | a definition of `startsWith`: the prefix is no longer than the string and equals its first characters |
| Text.EndsWith | src/components/app/file-upload-zone.tsx:53 | a definition of `endsWith`: the suffix is no longer than the string and equals its last characters |
| Text.LastIndexOf | src/components/app/file-upload-zone.tsx:46 | a helper, not a call of the code: -1 iff the character does not occur, otherwise the position of its last occurrence, which is where `split('.').pop()` takes the last piece from |
| Text.Split | src/components/app/file-upload-zone.tsx:45 | at least one piece, and no piece holds the separator |
| Text.Join | src/app/page.tsx:74 | a definition of `join`: the pieces with one separator between neighbours, nothing for no pieces; SplitJoin and JoinSplit tie it to `Split` |
| Text.SplitJoin | src/components/app/file-upload-zone.tsx:45 | joining the pieces of a split with the separator gives the input back |
| Text.JoinSplit | src/app/page.tsx:74 | splitting a join of separator-free pieces gives the pieces back |
| Text.SplitAtLast | src/app/page.tsx:141-143 | the last piece of a split is the text after the last separator (the whole string when there is none), and the other pieces join to the text before it (or to nothing) |
| Text.SplitConcat | src/components/app/file-upload-zone.tsx:45 | splitting across one separator gives the pieces of the text before it, then the pieces of the text after it |
| Page.PdfAcceptPieces | src/app/page.tsx:167 | the PDF zone's accept list splits into `.pdf` and `application/pdf` |
| Page.PdfAcceptFirstEntry | src/app/page.tsx:167 | the first entry of the PDF zone is `.pdf` |
| Page.PdfEntryIsClean | src/app/page.tsx:167 | cleaning `.pdf` leaves `.pdf` |
| Page.DocxEntryIsClean | src/app/page.tsx:177 | cleaning `.docx` leaves `.docx` |
| Page.PdfZoneTakesAnyCaseOfPdf | src/app/page.tsx:163-171 | the PDF zone takes any file whose name ends in '.' and some casing of `pdf` (`REPORT.PDF`), up to 5 MB and of any declared type |
| Page.TemplateZoneTakesAnyCaseOfDocx | src/app/page.tsx:173-180 | the template zone takes any file whose name ends in '.' and some casing of `docx` (`Letter.DOCX`), up to 2 MB and of any declared type |
| Page.TemplateAcceptSecondEntry | src/app/page.tsx:177 | the second entry of the template zone is `.docx` |
| Page.SecondEntryIsDocx | src/app/page.tsx:177 | an accept list that starts with `.doc,.docx,` has `.docx` as its second entry, whatever follows |
| Page.WordExtensionsPieces | src/app/page.tsx:177 | `.doc,.docx` splits into `.doc` and `.docx` |
| Page.Strs | src/app/page.tsx:74 | a definition of `.map(item => item.str)`: the items' strings, in order |
| Page.PdfText | src/app/page.tsx:74 | a definition: the items' strings in order, joined with one space |
| Page.PdfTextRecoversItems | src/app/page.tsx:72-74 | when no text item holds a space, splitting the PDF text on spaces gives back the items' strings in order |
| Page.TryBlock | src/app/page.tsx:68-123 | the `try` block sets a prefix of 30, 50, 70, 90, 100, all five exactly when it returns a data URI |
| Page.AiAttempt | src/app/page.tsx:82-123 | the AI stage sets a non-empty prefix of 70, 90, 100, all three exactly when it returns a data URI |
| Page.Truthy | src/app/page.tsx:109 | a definition: content is truthy iff it is present and not the empty string |
| Page.ErrorMessage | src/app/page.tsx:126 | a definition: an `Error`'s own message, or the fixed unknown-error text for any other thrown value |
| Page.Finish | src/app/page.tsx:63-136 | a definition: the initial 5 before the `try` block's values, then, when it threw, the `catch`'s 0 and the error message |
| Page.RunOf | src/app/page.tsx:63-136 | a definition: `Finish` of the `try` block; RunIsWellStaged, SuccessIff and the failure lemmas state what it yields |
| Page.FinishIsWellStaged | src/app/page.tsx:124-136 | with the initial 5 before a `try` block and the `catch` after it, a run has the staged shape |
| Page.RunIsWellStaged | src/app/page.tsx:63-136 | every run starts at 5; a success sets exactly 5, 30, 50, 70, 90, 100; a failure sets a proper prefix of those and then 0; 100 is set iff the run succeeds |
| Page.WellStagedIncreases | src/app/page.tsx:66-113 | the stage values of a run of the staged shape rise strictly |
| Page.StageValuesIncrease | src/app/page.tsx:66-113 | the stage values of every run rise strictly |
| Page.SuccessIff | src/app/page.tsx:68-123 | a run succeeds with a URI iff both decoders return, the response is ok, its JSON parses, its content is non-empty and the encoder returns that URI; the request carries the PDF text, the template text and the untrimmed language |
| Page.NotOkFails | src/app/page.tsx:102-104 | a response that is not ok fails with `Failed to process documents` after 5, 30, 50, 70 |
| Page.EmptyContentFails | src/app/page.tsx:109-122 | missing or empty content fails with `AI processing did not return valid content.` after 5, 30, 50, 70, 90 |
| Page.ExtractionThrowFails | src/app/page.tsx:124-133 | a decoder that throws fails the run with the `Error`'s message, or the unknown-error text for other thrown values, and the progress drops to 0 |
| Page.CanStart | src/app/page.tsx:54-61 | a run starts iff both files are present and the language has a character that is not white space |
| Page.ButtonDisabled | src/app/page.tsx:220 | the button is disabled while loading, and otherwise exactly when a run could not start |
| Page.TickerStops | src/app/page.tsx:39-41 | a definition of the updater's `prev >= 95` test, on which it returns 95 and clears the interval |
| Page.Tick | src/app/page.tsx:38-44 | a definition of the updater: 95 from 95 or more, otherwise five more |
| Page.TickerRun | src/app/page.tsx:37-45 | a definition: `n` firings of the updater, the last one being the firing that stops the interval; TickerClimbs gives its closed form |
| Page.TickerClimbs | src/app/page.tsx:37-45 | from a multiple of five up to 95, `n` firings give the smaller of `p + 5n` and 95 |
| Page.TickerOvershoots | src/app/page.tsx:38-44 | from 94, one firing gives 99 and the next 95 |
| Page.TickAfterCompletion | src/app/page.tsx:38-44 | a firing at 100 gives 95 and stops the ticker |
| Page.LanguageTag | src/app/page.tsx:144 | a definition: the trimmed, lower-cased language, or `translated` when that is empty |
| Page.DownloadFileName | src/app/page.tsx:139-147 | a definition of `getDownloadFileName`: the template's pieces on '.', the last popped as the extension and the rest joined with '.'; DownloadFileNameCutsAtLastDot states it by the last '.' |
| Page.BeforeLastDot | src/app/page.tsx:141-143 | a reference definition: the text before the last '.' of a name, or nothing when there is none |
| Page.DownloadFileNameCutsAtLastDot | src/app/page.tsx:139-145 | with a template, the name is `LinguaLeap_` + the template name before its last '.' + `_` + the language tag + '.' + the text after the last '.' (or `docx` when that is empty) |
| Page.DownloadFileNameWithoutTemplate | src/app/page.tsx:146 | without a template, the name is `LinguaLeap_Translated_Document.docx` |
| Page.InnerDotsName | src/app/page.tsx:141-143 | inner dots stay in the base: `a.b.docx` is cut into `a.b` and `docx` |
| Page.PageState.constructor | src/app/page.tsx:24-31 | the initial page state: nothing chosen, not loading, no error, no result, progress 0, no step text |
| Page.PageState.SetProgress | src/app/page.tsx:30 | the progress becomes the value, and the value is logged |
| Page.PageState.BeginRun | src/app/page.tsx:63-66 | before any extraction the page is loading, with no error, no result and progress 5 |
| Page.PageState.TryStages | src/app/page.tsx:68-123 | the `try` block logs exactly the progress values of `TryBlock`, leaves its step text, and returns its throw or stores its data URI |
| Page.PageState.AiStage | src/app/page.tsx:82-123 | the AI stage logs exactly the progress values of `AiAttempt`, leaves its step text, and returns its throw or stores its data URI |
| Page.PageState.CatchAndFinally | src/app/page.tsx:124-136 | after a throw the error is its message and progress 0; in every case loading ends; the page is then the settled state of the run |
| Page.PageState.SucceededRunSettles | src/app/page.tsx:134-136 | a `try` block that returned, followed by the `finally`, leaves the settled state of a successful run |
| Page.PageState.FailedRunSettles | src/app/page.tsx:124-136 | a `try` block that threw, followed by the `catch` and the `finally`, leaves the settled state of a failed run |
| Page.PageState.StartedRun | src/app/page.tsx:63-136 | a started run leaves the page settled on `RunOf`: not loading, its progress values logged, and either the URI with no error or no URI with the error message |
| Page.PageState.HandleProcessDocuments | src/app/page.tsx:53-137 | when the guard fails nothing changes; otherwise the page settles on the run, with the files and the language untouched |
| Page.PageState.LoadingEffect | src/app/page.tsx:35-51 | while loading the ticker runs; otherwise it is stopped, progress is 0 and the step text is empty |
| Page.PageState.TickerFires | src/app/page.tsx:37-45 | a running ticker applies one step to the progress, and stops once it has seen 95 or more |
| Page.PageState.ProcessAndSettle | src/app/page.tsx:35-137 | a run and the effect that follows leave the page idle: not loading, ticker stopped, progress 0, no step text, and the run's result or error in place |

## Left out

- Decoding is not modelled. The PDF decoder (`pdfjs-dist`), the Word decoder (`mammoth`), `arrayBuffer`, `Blob` and `fileToDataUri` are foreign libraries and I/O. Their results, or their throws, are inputs of a run (`Env`).
- The HTTP call to `/api/process` is an input of a run. The route handler in `src/app/api/process/route.ts` is not part of this model.
- The generative-model flow and its configuration in `src/ai/` are an opaque remote call and are not part of this model.
- The 300 ms ticker is not interleaved with the explicit progress writes, because that depends on asynchronous scheduling. Only its step function and its undisturbed runs are modelled, so a run's progress is treated as atomic.
- Toasts, `console.error`, JSX rendering, the drag-over highlight, `onDragOver`/`onDragLeave`, `preventDefault` and `clearData` are presentation only.
- The page's plain setters are not modelled as methods of their own: `setPdfFile` and `setTemplateFile` (handed to the widgets as `onFileChange`) and `setTargetLanguage`.
- The link between a widget's notifications and the page's file fields is not modelled.
- React state updates take effect at once, and React's batching of them is not modelled. Of the re-rendering, only the widget's mounting and removal of its file input is modelled (`UploadZone.Rerender`).
- Text.ToLower, Text.LowerChar: only the ASCII letters A to Z are mapped. The full Unicode case mapping of `toLowerCase` is not modelled.
- FileUploadZone.UploadZone.OnFileInputChange, FileUploadZone.UploadZone.PickedValue: the browser writes a path string into a file input (such as `C:\fakepath\` and the file's name). The model stands for it by the chosen file's name.
- Strings are sequences of Dafny characters, not UTF-16 code units, so surrogate pairs are not modelled.
- FileUploadZone.Validate: sizes and limits are natural numbers. A fractional or negative `maxFileSizeMB` is not modelled.
- Page.TryBlock: `translatedContent` is treated as either absent or a string. Other truthy JSON values, such as numbers or objects, are not modelled.
- Page.TryBlock: a JSON body of `null` is not modelled. The code would throw a `TypeError` when it reads `translatedContent`, after setting 90. Other non-object bodies (a number, a string, a boolean) have no such field, so they read as absent content, which `Reply(Absent)` covers.
