/** The upload widget: the check that decides whether a picked or dropped
    file is accepted (size limit, then the comma-separated accept list), and
    the one-slot selection it keeps and reports to its parent. */
module FileUploadZone {
  import opened Wrappers
  import opened Text

  /** What the widget reads of a browser `File`: its name, its declared
      MIME type (`file.type`, possibly empty) and its size in bytes. */
  datatype FileInfo = FileInfo(name: string, mimeType: string, size: nat)

  /** Why a file was turned away, or that it was accepted. The toast shown on
      a wrong type names `uploaded`: the lower-cased MIME type, or the
      extension when the type is empty. */
  datatype Verdict = Accepted | TooLarge | WrongType(uploaded: string)

  /** The size limit, in megabytes, when the parent passes none. */
  const DefaultMaxFileSizeMB: nat := 10

  function MaxFileSizeMB(prop: Option<nat>): nat {
    match prop
    case Some(mb) => mb
    case None => DefaultMaxFileSizeMB
  }

  /** The largest accepted size in bytes. */
  function SizeLimit(maxMB: nat): nat {
    maxMB * 1024 * 1024
  }

  /** An accept-list entry: no comma, no upper-case letter, and no
      whitespace at either end. */
  predicate IsCleanEntry(e: string) {
    ',' !in e &&
    (forall m :: 0 <= m < |e| ==> !IsUpper(e[m])) &&
    (e == [] || (!IsWhitespace(e[0]) && !IsWhitespace(e[|e| - 1])))
  }

  /** Trimming and then lower-casing a piece without commas gives a clean
      entry. */
  lemma CleanedPiece(piece: string)
    requires ',' !in piece
    ensures IsCleanEntry(ToLower(Trim(piece)))
  {
    var t := Trim(piece);
    TrimAbsent(piece, ',');
    ToLowerAbsent(t, ',');
    TrimEnds(piece);
    ToLowerKeepsEnds(t);
  }

  /** Cleaning an entry that is already clean leaves it as it is. */
  lemma CleanEntryIsFixed(e: string)
    requires IsCleanEntry(e)
    ensures ToLower(Trim(e)) == e
  {
    TrimKeepsTrimmed(e);
    ToLowerKeepsLowerCase(e);
  }

  /** The accept list as the validator sees it: the pieces between commas,
      each trimmed and lower-cased. */
  function AcceptEntries(accept: string): (r: seq<string>)
    ensures |r| == |Split(accept, ',')|
    ensures forall k :: 0 <= k < |r| ==> IsCleanEntry(r[k])
  {
    var pieces := Split(accept, ',');
    assert forall k :: 0 <= k < |pieces| ==> IsCleanEntry(ToLower(Trim(pieces[k]))) by {
      forall k | 0 <= k < |pieces| ensures IsCleanEntry(ToLower(Trim(pieces[k]))) {
        CleanedPiece(pieces[k]);
      }
    }
    seq(|pieces|, k requires 0 <= k < |pieces| => ToLower(Trim(pieces[k])))
  }

  /** Each entry is its piece of the accept list, trimmed and lower-cased. */
  lemma AcceptEntryIsCleanedPiece(accept: string, k: nat)
    requires k < |Split(accept, ',')|
    ensures AcceptEntries(accept)[k] == ToLower(Trim(Split(accept, ',')[k]))
  {
  }

  /** The text after the last '.' of a name, or the whole name when it has
      no '.'. */
  function AfterLastDot(name: string): string {
    var j := LastIndexOf(name, '.');
    if j == -1 then name else name[j + 1..]
  }

  /** The file's "extension" as the validator builds it: a '.' followed by
      the lower-cased last piece of the name split on '.'. */
  function FileExtension(name: string): string {
    var parts := Split(name, '.');
    "." + ToLower(parts[|parts| - 1])
  }

  /** Whether one accept-list entry admits a file with the given extension
      and lower-cased MIME type: an entry starting with '.' compares
      extensions, an entry ending in a slash and a star is a bare prefix test
      on the MIME type, any other entry must equal the MIME type. */
  predicate EntryMatches(entry: string, extension: string, mime: string) {
    if StartsWith(entry, ".") then extension == entry
    else if EndsWith(entry, "/*") then StartsWith(mime, entry[..|entry| - 2])
    else mime == entry
  }

  /** `entries.some(...)`: some entry admits the file. */
  function AnyEntryMatches(entries: seq<string>, extension: string, mime: string): (r: bool)
    ensures r <==> exists k :: 0 <= k < |entries| && EntryMatches(entries[k], extension, mime)
    decreases |entries|
  {
    if entries == [] then false
    else if EntryMatches(entries[0], extension, mime) then true
    else
      var rest := AnyEntryMatches(entries[1..], extension, mime);
      assert forall k :: 1 <= k < |entries| ==> entries[k] == entries[1..][k - 1];
      rest
  }

  /** `handleFileValidation`: the size check first, then the accept list. */
  function Validate(f: FileInfo, accept: string, maxMB: nat): (v: Verdict)
    ensures v == TooLarge <==> f.size > SizeLimit(maxMB)
    ensures v == Accepted <==>
      f.size <= SizeLimit(maxMB) &&
      exists k :: 0 <= k < |AcceptEntries(accept)| &&
        EntryMatches(AcceptEntries(accept)[k], FileExtension(f.name), ToLower(f.mimeType))
    ensures v.WrongType? ==>
      v.uploaded == if ToLower(f.mimeType) != "" then ToLower(f.mimeType) else FileExtension(f.name)
  {
    if f.size > SizeLimit(maxMB) then TooLarge
    else
      var extension := FileExtension(f.name);
      var mime := ToLower(f.mimeType);
      if AnyEntryMatches(AcceptEntries(accept), extension, mime) then Accepted
      else WrongType(if mime != "" then mime else extension)
  }

  /** An oversize file is rejected whatever the accept list says, and a
      file of exactly the limit is not rejected for its size. */
  lemma SizeCheckedFirst(f: FileInfo, accept1: string, accept2: string, maxMB: nat)
    ensures f.size > SizeLimit(maxMB) ==>
      Validate(f, accept1, maxMB) == TooLarge && Validate(f, accept2, maxMB) == TooLarge
    ensures f.size == SizeLimit(maxMB) ==> Validate(f, accept1, maxMB) != TooLarge
  {
  }

  /** Without an explicit limit, files up to ten megabytes pass the size
      check. */
  lemma DefaultLimit()
    ensures SizeLimit(MaxFileSizeMB(None)) == 10485760
  {
  }

  /** A '.'-entry admits a file exactly when it is '.' followed by the
      lower-cased text after the last '.' of the name (the whole name when
      there is no '.'). */
  lemma ExtensionEntrySemantics(entry: string, name: string, mime: string)
    requires StartsWith(entry, ".")
    ensures EntryMatches(entry, FileExtension(name), mime) <==>
      entry == "." + ToLower(AfterLastDot(name))
  {
    ExtensionIsAfterLastDot(name);
  }

  /** The extension is '.' and the lower-cased text after the last '.'. */
  lemma ExtensionIsAfterLastDot(name: string)
    ensures FileExtension(name) == "." + ToLower(AfterLastDot(name))
  {
    var parts := Split(name, '.');
    SplitAtLast(name, '.');
    assert parts[|parts| - 1] == AfterLastDot(name);
  }

  /** The extension of a name is the text after its last '.', lower-cased
      and with a '.' in front. */
  lemma ExtensionAfterLastDot(stem: string, ext: string)
    requires '.' !in ext
    ensures FileExtension(stem + "." + ext) == "." + ToLower(ext)
  {
    var name := stem + "." + ext;
    assert name == stem + ['.'] + ext;
    LastIndexOfAfter(stem, '.', ext);
    SplitAtLast(name, '.');
    assert name[|stem| + 1..] == ext;
  }

  /** A last piece whose lower-cased form has no '.' gives the extension
      '.' and that lower-cased form. */
  lemma LowerExtension(stem: string, ext: string)
    requires '.' !in ToLower(ext)
    ensures FileExtension(stem + "." + ext) == "." + ToLower(ext)
  {
    forall k | 0 <= k < |ext| ensures ext[k] != '.' {
      LowerCharKeeps(ext[k], '.');
      assert ToLower(ext)[k] == LowerChar(ext[k]);
    }
    ExtensionAfterLastDot(stem, ext);
  }

  /** Lower-casing keeps the position of the last '.'. */
  lemma {:induction false} LastDotOfLower(s: string)
    ensures LastIndexOf(ToLower(s), '.') == LastIndexOf(s, '.')
    decreases |s|
  {
    if s != [] {
      var t := ToLower(s);
      LowerCharKeeps(s[|s| - 1], '.');
      assert t[|s| - 1] == LowerChar(s[|s| - 1]);
      ToLowerSlice(s, 0, |s| - 1);
      assert s[0..|s| - 1] == s[..|s| - 1];
      assert t[0..|s| - 1] == t[..|t| - 1];
      LastDotOfLower(s[..|s| - 1]);
    }
  }

  /** The extension does not depend on the case of the name: `REPORT.PDF`
      and `report.pdf` give the same extension. */
  lemma ExtensionCaseInsensitive(name: string)
    ensures FileExtension(ToLower(name)) == FileExtension(name)
  {
    ExtensionIsAfterLastDot(name);
    ExtensionIsAfterLastDot(ToLower(name));
    AfterLastDotOfLower(name);
    ToLowerIdempotent(AfterLastDot(name));
  }

  /** Lower-casing a name lower-cases the text after its last '.'. */
  lemma AfterLastDotOfLower(name: string)
    ensures AfterLastDot(ToLower(name)) == ToLower(AfterLastDot(name))
  {
    LastDotOfLower(name);
    var j := LastIndexOf(name, '.');
    if j != -1 {
      ToLowerSlice(name, j + 1, |name|);
      assert name[j + 1..|name|] == name[j + 1..];
      assert ToLower(name)[j + 1..|name|] == ToLower(name)[j + 1..];
    }
  }

  /** A wildcard entry (some `t` followed by a slash and a star) is a bare
      prefix test on `t`: it drops the slash as well as the star, so the
      entry for all images also admits the MIME type `imagery/x`. */
  lemma WildcardIsBarePrefix(t: string, extension: string, mime: string)
    requires !StartsWith(t, ".")
    ensures EntryMatches(t + "/*", extension, mime) <==> StartsWith(mime, t)
  {
    var e := t + "/*";
    assert e[..|e| - 2] == t;
    assert e[|e| - 2..] == "/*";
    if |t| >= 1 {
      assert e[..1] == t[..1];
    } else {
      assert e[..1] == "/";
    }
  }

  /** A file within the limit is accepted once some entry of the accept
      list is exactly its extension. */
  lemma ExtensionEntryAccepts(f: FileInfo, accept: string, maxMB: nat, k: nat)
    requires f.size <= SizeLimit(maxMB)
    requires k < |AcceptEntries(accept)| && AcceptEntries(accept)[k] == FileExtension(f.name)
    ensures Validate(f, accept, maxMB) == Accepted
  {
    var ext := FileExtension(f.name);
    assert StartsWith(ext, ".") by {
      assert ext[..1] == ".";
    }
    assert EntryMatches(AcceptEntries(accept)[k], ext, ToLower(f.mimeType));
  }

  /** A name without a '.' is its own extension, so a file called `PDF`
      passes an accept list that holds `.pdf`. */
  lemma NameWithoutDot()
    ensures FileExtension("PDF") == ".pdf"
  {
    assert LastIndexOf("PDF", '.') == -1;
  }

  /** An empty entry (an empty accept list, or a trailing comma) admits
      every file whose MIME type is empty. */
  lemma EmptyEntryAdmitsUntypedFiles(f: FileInfo, maxMB: nat)
    requires f.mimeType == "" && f.size <= SizeLimit(maxMB)
    ensures Validate(f, "", maxMB) == Accepted
  {
    assert LastIndexOf("", ',') == -1;
    assert AcceptEntries("")[0] == "";
  }

  /** The widget's state: the selected file, the value of the hidden file
      input while it is rendered, and every value handed to the parent's
      `onFileChange`, in order. */
  class UploadZone {
    const acceptedFileTypes: string
    const maxFileSizeMB: nat
    var selectedFile: Option<FileInfo>
    /** The rendered file input's value; None while React renders the
        selected file in its place, and so has no input and a null ref. */
    var input: Option<string>
    var notified: seq<Option<FileInfo>>

    /** The selection is always a file that passes validation, the parent
        was last told about exactly the current selection, and the input is
        rendered exactly while no file is selected. */
    ghost predicate Consistent()
      reads this
    {
      (selectedFile.Some? ==> Validate(selectedFile.value, acceptedFileTypes, maxFileSizeMB) == Accepted) &&
      (notified != [] ==> notified[|notified| - 1] == selectedFile) &&
      (InputMounted() <==> selectedFile.None?)
    }

    constructor (accept: string, maxProp: Option<nat>)
      ensures acceptedFileTypes == accept && maxFileSizeMB == MaxFileSizeMB(maxProp)
      ensures selectedFile == None && input == Some("") && notified == []
      ensures Consistent()
    {
      acceptedFileTypes := accept;
      maxFileSizeMB := MaxFileSizeMB(maxProp);
      selectedFile := None;
      input := Some("");
      notified := [];
    }

    /** What a file input holds after a choice: the first chosen file,
        standing for the browser's path string, or nothing. */
    function PickedValue(files: seq<FileInfo>): string {
      if files != [] then files[0].name else ""
    }

    /** The file input is rendered, and its ref set. */
    predicate InputMounted()
      reads this
    {
      input.Some?
    }

    /** The render after a handler: with a selection the input is removed;
        without one the input is kept, or a new, empty one is mounted. */
    method Rerender()
      modifies this`input
      ensures input == if selectedFile.Some? then None else if old(input).Some? then old(input) else Some("")
    {
      if selectedFile.Some? {
        input := None;
      } else if input.None? {
        input := Some("");
      }
    }

    /** `handleFileSelect`: keep and report a file that passes validation;
        otherwise drop the selection, report null and clear the input when
        it is mounted. After the render the input is gone when a file was
        kept, and is empty otherwise. */
    method HandleFileSelect(file: Option<FileInfo>)
      modifies this`selectedFile, this`notified, this`input
      ensures var ok := file.Some? && Validate(file.value, acceptedFileTypes, maxFileSizeMB) == Accepted;
        selectedFile == (if ok then file else None) &&
        notified == old(notified) + [selectedFile] &&
        input == (if ok then None else Some(""))
      ensures Consistent()
    {
      if file.Some? && Validate(file.value, acceptedFileTypes, maxFileSizeMB) == Accepted {
        selectedFile := file;
        notified := notified + [file];
      } else {
        selectedFile := None;
        notified := notified + [None];
        if InputMounted() {
          input := Some("");
        }
      }
      Rerender();
    }

    /** `clearFile`: drop the selection, report null and clear the input
        when it is mounted. The button is rendered only beside a selection,
        when no input is mounted; the render then mounts a new, empty one. */
    method ClearFile()
      modifies this`selectedFile, this`notified, this`input
      ensures selectedFile == None && notified == old(notified) + [None]
      ensures input == Some("")
      ensures Consistent()
    {
      selectedFile := None;
      notified := notified + [None];
      if InputMounted() {
        input := Some("");
      }
      Rerender();
    }

    /** The input's change event. The browser first writes the choice into
        the mounted input (the first chosen file, or nothing when the choice
        was cancelled); the first chosen file, or null, then goes through
        `handleFileSelect`. */
    method OnFileInputChange(files: seq<FileInfo>)
      modifies this`selectedFile, this`notified, this`input
      ensures var file := if files != [] then Some(files[0]) else None;
        var ok := file.Some? && Validate(file.value, acceptedFileTypes, maxFileSizeMB) == Accepted;
        selectedFile == (if ok then file else None) &&
        notified == old(notified) + [selectedFile] &&
        input == (if ok then None else Some(""))
      ensures Consistent()
    {
      if InputMounted() {
        input := Some(PickedValue(files));
      }
      if files != [] {
        HandleFileSelect(Some(files[0]));
      } else {
        HandleFileSelect(None);
      }
    }

    /** A drop: the first dropped file is handled as a selection; a drop
        carrying no file changes nothing. */
    method OnDrop(files: seq<FileInfo>)
      requires Consistent()
      modifies this`selectedFile, this`notified, this`input
      ensures files == [] ==> selectedFile == old(selectedFile) && notified == old(notified) && input == old(input)
      ensures files != [] ==>
        var ok := Validate(files[0], acceptedFileTypes, maxFileSizeMB) == Accepted;
        selectedFile == (if ok then Some(files[0]) else None) &&
        notified == old(notified) + [selectedFile] &&
        input == (if ok then None else Some(""))
      ensures Consistent()
    {
      if files != [] {
        HandleFileSelect(Some(files[0]));
      }
    }
  }
}
