/** Uno/Models/FileProcessor.swift: the session holding the chosen files, and
    the two ways of processing them — one prompt string of tagged file blocks,
    or one document merging existing PDFs with a rendered page per other file.
    File reads, PDF loading and page rendering are oracles passed in. */
module FileProcessor {
  import opened Wrappers
  import opened Files

  // ---------------------------------------------------------------------------
  // Prompt mode
  // ---------------------------------------------------------------------------

  /** `"<\(filename)>\n\(content)\n</\(filename)>\n\n"`. */
  function Block(name: string, content: string): (b: string)
    ensures |b| == |content| + 2 * |name| + 9
    ensures b[|name| + 3..|name| + 3 + |content|] == content
  {
    "<" + name + ">\n" + content + "\n</" + name + ">\n\n"
  }

  /** What a file adds to the prompt: its block if it reads, nothing otherwise. */
  function Contribution(f: File, read: File -> Option<string>): string {
    match read(f)
    case Some(content) => Block(f.name, content)
    case None => ""
  }

  /** The prompt for a list of files: their contributions, in list order. */
  function Prompt(files: seq<File>, read: File -> Option<string>): string {
    if |files| == 0 then "" else Contribution(files[0], read) + Prompt(files[1..], read)
  }

  lemma {:induction false} PromptAppend(a: seq<File>, b: seq<File>, read: File -> Option<string>)
    ensures Prompt(a + b, read) == Prompt(a, read) + Prompt(b, read)
  {
    if |a| == 0 {
      assert a + b == b;
    } else {
      assert (a + b)[1..] == a[1..] + b;
      PromptAppend(a[1..], b, read);
    }
  }

  /** An unreadable file contributes nothing, wherever it stands. */
  lemma UnreadableFileSkipped(a: seq<File>, f: File, b: seq<File>, read: File -> Option<string>)
    requires read(f).None?
    ensures Prompt(a + [f] + b, read) == Prompt(a + b, read)
  {
    PromptAppend(a + [f], b, read);
    PromptAppend(a, [f], read);
    PromptAppend(a, b, read);
  }

  /** `"Error reading file: \(url.lastPathComponent)"`. */
  function ReadError(f: File): string {
    "Error reading file: " + f.name
  }

  /** `i` is the last index below `k` whose file cannot be read. */
  ghost predicate LastUnreadableBelow(files: seq<File>, read: File -> Option<string>, k: nat, i: nat) {
    && i < k <= |files|
    && read(files[i]).None?
    && forall j | i < j < k :: read(files[j]).Some?
  }

  /** The error the loop leaves behind: the message for the last unreadable file, if any. */
  function LastReadError(files: seq<File>, read: File -> Option<string>): Option<string> {
    if |files| == 0 then None
    else if read(files[|files| - 1]).None? then Some(ReadError(files[|files| - 1]))
    else LastReadError(files[..|files| - 1], read)
  }

  lemma {:induction false} LastReadErrorMeaning(files: seq<File>, read: File -> Option<string>)
    ensures LastReadError(files, read).None? <==> forall i | 0 <= i < |files| :: read(files[i]).Some?
    ensures LastReadError(files, read).Some? ==>
              exists i: nat :: LastUnreadableBelow(files, read, |files|, i)
                               && LastReadError(files, read).value == ReadError(files[i])
  {
    if |files| > 0 {
      var n := |files| - 1;
      var init := files[..n];
      LastReadErrorMeaning(init, read);
      if read(files[n]).None? {
        assert LastUnreadableBelow(files, read, |files|, n);
      } else if LastReadError(init, read).Some? {
        var i: nat :| LastUnreadableBelow(init, read, |init|, i) && LastReadError(init, read).value == ReadError(init[i]);
        assert LastUnreadableBelow(files, read, |files|, i);
      } else {
        forall i | 0 <= i < |files| ensures read(files[i]).Some? {
          if i < n { assert files[i] == init[i]; }
        }
      }
    }
  }

  lemma LastReadErrorStep(files: seq<File>, k: nat, read: File -> Option<string>)
    requires k < |files|
    ensures LastReadError(files[..k + 1], read) ==
              if read(files[k]).None? then Some(ReadError(files[k])) else LastReadError(files[..k], read)
  {
    assert files[..k + 1][..k] == files[..k];
  }

  /** `processFilesForPrompt`: the loop over `files` appending one block per
      readable file; each unreadable file overwrites the error, so the error
      left names the last file that could not be read. */
  method ProcessFilesForPrompt(files: seq<File>, read: File -> Option<string>)
    returns (result: string, error: Option<string>)
    ensures result == Prompt(files, read)
    ensures |files| == 0 ==> result == "" && error.None?
    ensures error == LastReadError(files, read)
    ensures error.None? <==> forall i | 0 <= i < |files| :: read(files[i]).Some?
    ensures error.Some? ==>
              exists i: nat :: LastUnreadableBelow(files, read, |files|, i) && error.value == ReadError(files[i])
  {
    result := "";
    error := None;
    var k := 0;
    while k < |files|
      invariant 0 <= k <= |files|
      invariant result == Prompt(files[..k], read)
      invariant error == LastReadError(files[..k], read)
    {
      AppendOne(files, k, read);
      LastReadErrorStep(files, k, read);
      result, error := PromptStep(result, error, files[k], read);
      k := k + 1;
    }
    assert files[..k] == files;
    LastReadErrorMeaning(files, read);
  }

  /** One iteration of the loop of `processFilesForPrompt`. */
  method PromptStep(result: string, error: Option<string>, f: File, read: File -> Option<string>)
    returns (result': string, error': Option<string>)
    ensures result' == result + Contribution(f, read)
    ensures error' == if read(f).None? then Some(ReadError(f)) else error
  {
    match read(f) {
      case Some(content) =>
        result' := result + Block(f.name, content);
        error' := error;
      case None =>
        result' := result;
        error' := Some(ReadError(f));
    }
  }

  lemma AppendOne(files: seq<File>, k: nat, read: File -> Option<string>)
    requires k < |files|
    ensures Prompt(files[..k + 1], read) == Prompt(files[..k], read) + Contribution(files[k], read)
  {
    assert files[..k + 1] == files[..k] + [files[k]];
    PromptAppend(files[..k], [files[k]], read);
  }

  /** The worked example: a file with content and an empty file, both readable. */
  lemma PromptOfTwoFiles(a: File, contentA: string, b: File, read: File -> Option<string>)
    requires read(a) == Some(contentA) && read(b) == Some("")
    ensures Prompt([a, b], read) == "<" + a.name + ">\n" + contentA + "\n</" + a.name + ">\n\n"
                                   + "<" + b.name + ">\n\n</" + b.name + ">\n\n"
  {
    assert [a, b][1..] == [b];
    assert [b][1..] == [];
    assert Prompt([b], read) == Block(b.name, "");
    assert Prompt([a, b], read) == Block(a.name, contentA) + Block(b.name, "");
    assert Block(b.name, "") == "<" + b.name + ">\n\n</" + b.name + ">\n\n";
    assert Block(a.name, contentA) == "<" + a.name + ">\n" + contentA + "\n</" + a.name + ">\n\n";
  }

  // ---------------------------------------------------------------------------
  // PDF mode
  // ---------------------------------------------------------------------------

  /** `"Error converting file: \(url.lastPathComponent)"`. */
  function ConvertError(f: File): string {
    "Error converting file: " + f.name
  }

  /** The readers PDF mode depends on: `String(contentsOf:encoding:)`,
      `PDFDocument(url:)` with its `page(at:)` answers, and the single-page
      CoreText rendering of a text in `createPDFPage`. */
  datatype PdfReaders = PdfReaders(
    read: File -> Option<string>,
    loadPdf: File -> Option<seq<Option<Page>>>,
    renderPage: string -> Option<Page>)

  /** `createPDFPage(from:)`: the rendering of the file's text, or no page
      when the file cannot be read. */
  function CreatePdfPage(f: File, rd: PdfReaders): (p: Option<Page>)
    ensures rd.read(f).None? ==> p.None?
    ensures rd.read(f).Some? ==> p == rd.renderPage(rd.read(f).value)
  {
    match rd.read(f)
    case None => None
    case Some(content) => rd.renderPage(content)
  }

  /** The pages a file adds to the merged document. */
  function PdfContribution(f: File, rd: PdfReaders): (pages: seq<Page>)
    ensures !IsPdf(f) ==> |pages| <= 1
    ensures !IsPdf(f) ==> pages == (if CreatePdfPage(f, rd).Some? then [CreatePdfPage(f, rd).value] else [])
    ensures IsPdf(f) && rd.loadPdf(f).Some? ==> pages == ReadablePages(rd.loadPdf(f).value)
    ensures IsPdf(f) && rd.loadPdf(f).None? ==> pages == []
  {
    if IsPdf(f) then
      match rd.loadPdf(f)
      case None => []
      case Some(source) => ReadablePages(source)
    else
      match CreatePdfPage(f, rd)
      case None => []
      case Some(p) => [p]
  }

  /** The merged document: every file's pages, in list order. */
  function PdfPages(files: seq<File>, rd: PdfReaders): (pages: seq<Page>)
    ensures |files| == 0 ==> pages == []
  {
    if |files| == 0 then [] else PdfContribution(files[0], rd) + PdfPages(files[1..], rd)
  }

  lemma {:induction false} PdfPagesAppend(a: seq<File>, b: seq<File>, rd: PdfReaders)
    ensures PdfPages(a + b, rd) == PdfPages(a, rd) + PdfPages(b, rd)
  {
    if |a| == 0 {
      assert a + b == b;
    } else {
      assert (a + b)[0] == a[0];
      assert (a + b)[1..] == a[1..] + b;
      PdfPagesAppend(a[1..], b, rd);
    }
  }

  lemma PdfPagesOfOne(f: File, rd: PdfReaders)
    ensures PdfPages([f], rd) == PdfContribution(f, rd)
  {
    assert [f][1..] == [];
  }

  /** A file that adds no page leaves the rest of the merge as if it were absent. */
  lemma PagelessFileSkipped(a: seq<File>, f: File, b: seq<File>, rd: PdfReaders)
    requires PdfContribution(f, rd) == []
    ensures PdfPages(a + [f] + b, rd) == PdfPages(a + b, rd)
  {
    PdfPagesAppend(a + [f], b, rd);
    PdfPagesAppend(a, [f], rd);
    PdfPagesAppend(a, b, rd);
    PdfPagesOfOne(f, rd);
    assert PdfPages(a, rd) + [] == PdfPages(a, rd);
  }

  /** `createPDFPage` reports an error: the file is not a PDF and cannot be read. */
  predicate ConvertFails(f: File, rd: PdfReaders) {
    !IsPdf(f) && rd.read(f).None?
  }

  /** The last conversion error, if any non-PDF file could not be read. */
  function LastConvertError(files: seq<File>, rd: PdfReaders): Option<string> {
    if |files| == 0 then None
    else
      var f := files[|files| - 1];
      if ConvertFails(f, rd) then Some(ConvertError(f))
      else LastConvertError(files[..|files| - 1], rd)
  }

  /** `i` is the last index below `k` whose file fails to convert. */
  ghost predicate LastFailingBelow(files: seq<File>, rd: PdfReaders, k: nat, i: nat) {
    && i < k <= |files|
    && ConvertFails(files[i], rd)
    && forall j | i < j < k :: !ConvertFails(files[j], rd)
  }

  lemma {:induction false} LastConvertErrorMeaning(files: seq<File>, rd: PdfReaders)
    ensures LastConvertError(files, rd).None? <==> forall i | 0 <= i < |files| :: !ConvertFails(files[i], rd)
    ensures LastConvertError(files, rd).Some? ==>
              exists i: nat :: LastFailingBelow(files, rd, |files|, i)
                               && LastConvertError(files, rd).value == ConvertError(files[i])
  {
    if |files| > 0 {
      var n := |files| - 1;
      var init := files[..n];
      LastConvertErrorMeaning(init, rd);
      if ConvertFails(files[n], rd) {
        assert LastFailingBelow(files, rd, |files|, n);
      } else if LastConvertError(init, rd).Some? {
        var i: nat :| LastFailingBelow(init, rd, |init|, i) && LastConvertError(init, rd).value == ConvertError(init[i]);
        LastFailingExtends(files, rd, i);
      } else {
        forall i | 0 <= i < |files| ensures !ConvertFails(files[i], rd) {
          if i < n { assert files[i] == init[i]; }
        }
      }
    }
  }

  /** A file that converts does not change which earlier file failed last. */
  lemma LastFailingExtends(files: seq<File>, rd: PdfReaders, i: nat)
    requires |files| > 0 && !ConvertFails(files[|files| - 1], rd)
    requires LastFailingBelow(files[..|files| - 1], rd, |files| - 1, i)
    ensures LastFailingBelow(files, rd, |files|, i)
    ensures files[i] == files[..|files| - 1][i]
  {
    var n := |files| - 1;
    forall j | i < j < |files| ensures !ConvertFails(files[j], rd) {
      if j < n {
        assert files[j] == files[..n][j];
      }
    }
  }

  /** The inner loop over `0..<pageCount`: each page `page(at:)` returns is
      inserted at `pageCount`, i.e. appended. */
  method AppendSourcePages(document: seq<Page>, source: seq<Option<Page>>) returns (result: seq<Page>)
    ensures result == document + ReadablePages(source)
  {
    result := document;
    var i := 0;
    while i < |source|
      invariant 0 <= i <= |source|
      invariant result == document + ReadablePages(source[..i])
    {
      assert source[..i + 1] == source[..i] + [source[i]];
      ReadablePagesAppend(source[..i], [source[i]]);
      if source[i].Some? {
        result := result + [source[i].value];
      }
      i := i + 1;
    }
    assert source[..i] == source;
  }

  lemma PdfPagesStep(files: seq<File>, k: nat, rd: PdfReaders)
    requires k < |files|
    ensures PdfPages(files[..k + 1], rd) == PdfPages(files[..k], rd) + PdfContribution(files[k], rd)
  {
    assert files[..k + 1] == files[..k] + [files[k]];
    PdfPagesAppend(files[..k], [files[k]], rd);
    PdfPagesOfOne(files[k], rd);
  }

  lemma LastConvertErrorStep(files: seq<File>, k: nat, rd: PdfReaders)
    requires k < |files|
    ensures LastConvertError(files[..k + 1], rd) ==
              if ConvertFails(files[k], rd) then Some(ConvertError(files[k])) else LastConvertError(files[..k], rd)
  {
    assert files[..k + 1][..k] == files[..k];
  }

  /** One iteration of the loop of `processFilesForPDF`. */
  method AddFile(document: seq<Page>, error: Option<string>, f: File, rd: PdfReaders)
    returns (document': seq<Page>, error': Option<string>)
    ensures document' == document + PdfContribution(f, rd)
    ensures error' == if ConvertFails(f, rd) then Some(ConvertError(f)) else error
  {
    document' := document;
    error' := error;
    if IsPdf(f) {
      var source := rd.loadPdf(f);
      if source.Some? {
        document' := AppendSourcePages(document, source.value);
      }
    } else {
      var page := CreatePdfPage(f, rd);
      if rd.read(f).None? {
        error' := Some(ConvertError(f));
      }
      if page.Some? {
        document' := document + [page.value];
      }
    }
  }

  /** `processFilesForPDF`: the merged document is every file's contribution, in list order. */
  method ProcessFilesForPdf(files: seq<File>, rd: PdfReaders) returns (document: seq<Page>, error: Option<string>)
    ensures document == PdfPages(files, rd)
    ensures error == LastConvertError(files, rd)
    ensures error.None? <==> forall i | 0 <= i < |files| :: !ConvertFails(files[i], rd)
    ensures error.Some? ==>
              exists i: nat :: LastFailingBelow(files, rd, |files|, i) && error.value == ConvertError(files[i])
  {
    document := [];
    error := None;
    var k := 0;
    while k < |files|
      invariant 0 <= k <= |files|
      invariant document == PdfPages(files[..k], rd)
      invariant error == LastConvertError(files[..k], rd)
    {
      var f := files[k];
      PdfPagesStep(files, k, rd);
      LastConvertErrorStep(files, k, rd);
      document, error := AddFile(document, error, f, rd);
      k := k + 1;
    }
    assert files[..k] == files;
    LastConvertErrorMeaning(files, rd);
  }

  /** A non-PDF file adds at most one page: the total is at most the PDF pages
      plus one per other file. */
  lemma {:induction false} PdfPageCountBound(files: seq<File>, rd: PdfReaders)
    ensures |PdfPages(files, rd)| <= |files| + PdfPageSlots(files, rd.loadPdf)
  {
    if |files| > 0 {
      PdfPageCountBound(files[1..], rd);
    }
  }

  // ---------------------------------------------------------------------------
  // Session
  // ---------------------------------------------------------------------------

  datatype Mode = PromptMode | PdfMode

  /** The published properties of a `FileProcessor`. */
  datatype Session = Session(
    files: seq<File>,
    isProcessing: bool,
    processedContent: string,
    processedPdf: Option<seq<Page>>,
    error: Option<string>)

  /** The synchronous part of `processFiles(mode:)`, before the background work. */
  function BeginProcessing(s: Session): (r: Session)
    ensures r.isProcessing && r.error.None?
    ensures r.files == s.files && r.processedContent == s.processedContent && r.processedPdf == s.processedPdf
  {
    s.(isProcessing := true, error := None)
  }

  /** `processFiles(mode:)` run to completion: the result of the mode is
      published, the error is the one the work left, and processing ends. */
  method ProcessFiles(s: Session, mode: Mode, rd: PdfReaders) returns (started: Session, finished: Session)
    ensures started == BeginProcessing(s)
    ensures !finished.isProcessing && finished.files == s.files
    ensures mode == PromptMode ==>
              && finished.processedContent == Prompt(s.files, rd.read)
              && finished.processedPdf == s.processedPdf
              && finished.error == LastReadError(s.files, rd.read)
              && (finished.error.None? <==> forall i | 0 <= i < |s.files| :: rd.read(s.files[i]).Some?)
    ensures mode == PdfMode ==>
              && finished.processedPdf == Some(PdfPages(s.files, rd))
              && finished.processedContent == s.processedContent
              && finished.error == LastConvertError(s.files, rd)
              && (finished.error.None? <==> forall i | 0 <= i < |s.files| :: !ConvertFails(s.files[i], rd))
  {
    started := BeginProcessing(s);
    match mode {
      case PromptMode =>
        var content, error := ProcessFilesForPrompt(s.files, rd.read);
        finished := started.(processedContent := content, error := error, isProcessing := false);
      case PdfMode =>
        var document, error := ProcessFilesForPdf(s.files, rd);
        finished := started.(processedPdf := Some(document), error := error, isProcessing := false);
    }
  }

  /** `clearFiles()`: no files, no output, no error; `isProcessing` is untouched. */
  function ClearFiles(s: Session): (r: Session)
    ensures r.files == [] && r.processedContent == "" && r.processedPdf.None? && r.error.None?
    ensures r.isProcessing == s.isProcessing
  {
    s.(files := [], processedContent := "", processedPdf := None, error := None)
  }

  /** After clearing, processing in either mode yields empty output and no error. */
  method ClearThenProcess(s: Session, mode: Mode, rd: PdfReaders) returns (finished: Session)
    ensures finished.files == [] && finished.error.None? && !finished.isProcessing
    ensures finished.processedContent == "" && (mode == PdfMode ==> finished.processedPdf == Some([]))
  {
    var cleared := ClearFiles(s);
    var _, f := ProcessFiles(cleared, mode, rd);
    finished := f;
  }
}
