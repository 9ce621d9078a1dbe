/** Uno/Models/PDFProcessor.swift: a second PDF builder that reports progress
    per file and stops at the first file that fails. Its private image renderer
    is a stub returning nil and its text handler adds nothing, which the model
    keeps as written. */
module PdfProcessor {
  import opened Wrappers
  import opened Files

  /** `PDFProcessorError`. */
  datatype ProcessorError = InvalidPdf | ImageProcessingFailed | TextProcessingFailed

  /** `Progress`, with its `Double` fields as exact rationals. */
  datatype Progress = Progress(currentFile: string, fileProgress: real, totalProgress: real)

  /** `PDFDocument(url:)` with its `page(at:)` answers, and `NSImage(contentsOf:)`. */
  datatype Sources = Sources(
    loadPdf: File -> Option<seq<Option<Page>>>,
    loadImage: File -> Option<Image>)

  // ---------------------------------------------------------------------------
  // One file
  // ---------------------------------------------------------------------------

  /** The private `createPDFPage(from:)` of this class: a stub that renders nothing. */
  function CreatePdfPageFromImage(image: Image): (page: Option<Page>)
    ensures page.None?
  {
    None
  }

  /** What a file raises, if anything: an unloadable PDF, or any image file,
      since its page can never be rendered. */
  function FileError(f: File, src: Sources): Option<ProcessorError> {
    if IsPdf(f) then (if src.loadPdf(f).None? then Some(InvalidPdf) else None)
    else if IsImage(f) then Some(ImageProcessingFailed)
    else None
  }

  /** The pages a file that does not fail adds: a PDF's readable pages, nothing otherwise. */
  function FilePages(f: File, src: Sources): seq<Page> {
    if IsPdf(f) && src.loadPdf(f).Some? then ReadablePages(src.loadPdf(f).value) else []
  }

  /** `processExistingPDF(_:into:)`: each page the source returns is inserted at
      the document's page count. */
  method ProcessExistingPdf(document: seq<Page>, f: File, src: Sources)
    returns (r: Result<seq<Page>, ProcessorError>)
    ensures r.Failure? <==> src.loadPdf(f).None?
    ensures r.Failure? ==> r.error == InvalidPdf
    ensures r.Success? ==> r.value == document + ReadablePages(src.loadPdf(f).value)
  {
    var source := src.loadPdf(f);
    if source.None? {
      return Failure(InvalidPdf);
    }
    var pages := source.value;
    var result := document;
    var i := 0;
    while i < |pages|
      invariant 0 <= i <= |pages|
      invariant result == document + ReadablePages(pages[..i])
    {
      assert pages[..i + 1] == pages[..i] + [pages[i]];
      ReadablePagesAppend(pages[..i], [pages[i]]);
      if pages[i].Some? {
        result := Insert(result, pages[i].value, |result|);
      }
      i := i + 1;
    }
    assert pages[..i] == pages;
    return Success(result);
  }

  /** `processImageFile(_:into:)`: fails when the image does not load, and
      otherwise fails too, because the page renderer returns nil. */
  function ProcessImageFile(document: seq<Page>, f: File, src: Sources): (r: Result<seq<Page>, ProcessorError>)
    ensures r == Failure(ImageProcessingFailed)
  {
    match src.loadImage(f)
    case None => Failure(ImageProcessingFailed)
    case Some(image) =>
      match CreatePdfPageFromImage(image)
      case Some(page) => Success(document + [page])
      case None => Failure(ImageProcessingFailed)
  }

  /** `processTextFile(_:into:)`: an empty body. */
  function ProcessTextFile(document: seq<Page>, f: File): (r: Result<seq<Page>, ProcessorError>)
    ensures r == Success(document)
  {
    Success(document)
  }

  /** The switch on the lower-cased extension inside the loop of `createPDF`. */
  method ProcessFile(document: seq<Page>, f: File, src: Sources) returns (r: Result<seq<Page>, ProcessorError>)
    ensures r.Failure? <==> FileError(f, src).Some?
    ensures r.Failure? ==> r.error == FileError(f, src).value
    ensures r.Success? ==> r.value == document + FilePages(f, src)
  {
    PdfIsNotImage(f);
    var kind := Lower(f.ext);
    if kind == "pdf" {
      r := ProcessExistingPdf(document, f, src);
    } else if kind in ImageExtensions {
      r := ProcessImageFile(document, f, src);
    } else {
      r := ProcessTextFile(document, f);
      assert document + [] == document;
    }
  }

  // ---------------------------------------------------------------------------
  // The batch, with progress
  // ---------------------------------------------------------------------------

  /** The report before file `i` is processed: `Double(index) / totalFiles`. */
  function StartEvent(files: seq<File>, i: nat): (e: Progress)
    requires i < |files|
    ensures e.currentFile == files[i].name && e.fileProgress == 0.0
  {
    Progress(files[i].name, 0.0, i as real / |files| as real)
  }

  /** The report after file `i` is processed: `Double(index + 1) / totalFiles`. */
  function DoneEvent(files: seq<File>, i: nat): (e: Progress)
    requires i < |files|
    ensures e.currentFile == files[i].name && e.fileProgress == 1.0
    ensures i + 1 < |files| ==> e.totalProgress == StartEvent(files, i + 1).totalProgress
  {
    Progress(files[i].name, 1.0, (i + 1) as real / |files| as real)
  }

  /** The reports for the first `k` files, each processed without error. */
  function Events(files: seq<File>, k: nat): (es: seq<Progress>)
    requires k <= |files|
    ensures |es| == 2 * k
  {
    if k == 0 then [] else Events(files, k - 1) + [StartEvent(files, k - 1), DoneEvent(files, k - 1)]
  }

  /** File `k` is the first that raises. */
  predicate FirstFailure(files: seq<File>, src: Sources, k: nat) {
    && k < |files|
    && FileError(files[k], src).Some?
    && forall j | 0 <= j < k :: FileError(files[j], src).None?
  }

  /** The pages of all the files, in order, when none raises. */
  function AllPages(files: seq<File>, src: Sources): seq<Page> {
    if |files| == 0 then [] else AllPages(files[..|files| - 1], src) + FilePages(files[|files| - 1], src)
  }

  /** None of the first `k` files raises. */
  predicate NoFailureBefore(files: seq<File>, src: Sources, k: nat)
    requires k <= |files|
  {
    forall j | 0 <= j < k :: FileError(files[j], src).None?
  }

  lemma NoFailureStep(files: seq<File>, src: Sources, k: nat)
    requires k < |files| && NoFailureBefore(files, src, k) && FileError(files[k], src).None?
    ensures NoFailureBefore(files, src, k + 1)
  {
  }

  lemma AllPagesSnoc(files: seq<File>, k: nat, src: Sources)
    requires k < |files|
    ensures AllPages(files[..k + 1], src) == AllPages(files[..k], src) + FilePages(files[k], src)
  {
    assert files[..k + 1][..k] == files[..k];
  }

  /** `createPDF(from:progressHandler:)`: the reports sent and the outcome. The
      first file that raises ends the batch, after its start report. */
  method CreatePdf(files: seq<File>, src: Sources)
    returns (result: Result<seq<Page>, ProcessorError>, events: seq<Progress>)
    ensures result.Success? <==> forall i | 0 <= i < |files| :: FileError(files[i], src).None?
    ensures result.Success? ==> result.value == AllPages(files, src) && events == Events(files, |files|)
    ensures result.Failure? ==>
              exists k | 0 <= k < |files| ::
                && FirstFailure(files, src, k)
                && result.error == FileError(files[k], src).value
                && events == Events(files, k) + [StartEvent(files, k)]
  {
    var document := [];
    events := [];
    var index := 0;
    while index < |files|
      invariant 0 <= index <= |files|
      invariant NoFailureBefore(files, src, index)
      invariant document == AllPages(files[..index], src)
      invariant events == Events(files, index)
    {
      var start := StartEvent(files, index);
      var r := ProcessFile(document, files[index], src);
      if r.Failure? {
        assert FirstFailure(files, src, index);
        return Failure(r.error), events + [start];
      }
      AllPagesSnoc(files, index, src);
      NoFailureStep(files, src, index);
      document := r.value;
      events := events + [start, DoneEvent(files, index)];
      index := index + 1;
    }
    assert files[..index] == files;
    result := Success(document);
  }

  /** Event `2i` is the start report of file `i`, event `2i + 1` its done report. */
  lemma {:induction false} EventAt(files: seq<File>, k: nat, j: nat)
    requires k <= |files| && j < 2 * k
    ensures Events(files, k)[j] == if j % 2 == 0 then StartEvent(files, j / 2) else DoneEvent(files, j / 2)
  {
    if j < 2 * (k - 1) {
      EventAt(files, k - 1, j);
    }
  }

  /** The total progress reported at event `j`. */
  lemma EventTotal(files: seq<File>, k: nat, j: nat)
    requires k <= |files| && j < 2 * k
    ensures Events(files, k)[j].totalProgress == ((j + 1) / 2) as real / |files| as real
  {
    EventAt(files, k, j);
  }

  lemma DivideMonotone(a: real, b: real, n: real)
    requires 0.0 <= a <= b && 0.0 < n
    ensures 0.0 <= a / n <= b / n
  {
    assert b / n - a / n == (b - a) / n;
  }

  lemma DivideIsOne(b: real, n: real)
    requires 0.0 < n
    ensures b / n == 1.0 <==> b == n
  {
    assert b / n * n == b;
  }

  /** Reports never go backwards, stay within 0 and 1, and reach 1 exactly at the
      report after the last file. */
  lemma ProgressIsMonotone(files: seq<File>, j1: nat, j2: nat)
    requires j1 <= j2 < 2 * |files|
    ensures 0.0 <= Events(files, |files|)[j1].totalProgress <= Events(files, |files|)[j2].totalProgress <= 1.0
    ensures Events(files, |files|)[j2].totalProgress == 1.0 <==> j2 == 2 * |files| - 1
  {
    var n := |files| as real;
    EventTotal(files, |files|, j1);
    EventTotal(files, |files|, j2);
    var a := ((j1 + 1) / 2) as real;
    var b := ((j2 + 1) / 2) as real;
    assert (j1 + 1) / 2 <= (j2 + 1) / 2 <= |files|;
    DivideMonotone(a, b, n);
    DivideMonotone(b, n, n);
    DivideIsOne(b, n);
    DivideIsOne(n, n);
    assert b == n <==> j2 == 2 * |files| - 1;
  }

  /** The first failing file, searched from the front. */
  function FirstFailureFrom(files: seq<File>, src: Sources, i: nat): (k: nat)
    requires i <= |files|
    requires forall j | 0 <= j < i :: FileError(files[j], src).None?
    ensures k == |files| || FirstFailure(files, src, k)
    ensures k == |files| ==> forall j | 0 <= j < |files| :: FileError(files[j], src).None?
    ensures i <= k
    decreases |files| - i
  {
    if i == |files| || FileError(files[i], src).Some? then i else FirstFailureFrom(files, src, i + 1)
  }

  /** A batch that holds an image file fails, at that file or before it. */
  lemma ImageFailsBatch(files: seq<File>, src: Sources, i: nat)
    requires i < |files| && IsImage(files[i])
    ensures exists k | 0 <= k <= i :: FirstFailure(files, src, k)
  {
    PdfIsNotImage(files[i]);
    var k := FirstFailureFrom(files, src, 0);
    assert FileError(files[i], src).Some?;
    assert k <= i;
  }

  // ---------------------------------------------------------------------------
  // Outline
  // ---------------------------------------------------------------------------

  /** A `PDFOutline` entry, left opaque. */
  datatype OutlineItem = OutlineItem(id: int)

  /** An outline root: its label and its children, in order. */
  datatype OutlineNode = OutlineNode(title: string, children: seq<OutlineItem>)

  datatype Document = Document(pages: seq<Page>, outlineRoot: Option<OutlineNode>)

  const OutlineLabel: string := "Document Outline"

  /** `addOutline(to:outline:)`: with no entries the document is left alone;
      otherwise a new root labelled "Document Outline" holds the entries, in
      order, each inserted at the root's child count. */
  method AddOutline(document: Document, outline: seq<OutlineItem>) returns (result: Document)
    ensures |outline| == 0 ==> result == document
    ensures |outline| > 0 ==> result == Document(document.pages, Some(OutlineNode(OutlineLabel, outline)))
  {
    if |outline| == 0 {
      return document;
    }
    var root := OutlineNode(OutlineLabel, []);
    var i := 0;
    while i < |outline|
      invariant 0 <= i <= |outline|
      invariant root == OutlineNode(OutlineLabel, outline[..i])
    {
      assert outline[..i + 1] == outline[..i] + [outline[i]];
      root := root.(children := Insert(root.children, outline[i], |root.children|));
      i := i + 1;
    }
    assert outline[..i] == outline;
    result := document.(outlineRoot := Some(root));
  }
}
