/** Uno/Helpers/DocumentProcessor.swift: text extraction with its fallback
    chain, the highlighting applied to a text file before it is rendered, and
    the merge of many files into one PDF document. AppKit, PDFKit and CoreText
    calls are readers and renderers given as parameters. */
module DocumentProcessor {
  import opened Wrappers
  import opened Files
  import Highlighter

  // ---------------------------------------------------------------------------
  // Text extraction
  // ---------------------------------------------------------------------------

  /** The readers `extractText` may try. Each is one initialiser that can fail:
      `NSAttributedString(url:options:)` with the Word, RTF and plain-text
      document types, `PDFDocument(url:)` followed by its `string`, and
      `String(contentsOf:encoding: .utf8)`, whose thrown error is kept as its description. */
  datatype Extractors = Extractors(
    word: File -> Option<string>,
    rtf: File -> Option<string>,
    plain: File -> Option<string>,
    pdfText: File -> Option<string>,
    utf8: File -> Result<string, string>)

  /** What `extractText` throws: `DocumentError.extractionFailed(reason:)`, or the
      error of the UTF-8 read passed on unchanged. */
  datatype ExtractError = ExtractionFailed(reason: string) | ReadFailed(description: string)

  predicate IsWordDocument(f: File) {
    Lower(f.ext) == "doc" || Lower(f.ext) == "docx"
  }

  /** The first present value of `xs`, if any. */
  function FirstSome<T>(xs: seq<Option<T>>): (r: Option<T>)
    ensures r.None? <==> forall i | 0 <= i < |xs| :: xs[i].None?
    ensures r.Some? ==> exists i | 0 <= i < |xs| :: xs[i] == r && forall j | 0 <= j < i :: xs[j].None?
  {
    if |xs| == 0 then None
    else if xs[0].Some? then xs[0]
    else
      var r := FirstSome(xs[1..]);
      assert r.Some? ==> exists i | 0 <= i < |xs[1..]| :: xs[1..][i] == r && forall j | 0 <= j < i :: xs[1..][j].None?;
      assert r.Some? ==> exists i | 0 <= i < |xs| :: xs[i] == r && forall j | 0 <= j < i :: xs[j].None? by {
        if r.Some? {
          var i :| 0 <= i < |xs[1..]| && xs[1..][i] == r && forall j | 0 <= j < i :: xs[1..][j].None?;
          assert xs[i + 1] == r;
        }
      }
      r
  }

  /** The attempts for a Word document, in the order they are tried. */
  function WordAttempts(f: File, ex: Extractors): seq<Option<string>> {
    [ex.word(f), ex.rtf(f), ex.plain(f), ex.pdfText(f)]
  }

  function DocumentFailure(f: File): ExtractError {
    ExtractionFailed("Could not extract text from document: " + f.name)
  }

  function PdfFailure(f: File): ExtractError {
    ExtractionFailed("Could not extract text from PDF: " + f.name)
  }

  /** `extractText(from:)`. */
  function ExtractText(f: File, ex: Extractors): (r: Result<string, ExtractError>)
    ensures IsWordDocument(f) ==>
              && (r.Success? <==> exists i | 0 <= i < 4 :: WordAttempts(f, ex)[i].Some?)
              && (r.Success? ==> exists i | 0 <= i < 4 ::
                    && WordAttempts(f, ex)[i] == Some(r.value)
                    && forall j | 0 <= j < i :: WordAttempts(f, ex)[j].None?)
              && (r.Failure? ==> r.error == DocumentFailure(f))
    ensures IsPdf(f) ==>
              && (r.Success? <==> ex.pdfText(f).Some?)
              && (r.Success? ==> r.value == ex.pdfText(f).value)
              && (r.Failure? ==> r.error == PdfFailure(f))
    ensures !IsWordDocument(f) && !IsPdf(f) ==>
              && (r.Success? <==> ex.utf8(f).Success?)
              && (r.Success? ==> r.value == ex.utf8(f).value)
              && (r.Failure? ==> r.error == ReadFailed(ex.utf8(f).error))
  {
    var kind := Lower(f.ext);
    if kind == "doc" || kind == "docx" then
      match FirstSome(WordAttempts(f, ex))
      case Some(text) => Success(text)
      case None => Failure(DocumentFailure(f))
    else if kind == "pdf" then
      match ex.pdfText(f)
      case Some(text) => Success(text)
      case None => Failure(PdfFailure(f))
    else
      match ex.utf8(f)
      case Success(text) => Success(text)
      case Failure(e) => Failure(ReadFailed(e))
  }

  /** A Word document whose Word reading succeeds is extracted by it, whatever the
      later readers would say; the later readers are consulted only in turn. */
  lemma WordReaderWins(f: File, ex: Extractors, other: Extractors)
    requires IsWordDocument(f) && ex.word(f).Some?
    requires other.word == ex.word
    ensures ExtractText(f, ex) == ExtractText(f, other) == Success(ex.word(f).value)
  {
  }

  /** Only the readers the extension selects are consulted: a PDF never reaches
      the Word or UTF-8 readers, and another file never reaches the document readers. */
  lemma ExtractUsesOnlySelectedReaders(f: File, ex: Extractors, other: Extractors)
    ensures IsPdf(f) && other.pdfText == ex.pdfText ==> ExtractText(f, ex) == ExtractText(f, other)
    ensures !IsWordDocument(f) && !IsPdf(f) && other.utf8 == ex.utf8 ==>
              ExtractText(f, ex) == ExtractText(f, other)
  {
  }

  /** The extension is compared without regard to case. */
  lemma ExtractIgnoresCase(name: string, ext: string, ex: Extractors)
    requires forall e :: ex.word(File(name, e)) == ex.word(File(name, ext))
    requires forall e :: ex.rtf(File(name, e)) == ex.rtf(File(name, ext))
    requires forall e :: ex.plain(File(name, e)) == ex.plain(File(name, ext))
    requires forall e :: ex.pdfText(File(name, e)) == ex.pdfText(File(name, ext))
    requires forall e :: ex.utf8(File(name, e)) == ex.utf8(File(name, ext))
    ensures ExtractText(File(name, Lower(ext)), ex) == ExtractText(File(name, ext), ex)
  {
    LowerIdempotent(ext);
  }

  // ---------------------------------------------------------------------------
  // Highlighting by file type
  // ---------------------------------------------------------------------------

  /** The branches of `createAttributedString`'s switch. */
  datatype Family = Programming | DataFormat | Markdown | Markup | PlainText

  const ProgrammingExtensions: seq<string> := ["swift", "kotlin", "java", "cpp", "c", "cs", "go", "rs"]
  const DataFormatExtensions: seq<string> := ["json", "yaml", "yml"]
  const MarkdownExtensions: seq<string> := ["md", "markdown"]
  const MarkupExtensions: seq<string> := ["html", "xml"]

  /** The switch on `fileExtension.lowercased()`. */
  function FamilyOf(ext: string): (fam: Family)
    ensures fam == Programming <==> Lower(ext) in ProgrammingExtensions
    ensures fam == DataFormat <==> Lower(ext) in DataFormatExtensions
    ensures fam == Markdown <==> Lower(ext) in MarkdownExtensions
    ensures fam == Markup <==> Lower(ext) in MarkupExtensions
  {
    var e := Lower(ext);
    if e in ProgrammingExtensions then Programming
    else if e in DataFormatExtensions then DataFormat
    else if e in MarkdownExtensions then Markdown
    else if e in MarkupExtensions then Markup
    else PlainText
  }

  /** The case lists are disjoint, so the order of the switch's cases does not matter,
      and the choice ignores the case of the extension. */
  lemma FamilyIgnoresCase(ext: string)
    ensures FamilyOf(Lower(ext)) == FamilyOf(ext)
    ensures FamilyOf(ext) == PlainText <==>
              Lower(ext) !in ProgrammingExtensions + DataFormatExtensions + MarkdownExtensions + MarkupExtensions
  {
    LowerIdempotent(ext);
  }

  /** The regular-expression highlighters for data formats, Markdown and markup,
      whose passes the model does not see. */
  datatype RegexHighlighters = RegexHighlighters(
    dataFormat: string -> string,
    markdown: string -> string,
    markup: string -> string)

  /** Keyword highlighting leaves keyword-free text alone and only inserts markers. */
  lemma ProgrammingHighlightFacts(content: string)
    ensures Highlighter.NoKeyword(content) ==> Highlighter.HighlightProgrammingLanguage(content) == content
    ensures Highlighter.Esc !in content ==> Highlighter.Strip(Highlighter.HighlightProgrammingLanguage(content)) == content
  {
    if Highlighter.NoKeyword(content) {
      Highlighter.HighlightUnchangedWithoutKeywords(content);
    }
    if Highlighter.Esc !in content {
      Highlighter.HighlightIsLossless(content);
    }
  }

  /** `createAttributedString(from:fileExtension:)`: the text of the result (its
      attributes are the same in every branch). */
  function CreateAttributedString(content: string, ext: string, hl: RegexHighlighters): (text: string)
    ensures FamilyOf(ext) == PlainText ==> text == content
    ensures FamilyOf(ext) == Programming ==> text == Highlighter.HighlightProgrammingLanguage(content)
    ensures FamilyOf(ext) == Programming && Highlighter.NoKeyword(content) ==> text == content
    ensures FamilyOf(ext) == Programming && Highlighter.Esc !in content ==> Highlighter.Strip(text) == content
    ensures FamilyOf(ext) == DataFormat ==> text == hl.dataFormat(content)
    ensures FamilyOf(ext) == Markdown ==> text == hl.markdown(content)
    ensures FamilyOf(ext) == Markup ==> text == hl.markup(content)
  {
    match FamilyOf(ext)
    case Programming =>
      ProgrammingHighlightFacts(content);
      Highlighter.HighlightProgrammingLanguage(content)
    case DataFormat => hl.dataFormat(content)
    case Markdown => hl.markdown(content)
    case Markup => hl.markup(content)
    case PlainText => content
  }

  // ---------------------------------------------------------------------------
  // Merging files into one PDF
  // ---------------------------------------------------------------------------

  /** What `createPDF(from:)` reads and renders: `PDFDocument(url:)` with its
      `page(at:)` answers, `NSImage(contentsOf:)`, the UTF-8 read, and the two
      single-page renderings `createPDFPage(from:)` of an image and of a text. */
  datatype PageSources = PageSources(
    loadPdf: File -> Option<seq<Option<Page>>>,
    loadImage: File -> Option<Image>,
    imagePage: Image -> Option<Page>,
    read: File -> Option<string>,
    textPage: string -> Option<Page>,
    hl: RegexHighlighters)

  /** The single page an image file becomes, if it loads and renders. */
  function ImageFilePage(f: File, src: PageSources): Option<Page> {
    match src.loadImage(f)
    case None => None
    case Some(image) => src.imagePage(image)
  }

  /** The single page any other file becomes: its text, highlighted by extension, rendered. */
  function TextFilePage(f: File, src: PageSources): Option<Page> {
    match src.read(f)
    case None => None
    case Some(content) => src.textPage(CreateAttributedString(content, f.ext, src.hl))
  }

  function PageList(p: Option<Page>): (ps: seq<Page>)
    ensures |ps| <= 1
    ensures p.None? ==> ps == []
    ensures p.Some? ==> ps == [p.value]
  {
    match p
    case None => []
    case Some(page) => [page]
  }

  /** The pages one file adds to the merged document. A file that fails to load
      or render adds nothing and raises nothing. */
  function Contribution(f: File, src: PageSources): (pages: seq<Page>)
    ensures IsPdf(f) ==> pages == (if src.loadPdf(f).Some? then ReadablePages(src.loadPdf(f).value) else [])
    ensures !IsPdf(f) ==> |pages| <= 1
    ensures IsImage(f) ==> pages == PageList(ImageFilePage(f, src))
    ensures !IsPdf(f) && !IsImage(f) ==> pages == PageList(TextFilePage(f, src))
  {
    PdfIsNotImage(f);
    if IsPdf(f) then
      match src.loadPdf(f)
      case None => []
      case Some(source) => ReadablePages(source)
    else if IsImage(f) then PageList(ImageFilePage(f, src))
    else PageList(TextFilePage(f, src))
  }

  /** The merged document: every file's pages, in list order. */
  function MergedPages(files: seq<File>, src: PageSources): (pages: seq<Page>)
    ensures |files| == 0 ==> pages == []
  {
    if |files| == 0 then [] else Contribution(files[0], src) + MergedPages(files[1..], src)
  }

  lemma {:induction false} MergedPagesAppend(a: seq<File>, b: seq<File>, src: PageSources)
    ensures MergedPages(a + b, src) == MergedPages(a, src) + MergedPages(b, src)
  {
    if |a| == 0 {
      assert a + b == b;
    } else {
      assert (a + b)[0] == a[0];
      assert (a + b)[1..] == a[1..] + b;
      MergedPagesAppend(a[1..], b, src);
    }
  }

  lemma MergedPagesOfOne(f: File, src: PageSources)
    ensures MergedPages([f], src) == Contribution(f, src)
  {
    assert [f][1..] == [];
  }

  /** `createPDF(from:)`: pages are inserted at a cursor that counts the pages
      inserted so far. */
  method CreatePdf(files: seq<File>, src: PageSources) returns (document: seq<Page>)
    ensures document == MergedPages(files, src)
  {
    document := [];
    var currentPage := 0;
    var k := 0;
    while k < |files|
      invariant 0 <= k <= |files|
      invariant currentPage == |document|
      invariant document == MergedPages(files[..k], src)
    {
      var f := files[k];
      assert files[..k + 1] == files[..k] + [f];
      MergedPagesAppend(files[..k], [f], src);
      document, currentPage := AddFile(document, currentPage, f, src);
      k := k + 1;
    }
    assert files[..k] == files;
  }

  /** One iteration of the merge loop. */
  method AddFile(document: seq<Page>, currentPage: nat, f: File, src: PageSources)
    returns (document': seq<Page>, currentPage': nat)
    requires currentPage == |document|
    ensures document' == document + MergedPages([f], src)
    ensures currentPage' == |document'|
  {
    MergedPagesOfOne(f, src);
    var kind := Lower(f.ext);
    if kind == "pdf" {
      var source := src.loadPdf(f);
      if source.Some? {
        document', currentPage' := InsertSourcePages(document, currentPage, source.value);
      } else {
        document', currentPage' := document, currentPage;
      }
    } else if kind in ImageExtensions {
      var page := None;
      var image := src.loadImage(f);
      if image.Some? {
        page := src.imagePage(image.value);
      }
      document', currentPage' := InsertPage(document, currentPage, page);
    } else {
      var page := None;
      var content := src.read(f);
      if content.Some? {
        var text := CreateAttributedString(content.value, f.ext, src.hl);
        page := src.textPage(text);
      }
      document', currentPage' := InsertPage(document, currentPage, page);
    }
  }

  /** `if let page = ... { insert(page, at: currentPage); currentPage += 1 }`. */
  method InsertPage(document: seq<Page>, currentPage: nat, page: Option<Page>)
    returns (document': seq<Page>, currentPage': nat)
    requires currentPage == |document|
    ensures document' == document + PageList(page)
    ensures currentPage' == |document'|
  {
    document', currentPage' := document, currentPage;
    if page.Some? {
      document' := Insert(document, page.value, currentPage);
      currentPage' := currentPage + 1;
    }
  }

  /** The loop over a source PDF's `0..<pageCount`, inserting each page it returns at the cursor. */
  method InsertSourcePages(document: seq<Page>, currentPage: nat, source: seq<Option<Page>>)
    returns (document': seq<Page>, currentPage': nat)
    requires currentPage == |document|
    ensures document' == document + ReadablePages(source)
    ensures currentPage' == |document'|
  {
    document', currentPage' := document, currentPage;
    var i := 0;
    while i < |source|
      invariant 0 <= i <= |source|
      invariant currentPage' == |document'|
      invariant document' == document + ReadablePages(source[..i])
    {
      assert source[..i + 1] == source[..i] + [source[i]];
      ReadablePagesAppend(source[..i], [source[i]]);
      assert ReadablePages([source[i]]) == if source[i].Some? then [source[i].value] else [];
      if source[i].Some? {
        InsertAtEnd(document', source[i].value);
        document' := Insert(document', source[i].value, currentPage');
        currentPage' := currentPage' + 1;
      }
      i := i + 1;
    }
    assert source[..i] == source;
  }

  /** A file that adds nothing leaves the rest of the merge as if it were absent:
      one unreadable file does not disturb the others. */
  lemma FailedFileIsSkipped(a: seq<File>, f: File, b: seq<File>, src: PageSources)
    requires Contribution(f, src) == []
    ensures MergedPages(a + [f] + b, src) == MergedPages(a + b, src)
  {
    MergedPagesAppend(a + [f], b, src);
    MergedPagesAppend(a, [f], src);
    MergedPagesAppend(a, b, src);
    MergedPagesOfOne(f, src);
    assert MergedPages(a, src) + [] == MergedPages(a, src);
  }

  /** Every non-PDF file adds at most one page, every PDF at most its page count. */
  lemma {:induction false} MergedPageCountBound(files: seq<File>, src: PageSources)
    ensures |MergedPages(files, src)| <= |files| + PdfPageSlots(files, src.loadPdf)
  {
    if |files| > 0 {
      MergedPageCountBound(files[1..], src);
    }
  }
}
