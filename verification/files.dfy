/** Values shared by the file-processing modules: input files, opaque pages and
    images, and the small sequence and text helpers they all use. */
module Files {
  import opened Wrappers

  /** An input file URL, reduced to what the code reads from it:
      `lastPathComponent` (name) and `pathExtension` (ext, without the dot). */
  datatype File = File(name: string, ext: string)

  /** A page of a paged document, produced by a reader or renderer the model does not see. */
  datatype Page = Page(id: int)

  /** A decoded image, produced by an image loader the model does not see. */
  datatype Image = Image(id: int)

  function LowerChar(c: char): char {
    if 'A' <= c <= 'Z' then (c as int + 32) as char else c
  }

  /** `lowercased()` on ASCII letters; every other character is kept. */
  function Lower(s: string): (r: string)
    ensures |r| == |s|
    ensures forall i | 0 <= i < |r| :: !('A' <= r[i] <= 'Z')
    ensures forall i | 0 <= i < |r| :: 'a' <= s[i] <= 'z' || s[i] < 'A' || 'Z' < s[i] ==> r[i] == s[i]
    ensures forall i | 0 <= i < |r| :: 'A' <= s[i] <= 'Z' ==> r[i] as int == s[i] as int - 'A' as int + 'a' as int
  {
    seq(|s|, i requires 0 <= i < |s| => LowerChar(s[i]))
  }

  /** Lowering twice is lowering once, so dispatch on `Lower(ext)` gives the
      same answer for every capitalisation of an extension. */
  lemma LowerIdempotent(s: string)
    ensures Lower(Lower(s)) == Lower(s)
  {
  }

  /** `pathExtension.lowercased() == "pdf"`. */
  predicate IsPdf(f: File) {
    Lower(f.ext) == "pdf"
  }

  /** The image extensions both PDF builders route to the image loader. */
  const ImageExtensions: seq<string> := ["png", "jpg", "jpeg", "heic", "tiff"]

  /** `case "png", "jpg", "jpeg", "heic", "tiff"` on the lower-cased extension. */
  predicate IsImage(f: File) {
    Lower(f.ext) in ImageExtensions
  }

  /** A file is never routed both ways: "pdf" is not an image extension. */
  lemma PdfIsNotImage(f: File)
    ensures IsPdf(f) ==> !IsImage(f)
  {
  }

  /** `PDFDocument.insert(_:at:)`: `x` lands at index `at`, the pages after it move up by one. */
  function Insert<T>(xs: seq<T>, x: T, at: nat): (r: seq<T>)
    requires at <= |xs|
    ensures |r| == |xs| + 1
    ensures r[at] == x
    ensures r[..at] == xs[..at] && r[at + 1..] == xs[at..]
  {
    xs[..at] + [x] + xs[at..]
  }

  /** Inserting at the page count appends. */
  lemma InsertAtEnd<T>(xs: seq<T>, x: T)
    ensures Insert(xs, x, |xs|) == xs + [x]
  {
  }

  /** The pages `page(at: i)` returned for `i` in `0..<pageCount`, skipping the ones it could not return. */
  function ReadablePages(ps: seq<Option<Page>>): (r: seq<Page>)
    ensures |r| <= |ps|
    ensures forall p :: p in r <==> Some(p) in ps
  {
    if |ps| == 0 then []
    else (if ps[0].Some? then [ps[0].value] else []) + ReadablePages(ps[1..])
  }

  lemma {:induction false} ReadablePagesAppend(a: seq<Option<Page>>, b: seq<Option<Page>>)
    ensures ReadablePages(a + b) == ReadablePages(a) + ReadablePages(b)
  {
    if |a| == 0 {
      assert a + b == b;
    } else {
      assert (a + b)[1..] == a[1..] + b;
      ReadablePagesAppend(a[1..], b);
    }
  }

  /** A source whose every page is readable contributes exactly its pages, in source order. */
  lemma {:induction false} ReadablePagesAllPresent(ps: seq<Option<Page>>)
    requires forall i | 0 <= i < |ps| :: ps[i].Some?
    ensures |ReadablePages(ps)| == |ps|
    ensures forall i | 0 <= i < |ps| :: ReadablePages(ps)[i] == ps[i].value
  {
    if |ps| > 0 {
      ReadablePagesAllPresent(ps[1..]);
    }
  }

  /** The page slots (`pageCount`) of the files that are PDFs and load, summed
      over a file list: both PDF builders add at most this many pages from PDFs. */
  function PdfPageSlots(files: seq<File>, loadPdf: File -> Option<seq<Option<Page>>>): nat {
    if |files| == 0 then 0
    else
      (if IsPdf(files[0]) && loadPdf(files[0]).Some? then |loadPdf(files[0]).value| else 0)
      + PdfPageSlots(files[1..], loadPdf)
  }
}
