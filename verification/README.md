# Uno, modelled in Dafny

Uno is a macOS utility. It turns a list of dropped files into one of two things:

- a single LLM prompt, made of tagged file blocks;
- a single merged PDF document.

It also checks GitHub for newer releases of itself. This project models the decision logic of that core as pure Dafny functions and methods, and proves properties about it:

- **`UpdateChecker`**. Cleaning a release tag, reading a dotted version string into integer components, and the component-wise version comparison. It also covers the checker's state across a check: the in-progress guard, the network-error retry counter, and what a response does to the published state.
- **`FileProcessor`**. The prompt assembled from `<name>\n…\n</name>\n\n` blocks, and the PDF merge of existing PDFs plus one rendered page per other file. It also covers the `processFiles` flags and `clearFiles`.
- **`DocumentProcessor`**. Text extraction, with its per-extension reader chain and error messages. The choice of highlighter by file extension. The merge loop that inserts each page at a cursor.
- **`Highlighter`**. The keyword highlighter behind `highlightProgrammingLanguage`: 22 regular-expression passes that wrap whole-word keywords in terminal colour markers.
- **`TokenCounter`**. The token estimate and the choice of display unit.
- **`DropDelegate`**. The drag-to-reorder decisions of the file-tag delegate.
- **`PdfProcessor`**. The second, fail-fast PDF builder with progress reports, and the outline helper.
- **`Files`**, **`Decimal`**, **`Wrappers`**. Shared values: files, pages, ASCII lower-casing, `insert(_:at:)`, Swift's `Int(_:)` parser and decimal rendering, and `Option`/`Result`.

Everything the code obtains from the outside world is a parameter. That covers reading a file, loading a PDF or an image, rendering a page, and the three regular-expression highlighters. Each reader is a total function returning `Option` or `Result`, so every success and failure path of the code is covered for every behaviour of those readers. Pages, images and outline entries are opaque values.

## Model

| member | source | states |
|---|---|---|
| Decimal.ParseInt | Uno/Resources/UpdateChecker.swift:165 | `Int(_:)` on a piece accepts only an optional sign, then one or more digits. An unsigned or `+`-signed run of digits gives its value, and a `-`-signed run gives the negated value. Either gives nil when the value is outside the 64-bit range. |
| Decimal.ShowInt | Uno/Helpers/TokenCounter.swift:11 | `"\(count)"` starts with `-` exactly for negative counts, and otherwise is all digits. It is canonical: no `+`, no leading zero, no "-0". |
| Decimal.ParseShowInt | Uno/Helpers/TokenCounter.swift:11 | Parsing the decimal text of any 64-bit integer gives the integer back. |
| Decimal.ShowNatDigitsValue | Uno/Helpers/TokenCounter.swift:11 | A digit run without a leading zero is the decimal rendering of its own value. |
| Decimal.ShowParseCanonical | Uno/Helpers/TokenCounter.swift:11 | Canonical text that parses to n is exactly `"\(n)"`, so `"\(n)"` is the only canonical text of n. |
| Decimal.ParseRejectsStray | Uno/Resources/UpdateChecker.swift:165 | A piece holding a character that is neither a digit nor a leading sign is not an integer, so `compactMap` drops it. |
| UpdateChecker.RemoveV | Uno/Resources/UpdateChecker.swift:143 | No `v` is left. Every other character keeps its number of occurrences. |
| UpdateChecker.RemoveVAppend | Uno/Resources/UpdateChecker.swift:163 | Removing `v`s distributes over concatenation. |
| UpdateChecker.RemoveVNoV | Uno/Resources/UpdateChecker.swift:143 | Text without `v` is unchanged, so cleaning an already-cleaned tag changes nothing. |
| UpdateChecker.SplitDots | Uno/Resources/UpdateChecker.swift:164 | Every piece of `split(separator: ".")` is non-empty and free of dots. SplitDotsWord and SplitDotsAppend fix the pieces of every string. |
| UpdateChecker.SplitJoin | Uno/Resources/UpdateChecker.swift:164 | Splitting a dot-joined list of non-empty, dot-free pieces gives the pieces back. |
| UpdateChecker.SplitDotsAppend | Uno/Resources/UpdateChecker.swift:164 | The pieces of `a.b` are the pieces of `a` followed by the pieces of `b`. |
| UpdateChecker.SplitDotsWord | Uno/Resources/UpdateChecker.swift:164 | A string without a dot is a single piece, except the empty string, which has no pieces. |
| UpdateChecker.EmptyPiecesDropped | Uno/Resources/UpdateChecker.swift:164 | Empty pieces are omitted: a leading dot, a trailing dot or a doubled dot adds no piece. |
| UpdateChecker.SplitOfOneDotDotTwo | Uno/Resources/UpdateChecker.swift:164 | "1..2" splits into "1" and "2". |
| UpdateChecker.ParseComponents | Uno/Resources/UpdateChecker.swift:165 | `compactMap { Int($0) }` on a single piece gives its integer, or nothing when the piece is not one. At most one value comes from each piece, and each is within the 64-bit range. |
| UpdateChecker.ParseComponentsAppend | Uno/Resources/UpdateChecker.swift:165 | The components of two runs of pieces are those of the first followed by those of the second. With the single-piece case this fixes the result on every input. |
| UpdateChecker.NonIntegerPieceDropped | Uno/Resources/UpdateChecker.swift:163-169 | A piece that is not an integer is dropped, so the components after it move up one place. |
| UpdateChecker.Components | Uno/Resources/UpdateChecker.swift:163-169 | Every component of a version is within the 64-bit range, and the empty string has none. Its value on any string follows from RemoveVAppend, SplitDotsWord, SplitDotsAppend, ParseComponents and ParseComponentsAppend. |
| UpdateChecker.ComponentsIgnoreEmptyPieces | Uno/Resources/UpdateChecker.swift:163-169 | A doubled dot reads as a single one: the empty piece is omitted, not read as a zero component. |
| UpdateChecker.ComponentsOfOneDotDotTwo | Uno/Resources/UpdateChecker.swift:163-169 | "1..2" has the components 1, 2. |
| UpdateChecker.ParseComponentsOfShown | Uno/Resources/UpdateChecker.swift:165 | Reading the decimal texts of non-negative 64-bit components gives the components back. |
| UpdateChecker.FormatVersionRoundTrip | Uno/Resources/UpdateChecker.swift:163-169 | The components read from a dotted decimal version are exactly the numbers it was written from. |
| UpdateChecker.Pad | Uno/Resources/UpdateChecker.swift:173-174 | The list is padded with zeros to length three. A list of three or more is left as it is. |
| UpdateChecker.CompareFrom | Uno/Resources/UpdateChecker.swift:178-187 | The comparison loop returns true iff, at the first index below both lengths where the lists differ, `latest` is larger. |
| UpdateChecker.CompareVersions | Uno/Resources/UpdateChecker.swift:161-188 | `compareVersions` is true iff the padded components of `latest` are newer in that first-difference order. |
| UpdateChecker.NewerIrreflexive | Uno/Resources/UpdateChecker.swift:186-187 | No component list is newer than itself. |
| UpdateChecker.NewerAsymmetric | Uno/Resources/UpdateChecker.swift:178-184 | Two component lists are never each newer than the other. |
| UpdateChecker.NewerTransitive | Uno/Resources/UpdateChecker.swift:178-184 | The newer-than order is transitive. |
| UpdateChecker.NewerIgnoresExtension | Uno/Resources/UpdateChecker.swift:178 | Extending a list with more components makes it neither newer nor older. |
| UpdateChecker.CompareVersionsIrreflexive | Uno/Resources/UpdateChecker.swift:186-187 | A version string is never an update to itself. |
| UpdateChecker.CompareVersionsAsymmetric | Uno/Resources/UpdateChecker.swift:178-184 | Two version strings are never each an update to the other. |
| UpdateChecker.CompareFormatted | Uno/Resources/UpdateChecker.swift:161-188 | Dotted decimal versions compare exactly as their padded component lists. |
| UpdateChecker.ExtensionIgnored | Uno/Resources/UpdateChecker.swift:178 | A version of three or more components and any extension of it compare as equal in both directions. |
| UpdateChecker.FourthComponentIgnored | Uno/Resources/UpdateChecker.swift:178 | "1.0.0" and "1.0.0.1" are not updates of each other. |
| UpdateChecker.PaddingIgnored | Uno/Resources/UpdateChecker.swift:173-174 | A version shorter than three components and the same version with a zero appended compare as equal both ways. |
| UpdateChecker.MissingComponentsAreZero | Uno/Resources/UpdateChecker.swift:173-174 | "1.2" and "1.2.0" are not updates of each other. |
| UpdateChecker.ComponentsOfOneXTwo | Uno/Resources/UpdateChecker.swift:163-169 | "1.x.2" has the components 1, 2. |
| UpdateChecker.NonIntegerComponentShifts | Uno/Resources/UpdateChecker.swift:161-188 | "1.x.2" and "1.2.0" are not updates of each other, and "1.x.2" is an update to "1.0.2": the dropped piece shifts the later components left instead of reading as zero. |
| UpdateChecker.ComponentsIgnoreVPrefix | Uno/Resources/UpdateChecker.swift:167 | A leading `v` does not change the components of a version. |
| UpdateChecker.PrefixedNewer | Uno/Resources/UpdateChecker.swift:161-188 | A `v`-prefixed tag whose full-length components are newer is reported as an update. |
| UpdateChecker.PrefixedTagIsNewer | Uno/Resources/UpdateChecker.swift:161-188 | "v1.10.0" is an update to "1.2.0": components compare as integers, not as text. |
| UpdateChecker.ComponentsOfCleanedTag | Uno/Resources/UpdateChecker.swift:143-147 | Cleaning the tag before comparing it does not change its components. |
| UpdateChecker.CheckForUpdates | Uno/Resources/UpdateChecker.swift:71-82 | While a check is in progress the call changes nothing and sends nothing. Otherwise it sets the busy flag, clears the error and sends the request. The retry counter, latest version, update flag and release notes are unchanged either way. |
| UpdateChecker.HandleNetworkError | Uno/Resources/UpdateChecker.swift:99-111 | A retry is scheduled iff fewer than three have been made, and then only the counter changes, going up by one. Otherwise the counter resets, "Network error: …" is set and the check ends. The latest version, update flag and release notes are unchanged in both branches. The counter stays within 0..3. |
| UpdateChecker.RetryAsWritten | Uno/Resources/UpdateChecker.swift:99-104 | A network error followed by the retry it schedules, which goes through the `isChecking` guard. The counter stays within 0..3. |
| UpdateChecker.RetryAsWrittenWedges | Uno/Resources/UpdateChecker.swift:73 | After the first network error of a fresh check, the retry sends nothing. The checker stays busy with no error shown, and every later check is a no-op. |
| UpdateChecker.RetryCorrected | Uno/Resources/UpdateChecker.swift:99-111 | A network error with the retry re-sending the request. The counter stays within 0..3. |
| UpdateChecker.RetryCorrectedResends | Uno/Resources/UpdateChecker.swift:100-110 | During a check, an error re-sends iff retries remain. Otherwise it ends the check with an error and a reset counter. |
| UpdateChecker.FourthErrorGivesUp | Uno/Resources/UpdateChecker.swift:36-37 | From a fresh check, three errors re-send and the fourth gives up, showing "Network error: …". |
| UpdateChecker.ProcessRelease | Uno/Resources/UpdateChecker.swift:142-159 | The stored version is the tag with every `v` removed. An update is flagged, and `onUpdateAvailable` is called, iff the tag's components are newer. The release notes are stored. The busy flag, counter and error are untouched. |
| UpdateChecker.HandleUpdateResponse | Uno/Resources/UpdateChecker.swift:113-140 | Every response ends the check, and the counter is untouched. An invalid response sets "Invalid response from server", and a decoding failure sets its description. Both leave the version, update flag and release notes alone. A release stores the cleaned tag and the notes, flags an update iff the tag is newer, and keeps the error. |
| UpdateChecker.TransitionsPreserveValid | Uno/Resources/UpdateChecker.swift:36-37 | Every transition keeps the retry counter within 0..`maxRetries`. |
| TokenCounter.EstimateTokenCount | Uno/Helpers/TokenCounter.swift:4-7 | The estimate is the character count divided by four, truncated: 4n ≤ length < 4n + 4. |
| TokenCounter.EstimateMonotone | Uno/Helpers/TokenCounter.swift:6 | A longer text never gets a smaller estimate. |
| TokenCounter.FormatTokenCount | Uno/Helpers/TokenCounter.swift:9-17 | Below 1000, negatives included, the text is the canonical decimal `"\(count)"`, which parses back to the count. From 1000 to below a million the unit is thousands, otherwise millions. The three cases are exclusive and exhaustive. |
| DropDelegate.FirstIndex | Uno/Helpers/DropDelegate.swift:12-13 | `firstIndex(of:)` is absent iff the item is missing. Otherwise it points at the item, and no earlier index holds it. |
| DropDelegate.PerformDrop | Uno/Helpers/DropDelegate.swift:10-21 | A drop is rejected, leaving the dragged item unchanged, when nothing is dragged or either item is missing. Otherwise it is accepted and clears the dragged item. The handler gets the first-occurrence indices iff they differ. |
| DropDelegate.DropEntered | Uno/Helpers/DropDelegate.swift:23-33 | Hovering requests the move iff the two items are present and different, with their first-occurrence indices. |
| DropDelegate.EnteredAgreesWithDrop | Uno/Helpers/DropDelegate.swift:10-33 | Hovering and dropping request the same move. |
| DropDelegate.DropOnItselfIsAcceptedSilently | Uno/Helpers/DropDelegate.swift:15-20 | Dropping an item on its own tag is accepted without a reorder call. |
| DropDelegate.DropUpdated | Uno/Helpers/DropDelegate.swift:35-37 | The proposal is a move whatever is being dragged. |
| Files.Lower | Uno/Models/FileProcessor.swift:59 | Lower-casing keeps the length, turns each ASCII capital into its small letter, and keeps every other character. |
| Files.LowerIdempotent | Uno/Helpers/DocumentProcessor.swift:11 | Lower-casing twice is lower-casing once. |
| Files.Insert | Uno/Helpers/DocumentProcessor.swift:126 | `insert(_:at:)` puts the page at the index and shifts the pages after it up by one. |
| Files.ReadablePages | Uno/Models/FileProcessor.swift:61-65 | A page is kept iff `page(at:)` returned it, and there are never more pages than slots. |
| Files.ReadablePagesAppend | Uno/Models/FileProcessor.swift:61-65 | The readable pages of two runs of slots are those of the first followed by those of the second. |
| Files.ReadablePagesAllPresent | Uno/Models/PDFProcessor.swift:81-85 | A source whose every page is returned contributes exactly its pages, in source order. |
| FileProcessor.Block | Uno/Models/FileProcessor.swift:40 | A file's block is its content wrapped in `<name>` and `</name>` tags: the content can be read back from the block at a fixed offset, and the tags add 2·|name| + 9 characters. |
| FileProcessor.PromptAppend | Uno/Models/FileProcessor.swift:36-47 | The prompt for two lists is the prompt of the first followed by that of the second. |
| FileProcessor.UnreadableFileSkipped | Uno/Models/FileProcessor.swift:41-45 | An unreadable file contributes nothing, wherever it stands in the list. |
| FileProcessor.LastReadErrorMeaning | Uno/Models/FileProcessor.swift:42-44 | There is an error iff some file is unreadable. The error then names the last unreadable file. |
| FileProcessor.LastReadErrorStep | Uno/Models/FileProcessor.swift:37-45 | Each unreadable file overwrites the error left by the files before it. |
| FileProcessor.ProcessFilesForPrompt | Uno/Models/FileProcessor.swift:33-53 | The loop's result is the in-order concatenation of the readable files' blocks, and an empty list gives "". The error is exactly the one the last unreadable file wrote, and there is none iff every file reads. |
| FileProcessor.PromptStep | Uno/Models/FileProcessor.swift:37-46 | One iteration appends the file's block, or records its read error. |
| FileProcessor.AppendOne | Uno/Models/FileProcessor.swift:36-40 | The prompt of one more file is the old prompt followed by that file's block. |
| FileProcessor.PromptOfTwoFiles | Uno/Models/FileProcessor.swift:40 | A file with content followed by an empty file gives both tagged blocks, in order. |
| FileProcessor.CreatePdfPage | Uno/Models/FileProcessor.swift:81-118 | An unreadable file gives no page. A readable file gives the rendering of its text. |
| FileProcessor.PdfContribution | Uno/Models/FileProcessor.swift:58-72 | A PDF, judged case-insensitively, adds its readable pages, or nothing if it does not load. Any other file adds exactly its rendered page, or nothing if there is none. |
| FileProcessor.PdfPagesAppend | Uno/Models/FileProcessor.swift:58-73 | The merge of two lists is the merge of the first followed by the merge of the second. |
| FileProcessor.PdfPagesOfOne | Uno/Models/FileProcessor.swift:58-73 | The merge of one file is that file's pages. |
| FileProcessor.PagelessFileSkipped | Uno/Models/FileProcessor.swift:58-73 | A file that adds no page leaves the rest of the merge as if it were absent. |
| FileProcessor.LastConvertErrorMeaning | Uno/Models/FileProcessor.swift:112-116 | There is an error iff some non-PDF file is unreadable. The error then names the last such file. |
| FileProcessor.AppendSourcePages | Uno/Models/FileProcessor.swift:61-65 | Inserting each returned page at the page count appends the readable pages in source order. |
| FileProcessor.AddFile | Uno/Models/FileProcessor.swift:58-72 | One iteration appends the file's pages, and records a conversion error iff a non-PDF file is unreadable. |
| FileProcessor.ProcessFilesForPdf | Uno/Models/FileProcessor.swift:55-79 | The document is every file's pages, in list order. There is an error iff some non-PDF file is unreadable, naming the last one. |
| FileProcessor.PdfPageCountBound | Uno/Models/FileProcessor.swift:67-71 | The merge holds at most the PDF page slots plus one page per file. |
| FileProcessor.BeginProcessing | Uno/Models/FileProcessor.swift:18-19 | Processing starts with the busy flag set and the error cleared, and nothing else changes. |
| FileProcessor.ProcessFiles | Uno/Models/FileProcessor.swift:17-31 | Once the work finishes, the mode's output is published and the other output is untouched. The error is the last one the work wrote: the last unreadable file's in prompt mode, the last unconvertible file's in PDF mode. The busy flag is cleared. |
| FileProcessor.ClearFiles | Uno/Models/FileProcessor.swift:120-125 | No files, no content, no PDF and no error remain. The busy flag is untouched. |
| FileProcessor.ClearThenProcess | Uno/Models/FileProcessor.swift:120-125 | After clearing, either mode produces empty output and no error. |
| DocumentProcessor.FirstSome | Uno/Helpers/DocumentProcessor.swift:17-51 | The fallback chain gives nothing iff every attempt fails. Otherwise it gives the first attempt that succeeds. |
| DocumentProcessor.ExtractText | Uno/Helpers/DocumentProcessor.swift:10-65 | For doc/docx, the first of the Word, RTF, plain-text and PDF readers that succeeds wins, else "Could not extract text from document: name". For pdf, the PDF text, else "Could not extract text from PDF: name". Otherwise the UTF-8 read, its error passed on. |
| DocumentProcessor.WordReaderWins | Uno/Helpers/DocumentProcessor.swift:18-24 | When the Word reader succeeds its text is returned, whatever the later readers would do. |
| DocumentProcessor.ExtractUsesOnlySelectedReaders | Uno/Helpers/DocumentProcessor.swift:55-63 | A PDF depends only on the PDF reader, and any other non-Word file only on the UTF-8 read. |
| DocumentProcessor.ExtractIgnoresCase | Uno/Helpers/DocumentProcessor.swift:11 | The extension is compared without regard to case. |
| DocumentProcessor.FamilyOf | Uno/Helpers/DocumentProcessor.swift:258-282 | Each case list of the switch selects its highlighter exactly when the lower-cased extension is in it. |
| DocumentProcessor.FamilyIgnoresCase | Uno/Helpers/DocumentProcessor.swift:258 | The choice ignores case. Plain text is chosen exactly for extensions in none of the lists. |
| DocumentProcessor.ProgrammingHighlightFacts | Uno/Helpers/DocumentProcessor.swift:259-262 | Keyword highlighting leaves keyword-free text alone. Stripping its markers gives an escape-free text back. |
| DocumentProcessor.CreateAttributedString | Uno/Helpers/DocumentProcessor.swift:245-283 | The default branch returns the content unchanged. Source files get exactly the keyword highlighting, which is lossless and leaves keyword-free text alone. Data, Markdown and markup files go through their own highlighter. |
| DocumentProcessor.PageList | Uno/Helpers/DocumentProcessor.swift:133-137 | An optional page as zero or one pages. |
| DocumentProcessor.Contribution | Uno/Helpers/DocumentProcessor.swift:121-150 | A PDF adds its readable pages. An image adds its rendered page if it loads. Any other file adds its highlighted, rendered text if it reads. A failure adds nothing. |
| DocumentProcessor.MergedPagesAppend | Uno/Helpers/DocumentProcessor.swift:118-156 | The merge of two lists is the merge of the first followed by the merge of the second. |
| DocumentProcessor.MergedPagesOfOne | Uno/Helpers/DocumentProcessor.swift:118-156 | The merge of one file is that file's pages. |
| DocumentProcessor.CreatePdf | Uno/Helpers/DocumentProcessor.swift:114-159 | Inserting at a cursor that counts inserted pages yields every file's pages in list order, with no gaps. |
| DocumentProcessor.AddFile | Uno/Helpers/DocumentProcessor.swift:120-151 | One iteration appends the file's pages and keeps the cursor equal to the page count. |
| DocumentProcessor.InsertPage | Uno/Helpers/DocumentProcessor.swift:133-137 | Inserting an optional page at the cursor appends it and advances the cursor. |
| DocumentProcessor.InsertSourcePages | Uno/Helpers/DocumentProcessor.swift:123-130 | Inserting each returned page at the cursor appends the readable pages in source order. |
| DocumentProcessor.FailedFileIsSkipped | Uno/Helpers/DocumentProcessor.swift:152-154 | A file that fails adds nothing, and the other files' pages are as if it were absent. |
| DocumentProcessor.MergedPageCountBound | Uno/Helpers/DocumentProcessor.swift:114-159 | The merge holds at most the PDF page slots plus one page per file. |
| Highlighter.CopiesUpToMatch | Uno/Helpers/DocumentProcessor.swift:291-295 | A pass copies unchanged any stretch in which no whole-word match starts. |
| Highlighter.FirstMatchFrom | Uno/Helpers/DocumentProcessor.swift:291-295 | The first whole-word match at or after a position, or the end. |
| Highlighter.ReplaceFrom | Uno/Helpers/DocumentProcessor.swift:291-295 | One regular-expression pass only adds text. ReplaceSplitsAtFirstMatch, ReplaceUnchangedIff and StripReplaceFrom give what it adds and where. |
| Highlighter.HighlightWith | Uno/Helpers/DocumentProcessor.swift:289-296 | A sequence of passes never makes the text shorter. HighlightWithGrows and HighlightWithUnchanged say when it makes the text longer and when it leaves it alone. |
| Highlighter.HighlightProgrammingLanguage | Uno/Helpers/DocumentProcessor.swift:285-299 | Highlighting never makes the text shorter. HighlightChangesIff says when it changes the text, and HighlightIsLossless says that removing the markers restores the text. |
| Highlighter.ReplaceSplitsAtFirstMatch | Uno/Helpers/DocumentProcessor.swift:291-295 | A pass copies the text up to the first whole-word match, wraps it as `ESC[0;35m` keyword `ESC[0m`, and continues after it. With no match it copies everything. |
| Highlighter.ReplaceGrows | Uno/Helpers/DocumentProcessor.swift:291-295 | A pass over text in which the keyword stands as a whole word makes the text longer. |
| Highlighter.HighlightWithGrows | Uno/Helpers/DocumentProcessor.swift:289-296 | When any keyword of the list stands in the text as a whole word, the passes make the text longer. |
| Highlighter.HighlightChangesIff | Uno/Helpers/DocumentProcessor.swift:285-299 | Highlighting leaves the text unchanged iff none of the 22 keywords stands in it as a whole word. When one does, the output is longer. |
| Highlighter.ReplaceUnchangedIff | Uno/Helpers/DocumentProcessor.swift:291-295 | A pass changes the text iff the keyword occurs in it as a whole word. |
| Highlighter.HighlightWithUnchanged | Uno/Helpers/DocumentProcessor.swift:289-296 | The passes leave alone a text in which none of their keywords occurs. |
| Highlighter.HighlightUnchangedWithoutKeywords | Uno/Helpers/DocumentProcessor.swift:285-299 | Text without any of the 22 keywords as a whole word comes out unchanged. |
| Highlighter.StripKeepsPlain | Uno/Helpers/DocumentProcessor.swift:293 | Stripping the markers keeps escape-free text as it is. |
| Highlighter.StripStep | Uno/Helpers/DocumentProcessor.swift:291-295 | Each step of a pass emits, once markers are stripped, exactly what the input holds there. |
| Highlighter.StripReplaceFrom | Uno/Helpers/DocumentProcessor.swift:291-295 | One pass only inserts markers: stripped, its output is its input. |
| Highlighter.StripHighlightWith | Uno/Helpers/DocumentProcessor.swift:289-296 | Any sequence of passes only inserts markers. |
| Highlighter.HighlightIsLossless | Uno/Helpers/DocumentProcessor.swift:285-299 | For escape-free text, removing the colour markers from the highlighted text gives the text back. |
| PdfProcessor.CreatePdfPageFromImage | Uno/Models/PDFProcessor.swift:105-109 | The image renderer of this class never yields a page. |
| PdfProcessor.ProcessExistingPdf | Uno/Models/PDFProcessor.swift:76-86 | An unloadable source throws `invalidPDF`. Otherwise its readable pages are appended in source order. |
| PdfProcessor.ProcessImageFile | Uno/Models/PDFProcessor.swift:88-98 | Every image throws `imageProcessingFailed`: either it does not load, or no page is rendered. |
| PdfProcessor.ProcessTextFile | Uno/Models/PDFProcessor.swift:100-103 | A text file leaves the document unchanged and never throws. |
| PdfProcessor.ProcessFile | Uno/Models/PDFProcessor.swift:49-56 | The lower-cased extension picks the handler. A file throws iff it is an unloadable PDF or an image. Otherwise it appends its pages. |
| PdfProcessor.CreatePdf | Uno/Models/PDFProcessor.swift:35-74 | With no failing file, the result is every file's pages in order, after start and done reports for each file. Otherwise the first failing file's error is rethrown after its start report, and no later file is processed. |
| PdfProcessor.StartEvent | Uno/Models/PDFProcessor.swift:42-47 | The report before a file names it and carries file progress 0. |
| PdfProcessor.DoneEvent | Uno/Models/PDFProcessor.swift:59-64 | The report after a file names it, carries file progress 1, and carries the same total as the start report of the next file. |
| PdfProcessor.EventAt | Uno/Models/PDFProcessor.swift:42-64 | Report 2i is file i's start report and report 2i+1 its done report. |
| PdfProcessor.EventTotal | Uno/Models/PDFProcessor.swift:45-62 | Report j carries total progress ⌊(j+1)/2⌋ / n. |
| PdfProcessor.ProgressIsMonotone | Uno/Models/PDFProcessor.swift:42-64 | Total progress never decreases and stays within 0 and 1. It reaches 1 exactly at the done report of the last file. |
| PdfProcessor.FirstFailureFrom | Uno/Models/PDFProcessor.swift:66-69 | The first failing file, or the end if none fails. |
| PdfProcessor.ImageFailsBatch | Uno/Models/PDFProcessor.swift:52-53 | A batch that holds an image file fails, at that file or before it. |
| PdfProcessor.AddOutline | Uno/Models/PDFProcessor.swift:114-124 | An empty outline leaves the document alone. Otherwise a root labelled "Document Outline" gets the entries as children, in order, and the pages are untouched. |

## Left out

- Files.Lower: only ASCII letters are lower-cased, while Swift's `lowercased()` is full Unicode. An extension holding a non-ASCII letter that lower-cases to ASCII is therefore classified differently. For example, "\u{212A}otlin" (KELVIN SIGN) lower-cases to "kotlin" in Swift, but the model treats it as plain text.
- UpdateChecker.SplitDots: the string is split at every `.` character. Swift's `split(separator:)` compares grapheme clusters, so a `.` followed by a combining mark is not a separator there.
- UpdateChecker.RemoveV: every `v` character is removed. Foundation's `replacingOccurrences(of:with:)` compares with canonical equivalence, so a `v` carrying a combining mark (as in "v\u{0301}1.0") need not be removed there.
- Highlighter.HighlightProgrammingLanguage: `\b` and `\w` are taken over ASCII letters, digits and underscore. The regular-expression engine uses Unicode word characters.
- TokenCounter.EstimateTokenCount: a string's length counts characters, while Swift's `count` counts grapheme clusters. The `Double` division is exact for any realistic length, so it is modelled as integer division.
- TokenCounter.FormatTokenCount: the `%.1f` rendering of a `Double` is not modelled. The result records the count and the unit ("K" or "M") that the text would use.
- PdfProcessor.ProgressIsMonotone: progress values are exact rationals, so the `Double` rounding of `index / total` is not modelled.
- DocumentProcessor.CreateAttributedString: the data-format, Markdown and markup highlighters are parameters. Their passes iterate a dictionary in unspecified order and depend on the regular-expression engine. The fonts and paragraph style are the same in every branch and are not modelled.
- Page rendering (`createPDFPage` in both files), image loading and PDF loading are parameters. They use CoreText, CoreGraphics and PDFKit.
- URL handling: a file is reduced to its `lastPathComponent` and `pathExtension`.
- Networking, JSON decoding, `createUpdateRequest`, timers (`setupTimer`), dispatch queues, logging and `print` are left out. A response reaches the model already classified: invalid, undecodable or decoded. The `downloadURL` field is not kept.
- `updateStatusIcon` is left out. It only picks an icon name for the UI.
- `generateThumbnail` is left out. It only does image scaling and drawing.
- `buildFolderStructure`, MemoryManager and PerformanceMonitor are not part of this model.
- The outline field of `PDFProcessor` is always empty, and `addOutline` is never called. `PdfProcessor.AddOutline` models the helper on its own.
- The asynchronous hops in `processFiles` and `handleUpdateResponse` are modelled as running to completion, in program order.

## Findings

| source | as written | input that shows it | evidently intended | confidence | as-written member | corrected member |
|---|---|---|---|---|---|---|
| Uno/Resources/UpdateChecker.swift:99-104 | The retry scheduled after a network error calls `checkForUpdates()`. Its guard returns at once because `isChecking` is still true. Nothing sends a request, shows an error or clears the flag, so every later periodic check is a no-op too. | A fresh check (`isChecking` false, `retryCount` 0) whose request fails with any network error. | The retry re-sends the request. After `maxRetries` failures the check ends with "Network error: …" shown. | not executed; follows from reading lines 73, 75 and 100-104 | UpdateChecker.RetryAsWritten (shown by UpdateChecker.RetryAsWrittenWedges) | UpdateChecker.RetryCorrected (proved by UpdateChecker.RetryCorrectedResends and UpdateChecker.FourthErrorGivesUp) |
