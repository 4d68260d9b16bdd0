# File-Convertor core, modelled in Dafny

File-Convertor is a client-side document converter. The user drops PDF,
DOCX, PPTX and image files onto a drop zone. They pick a target format
(PDF, DOCX, PPTX or TXT), with optional OCR and an OCR language. The app
then converts every file in turn, keeping a per-file status, progress,
result and error in a small store.

This project models the app's decision logic and text reshaping:

- the store of file jobs (`store.dfy`, lib/store.ts);
- the filename, MIME and duration helpers (`utils.dfy`, lib/utils.ts);
- the converters' text reshaping (`converters.dfy`, lib/converters/index.ts).
  This covers the greedy word wrap with page breaks (`pdf_layout.dfy`), the
  paragraph, slide and page layout of every converter, the `a:t` run
  extraction from slide XML, the `"\n\n"` sectioning, and the output-name
  rewrite;
- the OCR worker cache and the shaping of OCR results (`ocr.dfy`,
  lib/ocr/tesseract-worker.ts);
- the conversion router and the batch loop (`conversion.dfy`,
  hooks/use-conversion.ts);
- the decisions in three components: drop admission (`drag_zone.dfy`), the
  convert guard and download plan (`conversion_zone.dfy`), and the
  format/OCR selector (`conversion_selector.dfy`).

Shared pieces are `wrappers.dfy` (`Option`), `text.dfy` and `types.dfy`.
`text.dfy` holds JavaScript's `split`, `join`, `trim`, `lastIndexOf`,
`toLowerCase` and decimal rendering on `seq<char>`. `types.dfy` holds the
records of types/index.ts.

The codec libraries are parameters. That covers pdf.js, mammoth, JSZip,
docx, pptxgenjs, pdf-lib and Tesseract. A converter receives what its
decoder would hand over: the text items of each PDF page, the raw text of a
DOCX, the entries of a PPTX archive, or the text of a plain file. It
returns what the encoder is given: drawn PDF lines with page and height,
DOCX paragraphs with their style, PPTX slides, or plain text. Font widths
are an uninterpreted `measure: string -> real`, and the page size is a
parameter. The recognition engine is a function from a language and a file
to text, confidence and words.

Four behaviours of the code are worth stating outright, because a reader
might expect otherwise:

- A record keeps its old result when it is later set to processing or to
  error (lib/store.ts:34-39 and 50-56 copy every other field). So a record
  in error can still carry the result of an earlier run
  (`Store.StaleResultSurvivesFailure`).
- A line is broken only between words (lib/converters/index.ts:41-55). A
  single word wider than the printable width is drawn alone, on one
  over-wide line (`PdfLayout.SingleWordNeverBreaks`,
  `PdfLayout.OnlySingleWordsOverflow`). Widths are measured on the buffer
  with its trailing space, not on the trimmed text that is drawn.
- A whitespace-only line draws nothing only while its buffer fits
  (lib/converters/index.ts:45-73). A longer one draws empty lines, one per
  overflow, and moves the cursor (`PdfLayout.BlankLineDrawsNoText`).
- Slides are numbered by their position among the archive's slide parts,
  in archive order, not by the number in the part's name
  (lib/converters/index.ts:146-165). Blank slides leave gaps in the
  numbering (`Converters.PptxToDocx`, `Converters.SlidePartsAppend`).

## Model

| member | source | states |
|---|---|---|
| `Utils.ExtensionCases` | lib/utils.ts:27-29 | `getFileExtension` is "" without a ".", with only a leading ".", or with a trailing "."; otherwise it is the lower-cased text after the last ".", which contains no "." (names up to 2^32 characters, where `>>> 0` is exact) |
| `Utils.GetFileName` | lib/utils.ts:31-33 | the result is the whole name, or a proper prefix followed in the name by "."; it is empty only for the empty name |
| `Utils.StemAndExtension` | lib/utils.ts:27-33 | when the last "." is at index i > 0, `getFileName(n) + "." + n[i+1..] == n` and `getFileExtension(n)` is `n[i+1..]` lower-cased |
| `Utils.GetMimeType` | lib/utils.ts:35-48 | the result is never empty, and it is `application/octet-stream` exactly when the lower-cased extension is not one of the nine table keys |
| `Utils.MimeTypeIgnoresCase` | lib/utils.ts:47 | an extension and its lower-cased form get the same MIME type |
| `Utils.ImageMimeTypes` | lib/utils.ts:36-47 | an extension gets an `image/` type exactly when it is jpg, jpeg or png in any case; jpg and jpeg both give `image/jpeg` |
| `Utils.ParseFormatDuration` | lib/utils.ts:20-25 | for any non-negative number of seconds, the rendering reads back as `Math.round` of it: below a minute "<round(s)>s", from a minute on "<floor(s/60)>m <round(s % 60)>s", whose parts add back up to the rounded total; whole seconds read back as themselves |
| `Utils.DurationRounding` | lib/utils.ts:20-25 | the rounding shows in the text: 59.6 renders as "60s", 119.6 as "1m 60s", and -5 as "-5s", which does not read back |
| `Utils.JsRoundShift` | lib/utils.ts:21-23 | `Math.round` commutes with adding whole numbers, which is why the minutes and the rounded remainder add up to the rounded total |
| `Store.TypeOfNameCases` | lib/store.ts:19 | the stored type is the lower-cased text after the last ".", or the whole lower-cased name when it has no "." (unlike `getFileExtension`, which gives "") |
| `Store.NewRecord` | lib/store.ts:14-22 | a new record carries the id, the file, its name and size and type, status pending, progress 0, and no error or result |
| `Store.AppendFiles` | lib/store.ts:13-27 | the old records stay first and unchanged, followed by one new record per file in input order |
| `Store.RemoveById` | lib/store.ts:29-32 | no kept record has the id, and every kept record was in the list |
| `Store.RemoveByIdKeepsOthers` | lib/store.ts:29-32 | every record with another id is kept |
| `Store.RemoveByIdAppend` | lib/store.ts:29-32 | removal distributes over concatenation, so the kept records keep their order |
| `Store.RemoveUniqueId` | lib/store.ts:29-32 | removing a record's id when it is unique deletes exactly that record and keeps the others in order |
| `Store.UpdateStatus` | lib/store.ts:34-39 | same length; records with another id are unchanged; the matching records get the status and progress, and every other field, result included, is kept |
| `Store.SetResult` | lib/store.ts:41-48 | only the matching records change: status completed, progress 100, the result; every other field is kept |
| `Store.SetError` | lib/store.ts:50-56 | only the matching records change: status error and the message; progress and any earlier result are kept |
| `Store.ActionsKeepConsistency` | lib/store.ts:13-56 | adding, removing, setting pending or processing, setting a result and setting an error all keep "completed implies a result" and "error implies a message" |
| `Store.StaleResultSurvivesFailure` | lib/store.ts:34-56 | a completed record that is set processing and then fails is in error with its old result still attached |
| `Store.FileStore.constructor` | lib/store.ts:8-11 | the initial state is an empty list, not processing, no conversion type, and the persisted theme flag |
| `Store.FileStore.Persisted` | lib/store.ts:67-70 | only the theme flag is persisted |
| `Store.FileStore.AddFiles` | lib/store.ts:13-27 | the list becomes `AppendFiles` of the old list; the flags are unchanged |
| `Store.FileStore.RemoveFile` | lib/store.ts:29-32 | the list becomes `RemoveById` of the old list; the flags are unchanged |
| `Store.FileStore.UpdateFileStatus` | lib/store.ts:34-39 | the list becomes `UpdateStatus` of the old list, with an absent progress read as 0; the flags are unchanged |
| `Store.FileStore.SetConversionResult` | lib/store.ts:41-48 | the list becomes `SetResult` of the old list; the flags are unchanged |
| `Store.FileStore.SetErrorMessage` | lib/store.ts:50-56 | the list becomes `SetError` of the old list; the flags are unchanged |
| `Store.FileStore.ClearAll` | lib/store.ts:59 | the list is emptied, processing and conversion type are cleared, and the theme flag is kept |
| `Store.FileStore.SetProcessing` | lib/store.ts:61 | only the processing flag changes |
| `Store.FileStore.SetConversionType` | lib/store.ts:63 | only the conversion type changes |
| `Store.FileStore.ToggleDarkMode` | lib/store.ts:65 | only the theme flag changes, to its negation |
| `PdfLayout.WrapWellWrapped` | lib/converters/index.ts:38-62 | the wrap of a line's words gives back exactly those words, in order, across its lines; each line's growing buffers fit the limit, and each new line starts with a word that overflowed the previous buffer |
| `PdfLayout.WrapIsUnique` | lib/converters/index.ts:38-62 | any split into lines with those two properties is the one the wrap produces, so the greedy rule fully decides the lines |
| `PdfLayout.OnlySingleWordsOverflow` | lib/converters/index.ts:41-62 | a line of two or more words always measures within width minus both margins |
| `PdfLayout.SingleWordNeverBreaks` | lib/converters/index.ts:41-62 | a one-word line is one drawn line however wide the word is |
| `PdfLayout.FlushBuffer` | lib/converters/index.ts:45-58 | drawing a full buffer appends one line at the cursor and keeps every drawn line on a page, within the margins, and in order |
| `PdfLayout.LayoutLine` | lib/converters/index.ts:38-74 | after one source line, the drawn texts are the earlier ones followed by the trimmed buffers of its wrap, without a last buffer that is blank; the layout invariant is kept |
| `PdfLayout.LayoutText` | lib/converters/index.ts:27-75 | the document has at least one page; every line is drawn on an existing page, below the top margin and (when the page has room for a line) above the bottom one; lines are in drawing order; the drawn texts are those of the line-by-line wrap |
| `PdfLayout.BlankLineDrawsNoText` | lib/converters/index.ts:64-73 | a whitespace-only line draws only empty texts, one fewer than its buffers, so a blank line that fits draws nothing |
| `Converters.ReplaceExtensionSpec` | lib/converters/index.ts:82 | where `/\.[^/.]+$/` matches at i, the name becomes `name[..i] + ext`; where it matches nowhere (for example "README" or "file."), the name comes back unchanged |
| `Converters.ReplaceExtensionIdempotent` | lib/converters/index.ts:82 | renaming a second time with the same extension changes nothing |
| `Converters.ReplacedExtensionIsRead` | lib/converters/index.ts:82 | after a rename with a non-empty stem, `getFileExtension` reads the new extension back |
| `Converters.Result` | lib/converters/index.ts:132-137 | a converter's result has the renamed file, the output type, the blob, and no OCR data |
| `Converters.BuildBlocks` | lib/converters/index.ts:100-118 | the converters' per-item loop appends one block per page, slide or section, numbered from 1, in order |
| `Converters.BlocksAt` | lib/converters/index.ts:100-118 | each item's block sits between the blocks of the items before it and those after it |
| `Converters.NonBlankEmpty` | lib/converters/index.ts:204 | the `s.trim()` filter leaves nothing exactly when every piece is blank |
| `Converters.PdfToDocx` | lib/converters/index.ts:88-138 | the DOCX paragraphs are the page-by-page blocks of the page texts (items joined by " ") |
| `Converters.PdfDocxDocument` | lib/converters/index.ts:100-118 | for a document of n pages, the paragraphs holding text are exactly its non-blank pages in page order, and the empty ones are the n - 1 separators, one after every page but the last |
| `Converters.PdfToTxt` | lib/converters/index.ts:283-310 | the text is the concatenation of `"Page i\n\n<text>\n\n"` over the pages |
| `Converters.PdfTextHasEveryPage` | lib/converters/index.ts:292-300 | every page, blank or not, has its section in the text, in page order |
| `Converters.PdfToPptx` | lib/converters/index.ts:312-365 | the slides are the page-by-page blocks of the page texts |
| `Converters.PdfSlidesPerPage` | lib/converters/index.ts:322-355 | one slide per page, titled "Page 1", "Page 2", …, with a body exactly when the page text is not blank |
| `Converters.TextToPdf` | lib/converters/index.ts:13-86 | when the font cannot encode some measured character, the result is that error for the first such character; otherwise the output is a PDF of at least one page whose drawn texts are the wrap of the text's lines; `convertTxtToPdf` (lines 413-479) is the same code over the file's text |
| `Converters.BadCharOfText` | lib/converters/index.ts:31-43 | the character the font fails on is the first unencodable one of the text with its line breaks read as spaces and a space added; there is none exactly when the space and every character but a line break can be encoded |
| `PdfLayout.MeasuredIsText` | lib/converters/index.ts:31-43 | the words measured, each followed by a space, line after line, are exactly the text with line breaks read as spaces, plus one space |
| `PdfLayout.FirstUnencodable` | lib/converters/index.ts:43 | none exactly when every character can be encoded; otherwise a character that cannot be, with every character before it encodable |
| `Converters.DocxToTxt` | lib/converters/index.ts:367-380 | the text output is the extracted text, under the renamed file |
| `Converters.TxtParagraphs` | lib/converters/index.ts:486-490 | one plain paragraph per "\n"-separated line, empty lines included, in order |
| `Converters.TxtParagraphsRoundTrip` | lib/converters/index.ts:486-490 | the paragraphs' texts joined with "\n" give the original text back |
| `Converters.TxtToDocx` | lib/converters/index.ts:482-507 | the DOCX holds the per-line paragraphs, under the renamed file |
| `Converters.ImageToPdf` | lib/converters/index.ts:241-281 | the image is embedded as PNG exactly when its MIME type is `image/png`, and as JPEG otherwise |
| `Converters.SectionsEmptyIffBlank` | lib/converters/index.ts:204 | splitting on "\n\n" and dropping blank pieces leaves no section exactly when the whole text is blank |
| `Converters.SectionSlidesNumbered` | lib/converters/index.ts:206-229 | one slide per section, titled "Slide 1" to "Slide k" with no gaps, each holding its section |
| `Converters.DocxToPptx` | lib/converters/index.ts:191-238 | the slides are the blocks of the non-blank "\n\n" sections of the extracted text |
| `Converters.TxtSectionsFallbackUnreachable` | lib/converters/index.ts:515-519 | the whole-text fallback never fires: the sections are those of the DOCX converter |
| `Converters.TxtToPptx` | lib/converters/index.ts:509-539 | the slides are the blocks of the sections, fallback included |
| `Converters.SlideParts` | lib/converters/index.ts:146-148 | an archive entry is kept exactly when its path starts with "ppt/slides/slide" and ends with ".xml" |
| `Converters.SlidePartsAppend` | lib/converters/index.ts:146-148 | filtering keeps archive order: the slide parts of a concatenation are those of each part, one after the other |
| `Converters.MatchAt` | lib/converters/index.ts:156 | a match is an attribute-free `<a:t>`, non-empty content without "<", then `</a:t>`, at the start of the text |
| `Converters.Runs` | lib/converters/index.ts:156-158 | every extracted run is non-empty and contains no "<" |
| `Converters.RunsRender` | lib/converters/index.ts:156-158 | extraction reads back every run written as an attribute-free `a:t` element, in order |
| `Converters.RunsNeedOpenTag` | lib/converters/index.ts:156 | text without a literal `<a:t>` yields no runs, so elements with attributes are not read |
| `Converters.SlideTexts` | lib/converters/index.ts:152-159 | one text per slide part, in archive order: its runs joined by " " |
| `Converters.PptxToDocx` | lib/converters/index.ts:140-189 | the paragraphs are the slide-by-slide blocks: heading "Slide i", the text and an empty paragraph for each non-blank slide |
| `Converters.PptxToTxt` | lib/converters/index.ts:382-411 | the text is the concatenation of `"Slide i:\n<text>\n\n"` over the non-blank slides |
| `Converters.SlideOutputs` | lib/converters/index.ts:161-174 | three paragraphs per non-blank slide and none for a blank one; the text output is empty exactly when every slide is blank |
| `Ocr.LanguageOrDefault` | lib/ocr/tesseract-worker.ts:8 | an absent language is "eng"; a given one is used as it is |
| `Ocr.ShapeOcr` | lib/ocr/tesseract-worker.ts:41-50 | the result has the engine's text and confidence, the language asked for, and one word record per recognised word, in the same order, with its text, confidence and box |
| `Ocr.OcrDocxLayout` | lib/ocr/tesseract-worker.ts:84-99 | the OCR DOCX holds the bold confidence header, one empty paragraph, then one paragraph per "\n" line; those lines joined with "\n" give the recognised text back |
| `Ocr.OcrResultsHoldRecognisedText` | lib/ocr/tesseract-worker.ts:53-114 | the OCR TXT is the recognised text, the OCR DOCX's body lines join back to it, and both results carry the recognition as their OCR data |
| `Ocr.OcrLanguageCodes` | lib/ocr/tesseract-worker.ts:143-156 | the codes are those of the supported-language list, in order |
| `Ocr.SupportedCodesDistinct` | lib/ocr/tesseract-worker.ts:143-156 | the list has twelve languages and no code twice |
| `Ocr.OcrEngine.constructor` | lib/ocr/tesseract-worker.ts:5-6 | at load there is no worker and no current language |
| `Ocr.OcrEngine.InitOCRWorker` | lib/ocr/tesseract-worker.ts:8-25 | with a live worker for the same language, it returns that worker and creates none; otherwise it shuts down any live worker and creates one; afterwards the worker is live, the current language is the request, and at most one worker is live |
| `Ocr.OcrEngine.PerformOcr` | lib/ocr/tesseract-worker.ts:27-51 | it obtains the worker for the language (default "eng") and returns the shaped recognition of the file in that language; there is no progress callback to call |
| `Ocr.OcrEngine.ConvertImageToTextWithOcr` | lib/ocr/tesseract-worker.ts:53-69 | the result is the recognised text as a TXT under the renamed file, with the recognition as OCR data |
| `Ocr.OcrEngine.ConvertImageToDocxWithOcr` | lib/ocr/tesseract-worker.ts:71-114 | the result is the header-and-lines DOCX under the renamed file, with the recognition as OCR data |
| `Ocr.OcrEngine.ConvertPdfToTextWithOcr` | lib/ocr/tesseract-worker.ts:116-134 | the whole PDF file goes to the engine as one image; the result is shaped as for an image |
| `Ocr.OcrEngine.TerminateOCRWorker` | lib/ocr/tesseract-worker.ts:136-141 | the worker, if any, is shut down and dropped; the current language is kept, so the next init always creates a fresh worker |
| `Conversion.RoutedIffSupported` | hooks/use-conversion.ts:38-106 | a converter is chosen exactly for image→{txt, docx, pdf} (any target with OCR on), pdf→{docx, txt, pptx}, docx→{pdf, pptx, txt}, pptx→{docx, txt} and txt→{pdf, docx, pptx}; every other pair fails with "Conversion from X to Y not supported" |
| `Conversion.ImageOcrOverridesTarget` | hooks/use-conversion.ts:38-42 | with OCR on, an image goes to text OCR whatever target is selected |
| `Conversion.ImageTargets` | hooks/use-conversion.ts:43-49 | with OCR off, an image to DOCX still goes through OCR, and an image to PPTX is unsupported |
| `Conversion.PdfTextUsesOcrIff` | hooks/use-conversion.ts:56-69 | PDF to TXT uses OCR exactly when OCR is on or a language other than "eng" is given; an absent language counts as "eng" |
| `Conversion.RouteProducesTarget` | hooks/use-conversion.ts:37-104 | the chosen converter produces the selected format, except that an image with OCR on always produces "txt" |
| `Conversion.ProducedOutputType` | hooks/use-conversion.ts:37-104 | a converted result has its converter's output type, and carries OCR data exactly for the three OCR converters |
| `Conversion.RunRoute` | hooks/use-conversion.ts:37-104 | running a converter gives its result on the decoder's reading of the file, or the decoder's error; only the three OCR converters touch the worker cache, and they leave a worker for the requested language (default "eng") |
| `Conversion.ConvertFile` | hooks/use-conversion.ts:28-110 | the outcome is the chosen converter's, or the unsupported-pair error; an unsupported pair or a non-OCR converter leaves the worker cache as it was |
| `Conversion.ErrorText` | hooks/use-conversion.ts:140 | the stored error message is never empty: it is the error's message, or exactly "Conversion failed" when that is empty |
| `Conversion.OcrProgress` | hooks/use-conversion.ts:40-42 | an OCR progress fraction is written, times 100, as status processing on that file's records only |
| `Conversion.StepEffect` | hooks/use-conversion.ts:126-140 | one file's turn changes only the records with its id |
| `Conversion.BatchOutcome` | hooks/use-conversion.ts:112-150 | with distinct ids, each record ends with its own outcome: a skipped one untouched, a converted one completed at 100 with its result, a failed one in error at 0 with its message; one failure does not affect the others |
| `Conversion.BatchKeepsConsistency` | hooks/use-conversion.ts:112-150 | whatever the outcomes, a batch keeps "completed implies a result" and "error implies a message" |
| `Conversion.ProcessRecord` | hooks/use-conversion.ts:119-146 | a file whose extension is the target is skipped with no store change; otherwise it is set processing at 0, then given its result or its error; a skipped file leaves the worker cache as it was |
| `Conversion.ConvertFiles` | hooks/use-conversion.ts:112-150 | every file of the list as it was at the start is handled once, in order; the store ends as the fold of the turns; the processing flag is lowered at the end, and the theme and conversion type are untouched |
| `DragZone.TextIsNotAccepted` | components/converter/drag-zone.tsx:14-22 | neither ".txt" nor "text/plain" is in the accepted-format table |
| `DragZone.RejectionNotice` | components/converter/drag-zone.tsx:29-44 | a rejected file is "too large" exactly when its size exceeds 100 MB, so exactly 100 MB is an invalid type |
| `DragZone.DropAdmission` | components/converter/drag-zone.tsx:27-67 | one notice per rejected file comes first; the accepted files are added together exactly when the new total is at most 10, and "Too many files" is raised exactly when it is more |
| `DragZone.DropKeepsLimit` | components/converter/drag-zone.tsx:47-57 | a drop never takes a list of at most 10 files beyond 10 |
| `DragZone.DropFiles` | components/converter/drag-zone.tsx:27-67 | the store gets the accepted files appended only when they are admitted, and is otherwise unchanged |
| `ConversionSelector.LanguagesAreSupported` | components/converter/conversion-selector.tsx:24-31 | the six offered languages are all among the OCR worker's twelve |
| `ConversionSelector.OcrIsSticky` | components/converter/conversion-selector.tsx:56-61 | format clicks never turn OCR off, OCR is on once TXT has been clicked, the target is the last format clicked, and the language is untouched |
| `ConversionSelector.StickyOcrRoutesImagesToText` | components/converter/conversion-selector.tsx:56-61 | once TXT has been clicked, every image is routed to text OCR whatever format is selected afterwards |
| `ConversionSelector.PanelOpenMeansOcr` | components/converter/conversion-selector.tsx:41-61 | from the initial selection, whatever formats are clicked, while the language panel is open TXT has been clicked and OCR is on, so a PDF goes to text through OCR in the chosen language |
| `ConversionSelector.SelectionState.constructor` | components/converter/conversion-zone.tsx:18-20 | the initial selection is target "pdf", OCR off, language "eng" |
| `ConversionSelector.SelectionState.ClickFormat` | components/converter/conversion-selector.tsx:56-61 | the target becomes the clicked format; TXT also turns OCR on; nothing else changes |
| `ConversionSelector.SelectionState.ClickLanguage` | components/converter/conversion-selector.tsx:99 | only the language changes, to the clicked code |
| `ConversionZone.HandleConvert` | components/converter/conversion-zone.tsx:23-38 | an empty list gives the "No files" notice, no batch and an untouched worker cache; otherwise the batch runs with the three current selections; the theme flag and the conversion type are untouched |
| `ConversionZone.DownloadSetAppend` | components/converter/conversion-zone.tsx:41-46 | the download set keeps list order: that of a concatenation is the concatenation of the sets |
| `ConversionZone.DownloadSetMembers` | components/converter/conversion-zone.tsx:41-46 | a file is downloaded exactly when it is completed and has a result, under its result's blob and file name |
| `ConversionZone.DownloadSetAndCount` | components/converter/conversion-zone.tsx:41-77 | the download set never exceeds the completed count, and equals it while every completed file has a result |
| `ConversionZone.PlanMatchesReadyFiles` | components/converter/conversion-zone.tsx:48-67 | no ready file gives no download; exactly one gives a direct download under its result's file name; two or more give one zip of the whole set in order |
| `ConversionZone.CompletedCount` | components/converter/conversion-zone.tsx:77 | the completed count never exceeds the number of files; it is 0 exactly when no file is completed, and the number of files exactly when all are |
| `ConversionZone.CompletedCountAppend` | components/converter/conversion-zone.tsx:77 | the count of a list is the sum of the counts of its parts |

## Left out

- The codec libraries (pdf.js and its worker setup, mammoth, JSZip, docx `Packer`, pptxgenjs, pdf-lib) are foreign calls. Their readings are parameters and their inputs are the modelled outputs.
- Decoding failures are modelled for PDF, DOCX and PPTX input, as an error message. Failures of text reading, image embedding and the OCR engine are not modelled; in the code their messages take the same error path.
- Font metrics and page size are parameters (`measure`, `width`, `height`), so widths are not computed. Which characters the standard Helvetica font can encode (its WinAnsi table) and the message pdf-lib throws are parameters too (`fontEncodes`, `encodeError`). Styling (font sizes, bold, colours, slide text-box geometry) is not modelled beyond paragraph style and slide title and body.
- `convertImageToPdf`'s scaling and centring is left out (lib/converters/index.ts:258-270), and so is `formatBytes` (lib/utils.ts:8-18). Both are floating-point arithmetic.
- Tesseract recognition, `createWorker`, its logger and the object URLs are left out; recognition is a parameter. Confidence is a whole number, so `Math.round` in the DOCX header is the identity.
- `Date.now()` timestamps (`processedAt`) and the `Math.random()` ids are nondeterministic. Ids are given, and the batch lemma that tracks each record assumes they are distinct.
- Async scheduling, React closure snapshots and zustand's persist middleware are not modelled. The batch is a sequential loop over the list as it was when it started, and no other action runs during it.
- DOM effects (`downloadFile`, `downloadZip`, confetti, vibration, `cn`), toasts and all rendering are left out. Drop notices and the download plan are returned as values instead.
- The dropzone library's own filtering by type, size and count is left out. Its verdicts are the accepted and rejected inputs of `DragZone.OnDrop`.
- `toLowerCase` is modelled on ASCII letters only. `trim` uses JavaScript's whitespace set.
- `Utils.ExtensionCases`: stated for names of at most 2^32 characters, where `>>> 0` does not wrap.
- `Utils.GetMimeType`: a lookup of "constructor" or another inherited property name of a JavaScript object is not modelled. Such names give the fallback type.
- `Converters.ReplacedExtensionIsRead`: stated for renamed names of at most 2^32 characters.
- `Ocr.OcrEngine.PerformOcr`: the `onProgress` argument is not a parameter, because the code never calls it. As a result no OCR progress update reaches the store during a batch. `Conversion.OcrProgress` states what the update would do.
- `PdfLayout.LayoutText`: the cursor's exact heights are not stated. The contract gives the page bounds, the drawing order and the drawn texts.
- `PdfLayout.BlankLineDrawsNoText`: states the drawn texts of a whitespace-only line, not that the cursor stays put.
- `PdfLayout`: numbers are exact reals, not JavaScript doubles. `LineHeight` is 12 × 1.2 = 14.4 here, while the double product is 14.399999999999999, so a cursor that lands exactly on a page-break boundary can break differently. OCR progress is a real as well.
- `Utils.ParseFormatDuration`: stated on exact reals. `Math.round` and `Math.floor` on doubles agree with it except where the double nearest to a decimal input falls on the other side of a rounding boundary. Negative durations render with a "-" and are not read back.
- `Converters.TextToPdf`: the layout model checks encodability before laying out, where the code throws during its first measure of the bad character. No page is saved in either case, so the outcome is the same.
