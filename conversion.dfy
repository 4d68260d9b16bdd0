/**
 * The conversion flow of hooks/use-conversion.ts: `convertFile` picks a
 * converter from the source extension and the options, and `convertFiles`
 * runs it over every file of the store in order, recording each outcome.
 *
 * The codec libraries are a `Codec` value: what each decoder reads from a
 * file (or the message it fails with), the recognition engine, and the font
 * measure and page size of the PDF writer.
 */
module Conversion {
  import opened Wrappers
  import opened Text
  import opened Types
  import opened Utils
  import opened Store
  import Converters
  import PdfLayout
  import Ocr

  /** The converter `convertFile` calls. */
  datatype Route =
    | ImageToTextOcr | ImageToDocxOcr | ImageToPdf
    | PdfToDocx | PdfToTextOcr | PdfToTxt | PdfToPptx
    | DocxToPdf | DocxToPptx | DocxToTxt
    | PptxToDocx | PptxToTxt
    | TxtToPdf | TxtToDocx | TxtToPptx

  /** A converter, or the error `convertFile` throws when none fits. */
  datatype Routing = Routed(route: Route) | Unsupported(message: string)

  /** The image extensions: "jpg", "jpeg" and "png". */
  predicate IsImage(ext: string) {
    ext == "jpg" || ext == "jpeg" || ext == "png"
  }

  /** The message for a pair no converter handles. */
  function UnsupportedMessage(sourceType: string, targetFormat: string): string {
    "Conversion from " + sourceType + " to " + targetFormat + " not supported"
  }

  /**
   * `convertFile`'s choice, branch by branch: an image goes to text OCR when
   * the target is "txt" or OCR is on, whatever the target; a PDF goes to
   * text OCR when OCR is on or the language (default "eng") is not "eng".
   */
  function RouteFor(sourceType: string, options: ConversionOptions): Routing {
    var target := options.targetFormat;
    var language := options.ocrLanguage.GetOr("eng");
    if IsImage(sourceType) && (target == "txt" || options.enableOCR) then Routed(ImageToTextOcr)
    else if IsImage(sourceType) && target == "docx" then Routed(ImageToDocxOcr)
    else if IsImage(sourceType) && target == "pdf" then Routed(ImageToPdf)
    else if sourceType == "pdf" && target == "docx" then Routed(PdfToDocx)
    else if sourceType == "pdf" && target == "txt" then
      (if options.enableOCR || language != "eng" then Routed(PdfToTextOcr) else Routed(PdfToTxt))
    else if sourceType == "pdf" && target == "pptx" then Routed(PdfToPptx)
    else if sourceType == "docx" && target == "pdf" then Routed(DocxToPdf)
    else if sourceType == "docx" && target == "pptx" then Routed(DocxToPptx)
    else if sourceType == "docx" && target == "txt" then Routed(DocxToTxt)
    else if sourceType == "pptx" && target == "docx" then Routed(PptxToDocx)
    else if sourceType == "pptx" && target == "txt" then Routed(PptxToTxt)
    else if sourceType == "txt" && target == "pdf" then Routed(TxtToPdf)
    else if sourceType == "txt" && target == "docx" then Routed(TxtToDocx)
    else if sourceType == "txt" && target == "pptx" then Routed(TxtToPptx)
    else Unsupported(UnsupportedMessage(sourceType, target))
  }

  /** The pairs the converters cover, as a table. */
  predicate SupportedPair(sourceType: string, target: string, enableOCR: bool) {
    (IsImage(sourceType) && (enableOCR || target in ["txt", "docx", "pdf"]))
    || (sourceType == "pdf" && target in ["docx", "txt", "pptx"])
    || (sourceType == "docx" && target in ["pdf", "pptx", "txt"])
    || (sourceType == "pptx" && target in ["docx", "txt"])
    || (sourceType == "txt" && target in ["pdf", "docx", "pptx"])
  }

  /**
   * A converter is found exactly for the pairs of the table; for every other
   * pair the error names the source extension and the target.
   */
  lemma {:induction false} RoutedIffSupported(sourceType: string, options: ConversionOptions)
    ensures RouteFor(sourceType, options).Routed? <==>
      SupportedPair(sourceType, options.targetFormat, options.enableOCR)
    ensures RouteFor(sourceType, options).Unsupported? ==>
      RouteFor(sourceType, options).message == UnsupportedMessage(sourceType, options.targetFormat)
  {
  }

  /** With OCR on, every image becomes text, whatever target is selected. */
  lemma ImageOcrOverridesTarget(sourceType: string, options: ConversionOptions)
    requires IsImage(sourceType) && options.enableOCR
    ensures RouteFor(sourceType, options) == Routed(ImageToTextOcr)
  {
  }

  /** An image to DOCX always goes through OCR; an image to PPTX is never supported. */
  lemma ImageTargets(sourceType: string, options: ConversionOptions)
    requires IsImage(sourceType) && !options.enableOCR
    ensures options.targetFormat == "docx" ==> RouteFor(sourceType, options) == Routed(ImageToDocxOcr)
    ensures options.targetFormat == "pptx" ==> RouteFor(sourceType, options).Unsupported?
  {
  }

  /**
   * PDF to TXT uses OCR exactly when OCR is on or a language other than
   * "eng" is selected; an absent language counts as "eng".
   */
  lemma PdfTextUsesOcrIff(options: ConversionOptions)
    requires options.targetFormat == "txt"
    ensures RouteFor("pdf", options) == Routed(PdfToTextOcr) <==>
      options.enableOCR || (options.ocrLanguage.Some? && options.ocrLanguage.value != "eng")
    ensures RouteFor("pdf", options) != Routed(PdfToTextOcr) ==> RouteFor("pdf", options) == Routed(PdfToTxt)
  {
  }

  /** The `outputType` each converter produces. */
  function OutputType(route: Route): string {
    match route
    case ImageToTextOcr => "txt"
    case ImageToDocxOcr => "docx"
    case ImageToPdf => "pdf"
    case PdfToDocx => "docx"
    case PdfToTextOcr => "txt"
    case PdfToTxt => "txt"
    case PdfToPptx => "pptx"
    case DocxToPdf => "pdf"
    case DocxToPptx => "pptx"
    case DocxToTxt => "txt"
    case PptxToDocx => "docx"
    case PptxToTxt => "txt"
    case TxtToPdf => "pdf"
    case TxtToDocx => "docx"
    case TxtToPptx => "pptx"
  }

  /** The three converters that go through the OCR worker. */
  predicate UsesOcr(route: Route) {
    route in {ImageToTextOcr, ImageToDocxOcr, PdfToTextOcr}
  }

  /**
   * The chosen converter produces the selected format, except that an image
   * with OCR on always produces "txt".
   */
  lemma {:induction false} RouteProducesTarget(sourceType: string, options: ConversionOptions)
    requires RouteFor(sourceType, options).Routed?
    ensures OutputType(RouteFor(sourceType, options).route) ==
      if IsImage(sourceType) && options.enableOCR then "txt" else options.targetFormat
  {
  }

  // ---------------------------------------------------------------------
  // Running a converter
  // ---------------------------------------------------------------------

  /** What a decoder reads from a file, or the message it throws. */
  datatype Read<T> = Read(value: T) | Unreadable(message: string)

  /**
   * The codec libraries: the text items of each PDF page, the raw text of a
   * DOCX, the entries of a PPTX archive, the text of a plain file, the
   * recognition engine, and the PDF writer's font (which characters it can
   * encode, the message it throws for one it cannot, its measure) and page size.
   */
  datatype Codec = Codec(
    pdfPages: SourceFile -> Read<seq<seq<string>>>,
    docxText: SourceFile -> Read<string>,
    pptxEntries: SourceFile -> Read<seq<Converters.ZipEntry>>,
    fileText: SourceFile -> string,
    recognize: (string, SourceFile) -> Ocr.Recognition,
    fontEncodes: char -> bool,
    encodeError: char -> string,
    measure: string -> real,
    width: real,
    height: real)

  /** A converter's result, or the message of the error it throws. */
  datatype Outcome = Converted(result: ConversionResult) | Failed(message: string)

  /** A laid-out PDF of `text`: its file name and type, at least one page, and its drawn lines. */
  ghost predicate LaidOut(r: ConversionResult, file: SourceFile, text: string, codec: Codec) {
    r.filename == Converters.ReplaceExtension(file.name, ".pdf") && r.outputType == "pdf" && r.ocrData == None
    && r.blob.PdfTextBlob? && r.blob.pages >= 1
    && PdfLayout.Texts(r.blob.lines) == PdfLayout.DocOutput(codec.measure, PdfLayout.Limit(codec.width), Split(text, "\n"))
  }

  /** A PDF of `text`: the font's error at the first character it cannot encode, or the laid-out PDF. */
  ghost predicate PdfProduced(o: Outcome, file: SourceFile, text: string, codec: Codec) {
    match Converters.FirstBadChar(text, codec.fontEncodes)
    case Some(c) => o == Failed(codec.encodeError(c))
    case None => o.Converted? && LaidOut(o.result, file, text, codec)
  }

  /** The recognition a call with `language` (default "eng") makes of `file`. */
  function Recognized(file: SourceFile, language: Option<string>, codec: Codec): OcrResult {
    var lang := Ocr.LanguageOrDefault(language);
    Ocr.ShapeOcr(codec.recognize(lang, file), lang)
  }

  /** What running `route` on `file` yields: the converter's result, or the decoder's error. */
  ghost predicate Produces(route: Route, file: SourceFile, language: Option<string>, codec: Codec, o: Outcome) {
    match route
    case ImageToTextOcr => o == Converted(Ocr.OcrTextResult(file, Recognized(file, language, codec)))
    case ImageToDocxOcr => o == Converted(Ocr.OcrDocxResult(file, Recognized(file, language, codec)))
    case ImageToPdf => o == Converted(Converters.ImageToPdf(file))
    case PdfToTextOcr => o == Converted(Ocr.OcrTextResult(file, Recognized(file, language, codec)))
    case PdfToDocx =>
      (match codec.pdfPages(file)
       case Read(pages) => o == Converted(Converters.Result(file, "docx", DocxBlob(
         Converters.Blocks(Converters.PdfPageParagraphs(|pages|), Converters.PageTexts(pages), 1))))
       case Unreadable(m) => o == Failed(m))
    case PdfToTxt =>
      (match codec.pdfPages(file)
       case Read(pages) => o == Converted(Converters.Result(file, "txt", TextBlob(
         Converters.Blocks(Converters.PdfPageText, Converters.PageTexts(pages), 1))))
       case Unreadable(m) => o == Failed(m))
    case PdfToPptx =>
      (match codec.pdfPages(file)
       case Read(pages) => o == Converted(Converters.Result(file, "pptx", PptxBlob(
         Converters.Blocks(Converters.PdfPageSlide, Converters.PageTexts(pages), 1))))
       case Unreadable(m) => o == Failed(m))
    case DocxToPdf =>
      (match codec.docxText(file)
       case Read(text) => PdfProduced(o, file, text, codec)
       case Unreadable(m) => o == Failed(m))
    case DocxToPptx =>
      (match codec.docxText(file)
       case Read(text) => o == Converted(Converters.Result(file, "pptx", PptxBlob(
         Converters.Blocks(Converters.SectionSlide, Converters.Sections(text), 1))))
       case Unreadable(m) => o == Failed(m))
    case DocxToTxt =>
      (match codec.docxText(file)
       case Read(text) => o == Converted(Converters.DocxToTxt(file, text))
       case Unreadable(m) => o == Failed(m))
    case PptxToDocx =>
      (match codec.pptxEntries(file)
       case Read(entries) => o == Converted(Converters.Result(file, "docx", DocxBlob(
         Converters.Blocks(Converters.SlideParagraphs, Converters.SlideTexts(entries), 1))))
       case Unreadable(m) => o == Failed(m))
    case PptxToTxt =>
      (match codec.pptxEntries(file)
       case Read(entries) => o == Converted(Converters.Result(file, "txt", TextBlob(
         Converters.Blocks(Converters.SlideSection, Converters.SlideTexts(entries), 1))))
       case Unreadable(m) => o == Failed(m))
    case TxtToPdf => PdfProduced(o, file, codec.fileText(file), codec)
    case TxtToDocx => o == Converted(Converters.TxtToDocx(file, codec.fileText(file)))
    case TxtToPptx => o == Converted(Converters.Result(file, "pptx", PptxBlob(
      Converters.Blocks(Converters.SectionSlide, Converters.TxtSections(codec.fileText(file)), 1))))
  }

  /** A result always has the converter's output type, and only OCR results carry OCR data. */
  lemma {:induction false} ProducedOutputType(route: Route, file: SourceFile, language: Option<string>, codec: Codec, r: ConversionResult)
    requires Produces(route, file, language, codec, Converted(r))
    ensures r.outputType == OutputType(route)
    ensures r.ocrData.Some? <==> UsesOcr(route)
  {
  }

  /** `convertFile`'s outcome for a record: the chosen converter's, or the unsupported-pair error. */
  ghost predicate Dispatched(rec: FileRecord, options: ConversionOptions, codec: Codec, o: Outcome) {
    match RouteFor(GetFileExtension(rec.file.name), options)
    case Routed(route) => Produces(route, rec.file, options.ocrLanguage, codec, o)
    case Unsupported(m) => o == Failed(m)
  }

  /** The PDF writer's result, or its encoding error as the converter's error. */
  function PdfOutcome(p: Converters.PdfText, codec: Codec): (o: Outcome)
    ensures o.Converted? <==> p.Drawn?
    ensures p.Drawn? ==> o.result == p.result
    ensures p.CannotEncode? ==> o.message == codec.encodeError(p.c)
  {
    match p
    case Drawn(r) => Converted(r)
    case CannotEncode(c) => Failed(codec.encodeError(c))
  }

  /** Runs one converter on the codec's reading of the file. */
  method RunRoute(engine: Ocr.OcrEngine, route: Route, file: SourceFile, language: Option<string>, codec: Codec)
    returns (o: Outcome)
    requires engine.Valid()
    modifies engine
    ensures engine.Valid()
    ensures Produces(route, file, language, codec, o)
    ensures !UsesOcr(route) ==> unchanged(engine)
    ensures UsesOcr(route) ==> engine.worker.Some? && engine.currentLanguage == Some(Ocr.LanguageOrDefault(language))
  {
    match route {
      case ImageToTextOcr =>
        var r := engine.ConvertImageToTextWithOcr(file, language, codec.recognize);
        o := Converted(r);
      case ImageToDocxOcr =>
        var r := engine.ConvertImageToDocxWithOcr(file, language, codec.recognize);
        o := Converted(r);
      case ImageToPdf =>
        o := Converted(Converters.ImageToPdf(file));
      case PdfToTextOcr =>
        var r := engine.ConvertPdfToTextWithOcr(file, language, codec.recognize);
        o := Converted(r);
      case PdfToDocx =>
        match codec.pdfPages(file) {
          case Read(pages) =>
            var r := Converters.PdfToDocx(file, pages);
            o := Converted(r);
          case Unreadable(m) => o := Failed(m);
        }
      case PdfToTxt =>
        match codec.pdfPages(file) {
          case Read(pages) =>
            var r := Converters.PdfToTxt(file, pages);
            o := Converted(r);
          case Unreadable(m) => o := Failed(m);
        }
      case PdfToPptx =>
        match codec.pdfPages(file) {
          case Read(pages) =>
            var r := Converters.PdfToPptx(file, pages);
            o := Converted(r);
          case Unreadable(m) => o := Failed(m);
        }
      case DocxToPdf =>
        match codec.docxText(file) {
          case Read(text) =>
            var p := Converters.TextToPdf(file, text, codec.fontEncodes, codec.measure, codec.width, codec.height);
            o := PdfOutcome(p, codec);
          case Unreadable(m) => o := Failed(m);
        }
      case DocxToPptx =>
        match codec.docxText(file) {
          case Read(text) =>
            var r := Converters.DocxToPptx(file, text);
            o := Converted(r);
          case Unreadable(m) => o := Failed(m);
        }
      case DocxToTxt =>
        match codec.docxText(file) {
          case Read(text) => o := Converted(Converters.DocxToTxt(file, text));
          case Unreadable(m) => o := Failed(m);
        }
      case PptxToDocx =>
        match codec.pptxEntries(file) {
          case Read(entries) =>
            var r := Converters.PptxToDocx(file, entries);
            o := Converted(r);
          case Unreadable(m) => o := Failed(m);
        }
      case PptxToTxt =>
        match codec.pptxEntries(file) {
          case Read(entries) =>
            var r := Converters.PptxToTxt(file, entries);
            o := Converted(r);
          case Unreadable(m) => o := Failed(m);
        }
      case TxtToPdf =>
        var p := Converters.TextToPdf(file, codec.fileText(file), codec.fontEncodes, codec.measure, codec.width, codec.height);
        o := PdfOutcome(p, codec);
      case TxtToDocx =>
        o := Converted(Converters.TxtToDocx(file, codec.fileText(file)));
      case TxtToPptx =>
        var r := Converters.TxtToPptx(file, codec.fileText(file));
        o := Converted(r);
    }
  }

  /** `convertFile`: the converter for the file's extension and the options, or the unsupported-pair error. */
  method ConvertFile(engine: Ocr.OcrEngine, rec: FileRecord, options: ConversionOptions, codec: Codec)
    returns (o: Outcome)
    requires engine.Valid()
    modifies engine
    ensures engine.Valid()
    ensures Dispatched(rec, options, codec, o)
    ensures RouteFor(GetFileExtension(rec.file.name), options).Unsupported? ==> unchanged(engine)
    ensures RouteFor(GetFileExtension(rec.file.name), options).Routed? && !UsesOcr(RouteFor(GetFileExtension(rec.file.name), options).route) ==>
      unchanged(engine)
  {
    match RouteFor(GetFileExtension(rec.file.name), options) {
      case Routed(route) => o := RunRoute(engine, route, rec.file, options.ocrLanguage, codec);
      case Unsupported(m) => o := Failed(m);
    }
  }

  // ---------------------------------------------------------------------
  // The batch
  // ---------------------------------------------------------------------

  /**
   * The progress callback `convertFile` hands to the OCR converters: the
   * fraction, scaled to a percentage, as status processing on that file's
   * records only. (The OCR adapter never calls it.)
   */
  function OcrProgress(files: seq<FileRecord>, id: string, fraction: real): (r: seq<FileRecord>)
    ensures |r| == |files|
    ensures forall k :: 0 <= k < |files| ==>
      if files[k].id == id then r[k] == files[k].(status := Processing, progress := fraction * 100.0)
      else r[k] == files[k]
  {
    UpdateStatus(files, id, Processing, fraction * 100.0)
  }

  /** The naive skip: the record's extension already is the target format. */
  predicate Skipped(rec: FileRecord, options: ConversionOptions) {
    GetFileExtension(rec.name) == options.targetFormat
  }

  /** The message stored on failure: the error's, or "Conversion failed" when it is empty. */
  function ErrorText(message: string): (t: string)
    ensures t != ""
    ensures message != "" ==> t == message
    ensures message == "" ==> t == "Conversion failed"
  {
    if message == "" then "Conversion failed" else message
  }

  /** One record's turn: set processing at 0, then the result or the error. */
  function Step(files: seq<FileRecord>, id: string, outcome: Option<Outcome>): seq<FileRecord> {
    match outcome
    case None => files
    case Some(Converted(r)) => SetResult(UpdateStatus(files, id, Processing, 0.0), id, r)
    case Some(Failed(m)) => SetError(UpdateStatus(files, id, Processing, 0.0), id, ErrorText(m))
  }

  /** The store's records after the turns of `todo`, whose outcomes are `outcomes` (None: skipped). */
  function Batch(files: seq<FileRecord>, todo: seq<FileRecord>, outcomes: seq<Option<Outcome>>): seq<FileRecord>
    requires |outcomes| == |todo|
    decreases |todo|
  {
    if todo == [] then files
    else Step(Batch(files, todo[..|todo| - 1], outcomes[..|todo| - 1]), todo[|todo| - 1].id, outcomes[|todo| - 1])
  }

  /** Each record ends up as its own turn left it: skipped records unchanged, the others completed or failed. */
  function Effect(rec: FileRecord, outcome: Option<Outcome>): FileRecord {
    match outcome
    case None => rec
    case Some(Converted(r)) => rec.(status := Completed, progress := 100.0, result := Some(r))
    case Some(Failed(m)) => rec.(status := Error, progress := 0.0, errorMessage := Some(ErrorText(m)))
  }

  ghost predicate UniqueIds(files: seq<FileRecord>) {
    forall i, j :: 0 <= i < j < |files| ==> files[i].id != files[j].id
  }

  /** A turn touches only the records carrying its id, and gives them the turn's effect. */
  lemma {:induction false} StepEffect(files: seq<FileRecord>, id: string, outcome: Option<Outcome>, j: nat)
    requires j < |files|
    ensures |Step(files, id, outcome)| == |files|
    ensures Step(files, id, outcome)[j] == if files[j].id == id then Effect(files[j], outcome) else files[j]
  {
  }

  lemma {:induction false} BatchPrefix(files: seq<FileRecord>, i: nat, outcomes: seq<Option<Outcome>>)
    requires UniqueIds(files) && i <= |files| && |outcomes| == i
    ensures var b := Batch(files, files[..i], outcomes);
      |b| == |files| && forall j :: 0 <= j < |files| ==> b[j] == if j < i then Effect(files[j], outcomes[j]) else files[j]
  {
    if i > 0 {
      var prev := Batch(files, files[..i - 1], outcomes[..i - 1]);
      BatchPrefix(files, i - 1, outcomes[..i - 1]);
      assert files[..i][..i - 1] == files[..i - 1];
      var b := Batch(files, files[..i], outcomes);
      assert b == Step(prev, files[i - 1].id, outcomes[i - 1]);
      forall j | 0 <= j < |files|
        ensures b[j] == if j < i then Effect(files[j], outcomes[j]) else files[j]
      {
        StepEffect(prev, files[i - 1].id, outcomes[i - 1], j);
        assert prev[j].id == files[j].id;
      }
    }
  }

  /**
   * With distinct ids, the batch over the whole list leaves every record
   * with exactly its own outcome: a skipped record is untouched, a converted
   * one is completed at 100 with its result, a failed one is in error with
   * the error's message (or "Conversion failed") and progress 0.
   */
  lemma {:induction false} BatchOutcome(files: seq<FileRecord>, outcomes: seq<Option<Outcome>>)
    requires UniqueIds(files) && |outcomes| == |files|
    ensures |Batch(files, files, outcomes)| == |files|
    ensures forall j :: 0 <= j < |files| ==> Batch(files, files, outcomes)[j] == Effect(files[j], outcomes[j])
  {
    BatchPrefix(files, |files|, outcomes);
    assert files[..|files|] == files;
  }

  /** Whatever the outcomes, a batch keeps "completed implies a result" and "error implies a message". */
  lemma {:induction false} BatchKeepsConsistency(files: seq<FileRecord>, todo: seq<FileRecord>, outcomes: seq<Option<Outcome>>)
    requires |outcomes| == |todo| && RecordsConsistent(files)
    ensures RecordsConsistent(Batch(files, todo, outcomes))
    decreases |todo|
  {
    if todo != [] {
      var n := |todo| - 1;
      var prev := Batch(files, todo[..n], outcomes[..n]);
      BatchKeepsConsistency(files, todo[..n], outcomes[..n]);
      var id := todo[n].id;
      var dummy := ConversionResult(TextBlob(""), "", "", None);
      match outcomes[n] {
        case None =>
        case Some(Converted(r)) =>
          ActionsKeepConsistency(prev, id, [], [], Processing, 0.0, r, "");
          ActionsKeepConsistency(UpdateStatus(prev, id, Processing, 0.0), id, [], [], Processing, 0.0, r, "");
        case Some(Failed(m)) =>
          ActionsKeepConsistency(prev, id, [], [], Processing, 0.0, dummy, ErrorText(m));
          ActionsKeepConsistency(UpdateStatus(prev, id, Processing, 0.0), id, [], [], Processing, 0.0, dummy, ErrorText(m));
      }
    }
  }

  lemma {:induction false} BatchSnoc(files: seq<FileRecord>, todo: seq<FileRecord>, outcomes: seq<Option<Outcome>>,
                                     rec: FileRecord, outcome: Option<Outcome>)
    requires |outcomes| == |todo|
    ensures Batch(files, todo + [rec], outcomes + [outcome]) == Step(Batch(files, todo, outcomes), rec.id, outcome)
  {
    assert (todo + [rec])[..|todo|] == todo;
    assert (outcomes + [outcome])[..|todo|] == outcomes;
  }

  lemma {:induction false} BatchNext(files: seq<FileRecord>, todo: seq<FileRecord>, i: nat,
                                     outcomes: seq<Option<Outcome>>, outcome: Option<Outcome>)
    requires |outcomes| == i < |todo|
    ensures Batch(files, todo[..i + 1], outcomes + [outcome]) == Step(Batch(files, todo[..i], outcomes), todo[i].id, outcome)
  {
    TakeOneMore(todo, i);
    BatchSnoc(files, todo[..i], outcomes, todo[i], outcome);
  }

  /** A turn's outcome: none when the record is skipped, else what `convertFile` yields for it. */
  ghost predicate Turn(rec: FileRecord, options: ConversionOptions, codec: Codec, outcome: Option<Outcome>) {
    (outcome.None? <==> Skipped(rec, options))
    && (outcome.Some? ==> Dispatched(rec, options, codec, outcome.value))
  }

  ghost predicate Turns(todo: seq<FileRecord>, options: ConversionOptions, codec: Codec, outcomes: seq<Option<Outcome>>) {
    |outcomes| == |todo| && forall k :: 0 <= k < |todo| ==> Turn(todo[k], options, codec, outcomes[k])
  }

  lemma {:induction false} TurnsSnoc(todo: seq<FileRecord>, options: ConversionOptions, codec: Codec,
                                     outcomes: seq<Option<Outcome>>, rec: FileRecord, outcome: Option<Outcome>)
    requires Turns(todo, options, codec, outcomes) && Turn(rec, options, codec, outcome)
    ensures Turns(todo + [rec], options, codec, outcomes + [outcome])
  {
    var t, o := todo + [rec], outcomes + [outcome];
    forall k | 0 <= k < |t| ensures Turn(t[k], options, codec, o[k]) {
      if k < |todo| {
        assert t[k] == todo[k] && o[k] == outcomes[k];
      }
    }
  }

  lemma {:induction false} TurnsNext(todo: seq<FileRecord>, i: nat, options: ConversionOptions, codec: Codec,
                                     outcomes: seq<Option<Outcome>>, outcome: Option<Outcome>)
    requires i < |todo| && Turns(todo[..i], options, codec, outcomes) && Turn(todo[i], options, codec, outcome)
    ensures Turns(todo[..i + 1], options, codec, outcomes + [outcome])
  {
    TakeOneMore(todo, i);
    TurnsSnoc(todo[..i], options, codec, outcomes, todo[i], outcome);
  }

  lemma TakeOneMore<T>(s: seq<T>, i: nat)
    requires i < |s|
    ensures s[..i + 1] == s[..i] + [s[i]]
  {
  }

  /** One turn of `convertFiles`' loop: skip the record, or convert it and record the outcome. */
  method ProcessRecord(store: FileStore, engine: Ocr.OcrEngine, rec: FileRecord, options: ConversionOptions, codec: Codec)
    returns (ghost outcome: Option<Outcome>)
    requires engine.Valid()
    modifies store, engine
    ensures engine.Valid()
    ensures Turn(rec, options, codec, outcome)
    ensures outcome.None? ==> unchanged(engine)
    ensures store.files == Step(old(store.files), rec.id, outcome)
    ensures store.isProcessing == old(store.isProcessing)
    ensures store.conversionType == old(store.conversionType) && store.isDarkMode == old(store.isDarkMode)
  {
    if Skipped(rec, options) {
      return None;
    }
    store.UpdateFileStatus(rec.id, Processing, Some(0.0));
    var o := ConvertFile(engine, rec, options, codec);
    match o {
      case Converted(r) => store.SetConversionResult(rec.id, r);
      case Failed(m) => store.SetErrorMessage(rec.id, ErrorText(m));
    }
    outcome := Some(o);
  }

  /**
   * `convertFiles`: with the processing flag raised, each record of the list
   * as it was at the start, in order, is skipped or converted and its outcome
   * recorded; the flag is lowered at the end.
   */
  method ConvertFiles(store: FileStore, engine: Ocr.OcrEngine, options: ConversionOptions, codec: Codec)
    returns (ghost outcomes: seq<Option<Outcome>>)
    requires engine.Valid()
    modifies store, engine
    ensures engine.Valid()
    ensures Turns(old(store.files), options, codec, outcomes)
    ensures store.files == Batch(old(store.files), old(store.files), outcomes)
    ensures !store.isProcessing
    ensures store.conversionType == old(store.conversionType) && store.isDarkMode == old(store.isDarkMode)
  {
    var snapshot := store.files;
    store.SetProcessing(true);
    outcomes := [];
    for i := 0 to |snapshot|
      invariant engine.Valid()
      invariant Turns(snapshot[..i], options, codec, outcomes)
      invariant store.files == Batch(snapshot, snapshot[..i], outcomes)
      invariant store.isProcessing
      invariant store.conversionType == old(store.conversionType) && store.isDarkMode == old(store.isDarkMode)
    {
      var outcome := ProcessRecord(store, engine, snapshot[i], options, codec);
      BatchNext(snapshot, snapshot, i, outcomes, outcome);
      TurnsNext(snapshot, i, options, codec, outcomes, outcome);
      outcomes := outcomes + [outcome];
    }
    assert snapshot[..|snapshot|] == snapshot;
    store.SetProcessing(false);
  }
}
