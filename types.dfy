/**
 * The records of types/index.ts, reduced to what the core reads and writes.
 * Binary payloads (`Blob`) are replaced by the structure the converters put
 * into them: drawn PDF lines, DOCX paragraphs, PPTX slides or plain text.
 */
module Types {
  import opened Wrappers

  /** A word's bounding box in page pixels. */
  datatype BBox = BBox(x0: int, y0: int, x1: int, y1: int)

  /** One recognised word of an `OCRResult`. */
  datatype OcrWord = OcrWord(text: string, confidence: int, bbox: BBox)

  /** `OCRResult`: recognised text, overall confidence (a whole percentage), language code, words. */
  datatype OcrResult = OcrResult(text: string, confidence: int, language: string, words: seq<OcrWord>)

  /** How a DOCX paragraph is styled by the converters. */
  datatype ParagraphStyle =
    | Plain        // a paragraph holding one plain text run
    | Heading1     // `HeadingLevel.HEADING_1`
    | BoldHeader   // a bold run at size 28 (the OCR confidence header)

  datatype Paragraph = Paragraph(text: string, style: ParagraphStyle)

  /** A PPTX slide: a bold title box and, when present, one body text box. */
  datatype Slide = Slide(title: string, body: Option<string>)

  /** One `drawText` call of the PDF encoder: 1-based page number, baseline y, text. */
  datatype DrawnLine = DrawnLine(page: nat, y: real, text: string)

  /** What an output blob holds. */
  datatype Blob =
    | TextBlob(text: string)
    | DocxBlob(paragraphs: seq<Paragraph>)
    | PptxBlob(slides: seq<Slide>)
    | PdfTextBlob(pages: nat, lines: seq<DrawnLine>)
    | PdfImageBlob(image: SourceFile, embedding: ImageEmbedding)   // one page with the scaled source image

  /** How `convertImageToPdf` embeds the image: `embedPng` or `embedJpg`. */
  datatype ImageEmbedding = EmbedPng | EmbedJpg

  /** `ConversionResult` without its `processedAt` timestamp. */
  datatype ConversionResult = ConversionResult(blob: Blob, filename: string, outputType: string, ocrData: Option<OcrResult>)

  /** The browser `File` a record wraps: name, size in bytes and MIME type. */
  datatype SourceFile = SourceFile(name: string, size: nat, mime: string)

  datatype Status = Pending | Processing | Completed | Error

  /** `UploadedFile`, the per-file job record of the store. */
  datatype FileRecord = FileRecord(
    id: string,
    file: SourceFile,
    name: string,
    size: nat,
    fileType: string,
    status: Status,
    progress: real,
    errorMessage: Option<string>,
    result: Option<ConversionResult>)

  /** `ConversionOptions`; an absent `enableOCR` is `false`, an absent `ocrLanguage` is `None`. */
  datatype ConversionOptions = ConversionOptions(targetFormat: string, enableOCR: bool, ocrLanguage: Option<string>)

  /** `ConversionType`, the store's `conversionType` tag. */
  datatype ConversionType =
    | PdfToDocxType | DocxToPdfType | PptxToDocxType | DocxToPptxType | PdfToPptxType
    | PptxToPdfType | ImageToPdfType | ImageToDocxType | ImageToTxtType
}
