/**
 * The OCR adapter of lib/ocr/tesseract-worker.ts: a module-level cache of
 * one recognition worker keyed by language, the shaping of a recognition
 * into an `OCRResult`, and the three OCR converters built on it.
 *
 * The recognition engine is a parameter `recognize` from the language a
 * worker was created for and an input file to what the engine reports;
 * worker identity is a serial number counted by the cache.
 */
module Ocr {
  import opened Wrappers
  import opened Text
  import opened Types
  import Converters

  /** A worker created for one language. */
  datatype Worker = Worker(serial: nat, language: string)

  /** One word as the engine reports it. */
  datatype EngineWord = EngineWord(text: string, confidence: int, bbox: BBox, baseline: BBox)

  /** What the engine reports for one input: text, overall confidence, words. */
  datatype Recognition = Recognition(text: string, confidence: int, words: seq<EngineWord>)

  /** The language a call uses: the one given, or "eng" when it is absent. */
  function LanguageOrDefault(language: Option<string>): (l: string)
    ensures language.Some? ==> l == language.value
    ensures language.None? ==> l == "eng"
  {
    language.GetOr("eng")
  }

  /** The word record kept for one engine word: its text, confidence and box. */
  function ShapeWord(w: EngineWord): OcrWord {
    OcrWord(w.text, w.confidence, w.bbox)
  }

  /** `performOCR`'s result: the engine's text and confidence, the language asked for, its words in order. */
  function ShapeOcr(rec: Recognition, language: string): (r: OcrResult)
    ensures r.text == rec.text && r.confidence == rec.confidence && r.language == language
    ensures |r.words| == |rec.words|
    ensures forall k :: 0 <= k < |rec.words| ==>
      r.words[k].text == rec.words[k].text && r.words[k].confidence == rec.words[k].confidence
      && r.words[k].bbox == rec.words[k].bbox
  {
    OcrResult(rec.text, rec.confidence, language,
      seq(|rec.words|, k requires 0 <= k < |rec.words| => ShapeWord(rec.words[k])))
  }

  /** The header paragraph of an OCR DOCX: the overall confidence, as a whole percentage. */
  function ConfidenceHeader(confidence: int): string {
    "OCR Extracted Text (Confidence: " + IntToString(confidence) + "%)"
  }

  /** `convertImageToDocxWithOCR`'s paragraphs: header, an empty paragraph, then one per line. */
  function OcrDocxParagraphs(ocr: OcrResult): seq<Paragraph> {
    [Paragraph(ConfidenceHeader(ocr.confidence), BoldHeader), Paragraph("", Plain)]
      + Converters.TxtParagraphs(ocr.text)
  }

  /**
   * The OCR DOCX holds, in order, the bold confidence header, one empty
   * paragraph and the recognised lines, from which the text is recovered
   * by joining with "\n".
   */
  lemma OcrDocxLayout(ocr: OcrResult)
    ensures var ps := OcrDocxParagraphs(ocr);
      |ps| == 2 + |Split(ocr.text, "\n")|
      && ps[0] == Paragraph(ConfidenceHeader(ocr.confidence), BoldHeader)
      && ps[1] == Paragraph("", Plain)
      && Join(Converters.ParagraphTexts(ps[2..]), "\n") == ocr.text
  {
    var ps := OcrDocxParagraphs(ocr);
    assert ps[2..] == Converters.TxtParagraphs(ocr.text);
    Converters.TxtParagraphsRoundTrip(ocr.text);
  }

  /** `convertImageToTextWithOCR` and `convertPdfToTextWithOCR`: the recognised text as a TXT. */
  function OcrTextResult(file: SourceFile, ocr: OcrResult): ConversionResult {
    ConversionResult(TextBlob(ocr.text), Converters.ReplaceExtension(file.name, ".txt"), "txt", Some(ocr))
  }

  /** `convertImageToDocxWithOCR`: the header, a blank paragraph and the recognised lines as a DOCX. */
  function OcrDocxResult(file: SourceFile, ocr: OcrResult): ConversionResult {
    ConversionResult(DocxBlob(OcrDocxParagraphs(ocr)), Converters.ReplaceExtension(file.name, ".docx"), "docx", Some(ocr))
  }

  /**
   * Both OCR results carry the recognition they were made from, and their
   * document holds exactly its text: the TXT is the text, the DOCX's body
   * paragraphs joined by "\n" are the text.
   */
  lemma OcrResultsHoldRecognisedText(file: SourceFile, ocr: OcrResult)
    ensures var r := OcrTextResult(file, ocr);
      r.ocrData == Some(ocr) && r.blob == TextBlob(r.ocrData.value.text) && r.outputType == "txt"
    ensures var r := OcrDocxResult(file, ocr);
      r.ocrData == Some(ocr) && r.outputType == "docx" && r.blob.DocxBlob?
      && |r.blob.paragraphs| >= 2
      && r.blob.paragraphs[0] == Paragraph(ConfidenceHeader(ocr.confidence), BoldHeader)
      && Join(Converters.ParagraphTexts(r.blob.paragraphs[2..]), "\n") == r.ocrData.value.text
  {
    OcrDocxLayout(ocr);
  }

  /** `SUPPORTED_OCR_LANGUAGES`: code and display name. */
  const SupportedOcrLanguages: seq<(string, string)> := [
    ("eng", "English"), ("fra", "French"), ("deu", "German"), ("spa", "Spanish"),
    ("ita", "Italian"), ("por", "Portuguese"), ("rus", "Russian"), ("jpn", "Japanese"),
    ("chi_sim", "Chinese (Simplified)"), ("chi_tra", "Chinese (Traditional)"),
    ("ara", "Arabic"), ("hin", "Hindi")
  ]

  function OcrLanguageCodes(): (codes: seq<string>)
    ensures |codes| == |SupportedOcrLanguages|
    ensures forall k :: 0 <= k < |codes| ==> codes[k] == SupportedOcrLanguages[k].0
  {
    seq(|SupportedOcrLanguages|, k requires 0 <= k < |SupportedOcrLanguages| => SupportedOcrLanguages[k].0)
  }

  /** The list has twelve languages and no code twice. */
  lemma SupportedCodesDistinct()
    ensures |OcrLanguageCodes()| == 12
    ensures forall i, j :: 0 <= i < j < 12 ==> OcrLanguageCodes()[i] != OcrLanguageCodes()[j]
  {
    var codes := OcrLanguageCodes();
    assert codes == ["eng", "fra", "deu", "spa", "ita", "por", "rus", "jpn", "chi_sim", "chi_tra", "ara", "hin"];
    forall i, j | 0 <= i < j < 12 ensures codes[i] != codes[j] {
      if codes[i][0] == codes[j][0] {
        assert i == 8 && j == 9;
        assert codes[i][4] != codes[j][4];
      }
    }
  }

  /**
   * The module-level worker cache (`worker`, `currentLanguage`). `created`
   * counts the workers made so far and names each by its serial;
   * `terminated` records the serials shut down.
   */
  class OcrEngine {
    var worker: Option<Worker>
    var currentLanguage: Option<string>
    var created: nat
    ghost var terminated: set<nat>

    /** At most one worker is live: every created worker not shut down is the cached one. */
    ghost predicate Valid()
      reads this
    {
      (worker.Some? ==> worker.value.serial < created && worker.value.serial !in terminated
                        && currentLanguage == Some(worker.value.language))
      && (forall s :: s in terminated ==> s < created)
      && (forall s :: 0 <= s < created && s !in terminated ==> worker.Some? && worker.value.serial == s)
    }

    /** Page load: no worker and no language. */
    constructor ()
      ensures Valid() && worker == None && currentLanguage == None && created == 0
    {
      worker := None;
      currentLanguage := None;
      created := 0;
      terminated := {};
    }

    /**
     * `initOCRWorker(language)`: reuses the cached worker when it is live
     * and was made for this language; otherwise shuts down any live worker
     * and creates one for the language.
     */
    method InitOCRWorker(language: string) returns (w: Worker)
      requires Valid()
      modifies this
      ensures Valid()
      ensures worker == Some(w) && currentLanguage == Some(language) && w.language == language
      ensures old(worker.Some? && currentLanguage == Some(language)) ==>
        w == old(worker.value) && created == old(created) && terminated == old(terminated)
      ensures !old(worker.Some? && currentLanguage == Some(language)) ==>
        w == Worker(old(created), language) && created == old(created) + 1
        && terminated == old(if worker.Some? then terminated + {worker.value.serial} else terminated)
    {
      if worker.Some? && currentLanguage == Some(language) {
        return worker.value;
      }
      if worker.Some? {
        terminated := terminated + {worker.value.serial};
      }
      w := Worker(created, language);
      worker := Some(w);
      created := created + 1;
      currentLanguage := Some(language);
    }

    /**
     * `performOCR(file, language)`: obtains the worker for the language
     * (default "eng") and shapes what it recognises in the file. The
     * progress callback is never invoked.
     */
    method PerformOcr(file: SourceFile, language: Option<string>, recognize: (string, SourceFile) -> Recognition)
      returns (r: OcrResult)
      requires Valid()
      modifies this
      ensures Valid() && worker.Some? && currentLanguage == Some(LanguageOrDefault(language))
      ensures r == ShapeOcr(recognize(LanguageOrDefault(language), file), LanguageOrDefault(language))
      ensures old(worker.Some? && currentLanguage == Some(LanguageOrDefault(language))) ==>
        worker == old(worker) && created == old(created)
      ensures !old(worker.Some? && currentLanguage == Some(LanguageOrDefault(language))) ==>
        worker == Some(Worker(old(created), LanguageOrDefault(language))) && created == old(created) + 1
    {
      var lang := LanguageOrDefault(language);
      var w := InitOCRWorker(lang);
      r := ShapeOcr(recognize(w.language, file), lang);
    }

    /** `convertImageToTextWithOCR`: OCR, then the text as a TXT. */
    method ConvertImageToTextWithOcr(file: SourceFile, language: Option<string>,
                                     recognize: (string, SourceFile) -> Recognition)
      returns (r: ConversionResult)
      requires Valid()
      modifies this
      ensures Valid() && worker.Some? && currentLanguage == Some(LanguageOrDefault(language))
      ensures r == OcrTextResult(file, ShapeOcr(recognize(LanguageOrDefault(language), file), LanguageOrDefault(language)))
    {
      var ocr := PerformOcr(file, language, recognize);
      r := OcrTextResult(file, ocr);
    }

    /** `convertImageToDocxWithOCR`: OCR, then header and lines as a DOCX. */
    method ConvertImageToDocxWithOcr(file: SourceFile, language: Option<string>,
                                     recognize: (string, SourceFile) -> Recognition)
      returns (r: ConversionResult)
      requires Valid()
      modifies this
      ensures Valid() && worker.Some? && currentLanguage == Some(LanguageOrDefault(language))
      ensures r == OcrDocxResult(file, ShapeOcr(recognize(LanguageOrDefault(language), file), LanguageOrDefault(language)))
    {
      var ocr := PerformOcr(file, language, recognize);
      r := OcrDocxResult(file, ocr);
    }

    /** `convertPdfToTextWithOCR`: the whole PDF file goes to the engine as one image. */
    method ConvertPdfToTextWithOcr(file: SourceFile, language: Option<string>,
                                   recognize: (string, SourceFile) -> Recognition)
      returns (r: ConversionResult)
      requires Valid()
      modifies this
      ensures Valid() && worker.Some? && currentLanguage == Some(LanguageOrDefault(language))
      ensures r == OcrTextResult(file, ShapeOcr(recognize(LanguageOrDefault(language), file), LanguageOrDefault(language)))
    {
      var ocr := PerformOcr(file, language, recognize);
      r := OcrTextResult(file, ocr);
    }

    /** `terminateOCRWorker`: drops the cached worker, if any, and keeps `currentLanguage`. */
    method TerminateOCRWorker()
      requires Valid()
      modifies this
      ensures Valid() && worker == None
      ensures currentLanguage == old(currentLanguage) && created == old(created)
      ensures terminated == old(if worker.Some? then terminated + {worker.value.serial} else terminated)
    {
      if worker.Some? {
        terminated := terminated + {worker.value.serial};
        worker := None;
      }
    }
  }
}
