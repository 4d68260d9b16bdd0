/**
 * The format and language picker of components/converter/conversion-selector.tsx
 * and the three selections it writes, which components/converter/conversion-zone.tsx
 * holds as state. Choosing TXT turns OCR on and nothing turns it off again.
 */
module ConversionSelector {
  import opened Wrappers
  import opened Types
  import Ocr
  import Conversion

  /** The four target formats offered, in order. */
  const Formats: seq<string> := ["pdf", "docx", "pptx", "txt"]

  /** The six languages offered: code and name. */
  const Languages: seq<(string, string)> := [
    ("eng", "English"), ("fra", "French"), ("deu", "German"),
    ("spa", "Spanish"), ("ita", "Italian"), ("por", "Portuguese")
  ]

  /** Every offered language is one the OCR worker supports. */
  lemma {:induction false} LanguagesAreSupported()
    ensures |Languages| == 6
    ensures forall k :: 0 <= k < |Languages| ==> Languages[k].0 in Ocr.OcrLanguageCodes()
  {
    var codes := Ocr.OcrLanguageCodes();
    assert codes[..6] == ["eng", "fra", "deu", "spa", "ita", "por"];
    forall k | 0 <= k < |Languages| ensures Languages[k].0 in codes {
      assert Languages[k].0 == codes[k];
    }
  }

  /** The three selections: target format, OCR switch and OCR language. */
  datatype Selection = Selection(targetFormat: string, enableOCR: bool, ocrLanguage: string)

  /** A click on a format: it becomes the target; TXT also switches OCR on. */
  function ClickedFormat(s: Selection, format: string): Selection {
    s.(targetFormat := format, enableOCR := if format == "txt" then true else s.enableOCR)
  }

  /** The selection after the format clicks `formats`, in order. */
  function AfterFormatClicks(s: Selection, formats: seq<string>): Selection
    decreases |formats|
  {
    if formats == [] then s else AfterFormatClicks(ClickedFormat(s, formats[0]), formats[1..])
  }

  /**
   * OCR is sticky: format clicks never turn it off, and once TXT has been
   * clicked it stays on; the target is the last format clicked, and the
   * language is never touched.
   */
  lemma {:induction false} OcrIsSticky(s: Selection, formats: seq<string>)
    ensures var t := AfterFormatClicks(s, formats);
      t.enableOCR == (s.enableOCR || "txt" in formats)
      && t.ocrLanguage == s.ocrLanguage
      && (formats != [] ==> t.targetFormat == formats[|formats| - 1])
      && (formats == [] ==> t == s)
    decreases |formats|
  {
    if formats != [] {
      OcrIsSticky(ClickedFormat(s, formats[0]), formats[1..]);
      assert "txt" in formats <==> formats[0] == "txt" || "txt" in formats[1..] by {
        assert formats == [formats[0]] + formats[1..];
      }
    }
  }

  /** The options `handleConvert` passes on. */
  function Options(s: Selection): ConversionOptions {
    ConversionOptions(s.targetFormat, s.enableOCR, Some(s.ocrLanguage))
  }

  /**
   * Once TXT has been clicked, every later image conversion is OCR to text,
   * whichever format is then selected.
   */
  lemma {:induction false} StickyOcrRoutesImagesToText(s: Selection, formats: seq<string>, sourceType: string)
    requires "txt" in formats && Conversion.IsImage(sourceType)
    ensures Conversion.RouteFor(sourceType, Options(AfterFormatClicks(s, formats))) == Conversion.Routed(Conversion.ImageToTextOcr)
  {
    OcrIsSticky(s, formats);
  }

  /** The language panel is shown exactly while TXT is the target. */
  predicate LanguagePanelOpen(s: Selection) {
    s.targetFormat == "txt"
  }

  /**
   * Whatever formats are clicked from the initial selection, while the
   * language panel is open OCR is on, so a PDF goes to text through
   * recognition in the chosen language rather than through its text layer.
   */
  lemma {:induction false} PanelOpenMeansOcr(formats: seq<string>)
    ensures var t := AfterFormatClicks(Selection("pdf", false, "eng"), formats);
      LanguagePanelOpen(t) ==>
        t.enableOCR && "txt" in formats
        && Conversion.RouteFor("pdf", Options(t)) == Conversion.Routed(Conversion.PdfToTextOcr)
  {
    OcrIsSticky(Selection("pdf", false, "eng"), formats);
    if formats != [] {
      assert formats[|formats| - 1] in formats;
    }
  }

  /** The three state variables of the conversion zone, written by the picker's handlers. */
  class SelectionState {
    var targetFormat: string
    var enableOCR: bool
    var ocrLanguage: string

    function Current(): Selection
      reads this
    {
      Selection(targetFormat, enableOCR, ocrLanguage)
    }

    /** The initial state: target "pdf", OCR off, language "eng". */
    constructor ()
      ensures Current() == Selection("pdf", false, "eng")
    {
      targetFormat := "pdf";
      enableOCR := false;
      ocrLanguage := "eng";
    }

    /** A format button's handler. */
    method ClickFormat(format: string)
      requires format in Formats
      modifies this
      ensures Current() == ClickedFormat(old(Current()), format)
    {
      targetFormat := format;
      if format == "txt" {
        enableOCR := true;
      }
    }

    /** A language button's handler: only the language changes. */
    method ClickLanguage(code: string)
      requires exists k :: 0 <= k < |Languages| && Languages[k].0 == code
      modifies this
      ensures Current() == old(Current()).(ocrLanguage := code)
    {
      ocrLanguage := code;
    }
  }
}
