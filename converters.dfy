/**
 * The converters of lib/converters/index.ts, reduced to how they reshape
 * text. What the codec libraries hand over (the raw text of a DOCX, the
 * text items of each PDF page, the entries of a PPTX archive, the bytes of
 * an image) is a parameter; what they are given to encode (drawn PDF lines,
 * DOCX paragraphs, PPTX slides, plain text) is the result.
 */
module Converters {
  import opened Wrappers
  import opened Text
  import opened Types
  import opened Utils
  import PdfLayout

  // ---------------------------------------------------------------------
  // Output file names: `file.name.replace(/\.[^/.]+$/, ext)`
  // ---------------------------------------------------------------------

  /**
   * The regular expression matches at `i`: a "." followed by one or more
   * characters, up to the end of the name, none of them "/" or ".".
   */
  predicate ExtensionMatchAt(name: string, i: int) {
    0 <= i < |name| - 1 && name[i] == '.'
    && forall k :: i < k < |name| ==> name[k] != '/' && name[k] != '.'
  }

  /** Replaces the matched extension by `ext`; a name without a match is kept as it is. */
  function ReplaceExtension(name: string, ext: string): string {
    var i := LastIndexOf(name, '.');
    if 0 <= i < |name| - 1 && '/' !in name[i + 1..] then name[..i] + ext else name
  }

  /** The match can only start at the last ".". */
  lemma MatchIsLastDot(name: string, i: int)
    requires ExtensionMatchAt(name, i)
    ensures LastIndexOf(name, '.') == i
  {
    LastIndexOfUnique(name, '.', i);
  }

  /**
   * The replacement agrees with the regular expression: where it matches,
   * the matched suffix is replaced; where it matches nowhere, the name comes
   * back unchanged and nothing is appended.
   */
  lemma ReplaceExtensionSpec(name: string, ext: string)
    ensures forall i :: ExtensionMatchAt(name, i) ==> ReplaceExtension(name, ext) == name[..i] + ext
    ensures (forall i :: !ExtensionMatchAt(name, i)) ==> ReplaceExtension(name, ext) == name
  {
    forall j | ExtensionMatchAt(name, j) ensures ReplaceExtension(name, ext) == name[..j] + ext {
      MatchReplaced(name, ext, j);
    }
    ReplacedOnlyAtMatch(name);
  }

  /** Where the expression matches, the suffix from the match on is replaced. */
  lemma MatchReplaced(name: string, ext: string, j: int)
    requires ExtensionMatchAt(name, j)
    ensures ReplaceExtension(name, ext) == name[..j] + ext
  {
    MatchIsLastDot(name, j);
    var tail := name[j + 1..];
    forall m | 0 <= m < |tail| ensures tail[m] != '/' {
      assert tail[m] == name[j + 1 + m];
    }
  }

  /** The name is only rewritten where the expression matches, at the last ".". */
  lemma ReplacedOnlyAtMatch(name: string)
    ensures var i := LastIndexOf(name, '.');
      0 <= i < |name| - 1 && '/' !in name[i + 1..] ==> ExtensionMatchAt(name, i)
  {
    var i := LastIndexOf(name, '.');
    if 0 <= i < |name| - 1 && '/' !in name[i + 1..] {
      forall k | i < k < |name| ensures name[k] != '/' && name[k] != '.' {
        assert name[k] == name[i + 1..][k - i - 1];
      }
    }
  }

  /** An output extension: "." and one or more characters, none of them "/" or ".". */
  predicate IsExtension(ext: string) {
    |ext| >= 2 && ext[0] == '.' && forall k :: 0 < k < |ext| ==> ext[k] != '/' && ext[k] != '.'
  }

  /** Renaming an output a second time with the same extension changes nothing. */
  lemma ReplaceExtensionIdempotent(name: string, ext: string)
    requires IsExtension(ext)
    ensures ReplaceExtension(ReplaceExtension(name, ext), ext) == ReplaceExtension(name, ext)
  {
    ReplaceExtensionSpec(name, ext);
    var r := ReplaceExtension(name, ext);
    ReplaceExtensionSpec(r, ext);
    var i := LastIndexOf(name, '.');
    if ExtensionMatchAt(name, i) {
      assert r == name[..i] + ext;
      forall k | i < k < |r| ensures r[k] != '/' && r[k] != '.' {
        assert r[k] == ext[k - i];
      }
      assert r[i] == ext[0];
      assert ExtensionMatchAt(r, i);
      assert r[..i] == name[..i];
    } else {
      forall j ensures !ExtensionMatchAt(name, j) {
        if ExtensionMatchAt(name, j) {
          MatchIsLastDot(name, j);
        }
      }
    }
  }

  /**
   * A renamed output carries the new extension: when the name had an
   * extension after a non-empty stem, `getFileExtension` of the result is
   * the new extension, lower-cased.
   */
  lemma ReplacedExtensionIsRead(name: string, ext: string, i: int)
    requires IsExtension(ext) && ExtensionMatchAt(name, i) && i > 0
    requires i + |ext| <= 0x1_0000_0000
    ensures GetFileExtension(ReplaceExtension(name, ext)) == ToLower(ext[1..])
  {
    var r := name[..i] + ext;
    assert ReplaceExtension(name, ext) == r by {
      ReplaceExtensionSpec(name, ext);
    }
    forall k | i < k < |r| ensures r[k] != '.' {
      assert r[k] == ext[k - i];
    }
    assert r[i] == '.';
    LastIndexOfUnique(r, '.', i);
    assert r[i + 1..] == ext[1..];
    ExtensionAfterDot(r, i);
  }

  /** The result record every converter returns for `file`. */
  function Result(file: SourceFile, outputType: string, blob: Blob): (r: ConversionResult)
    ensures r.filename == ReplaceExtension(file.name, "." + outputType)
    ensures r.outputType == outputType && r.blob == blob && r.ocrData == None
  {
    ConversionResult(blob, ReplaceExtension(file.name, "." + outputType), outputType, None)
  }

  // ---------------------------------------------------------------------
  // Per-page and per-slide output, as one block per item
  // ---------------------------------------------------------------------

  /**
   * The output of a loop over `texts` that appends `section(n, t)` for each
   * text `t`, where `n` counts from `first`.
   */
  function Blocks<T>(section: (nat, string) -> seq<T>, texts: seq<string>, first: nat): seq<T>
    decreases |texts|
  {
    if texts == [] then [] else section(first, texts[0]) + Blocks(section, texts[1..], first + 1)
  }

  lemma {:induction false} BlocksAppend<T>(section: (nat, string) -> seq<T>, a: seq<string>, b: seq<string>, first: nat)
    ensures Blocks(section, a + b, first) == Blocks(section, a, first) + Blocks(section, b, first + |a|)
    decreases |a|
  {
    if a == [] {
      assert a + b == b;
    } else {
      assert (a + b)[0] == a[0] && (a + b)[1..] == a[1..] + b;
      BlocksAppend(section, a[1..], b, first + 1);
    }
  }

  /**
   * Each item's block sits in place: after the blocks of the items before
   * it and before those of the items after it, whatever its text.
   */
  lemma BlocksAt<T>(section: (nat, string) -> seq<T>, texts: seq<string>, first: nat, k: nat)
    requires k < |texts|
    ensures Blocks(section, texts, first) ==
      Blocks(section, texts[..k], first) + section(first + k, texts[k]) + Blocks(section, texts[k + 1..], first + k + 1)
  {
    assert texts == texts[..k] + ([texts[k]] + texts[k + 1..]);
    BlocksAppend(section, texts[..k], [texts[k]] + texts[k + 1..], first);
    BlocksAppend(section, [texts[k]], texts[k + 1..], first + k);
    assert [texts[k]][1..] == [];
  }

  /** The shared loop: one block per item, numbered from 1, appended in order. */
  method BuildBlocks<T>(section: (nat, string) -> seq<T>, texts: seq<string>) returns (out: seq<T>)
    ensures out == Blocks(section, texts, 1)
  {
    out := [];
    var i := 0;
    while i < |texts|
      invariant 0 <= i <= |texts|
      invariant out == Blocks(section, texts[..i], 1)
    {
      assert texts[..i + 1] == texts[..i] + [texts[i]];
      BlocksAppend(section, texts[..i], [texts[i]], 1);
      assert [texts[i]][1..] == [];
      out := out + section(i + 1, texts[i]);
      i := i + 1;
    }
    assert texts[..|texts|] == texts;
  }

  /** The non-blank texts, in order. */
  function NonBlank(texts: seq<string>): (r: seq<string>)
    ensures |r| <= |texts|
    ensures forall k :: 0 <= k < |r| ==> !IsBlank(r[k])
  {
    if texts == [] then []
    else (if IsBlank(texts[0]) then [] else [texts[0]]) + NonBlank(texts[1..])
  }

  /** Nothing survives the filter exactly when every text is blank. */
  lemma {:induction false} NonBlankEmpty(texts: seq<string>)
    ensures NonBlank(texts) == [] <==> forall k :: 0 <= k < |texts| ==> IsBlank(texts[k])
  {
    if texts != [] {
      var rest := texts[1..];
      NonBlankEmpty(rest);
      if forall k :: 0 <= k < |texts| ==> IsBlank(texts[k]) {
        forall k | 0 <= k < |rest| ensures IsBlank(rest[k]) {
          assert rest[k] == texts[k + 1];
        }
      }
      if IsBlank(texts[0]) && NonBlank(rest) == [] {
        forall k | 0 <= k < |texts| ensures IsBlank(texts[k]) {
          if k > 0 {
            assert texts[k] == rest[k - 1];
          }
        }
      }
    }
  }

  /** The texts of the paragraphs that hold any text, in order. */
  function NonEmptyTexts(paragraphs: seq<Paragraph>): seq<string> {
    if paragraphs == [] then []
    else (if paragraphs[0].text == "" then [] else [paragraphs[0].text]) + NonEmptyTexts(paragraphs[1..])
  }

  lemma {:induction false} NonEmptyTextsAppend(a: seq<Paragraph>, b: seq<Paragraph>)
    ensures NonEmptyTexts(a + b) == NonEmptyTexts(a) + NonEmptyTexts(b)
  {
    if a == [] {
      assert a + b == b;
    } else {
      assert (a + b)[0] == a[0] && (a + b)[1..] == a[1..] + b;
      NonEmptyTextsAppend(a[1..], b);
    }
  }

  /** How many paragraphs are empty. */
  function EmptyCount(paragraphs: seq<Paragraph>): nat {
    if paragraphs == [] then 0
    else (if paragraphs[0].text == "" then 1 else 0) + EmptyCount(paragraphs[1..])
  }

  lemma {:induction false} EmptyCountAppend(a: seq<Paragraph>, b: seq<Paragraph>)
    ensures EmptyCount(a + b) == EmptyCount(a) + EmptyCount(b)
  {
    if a == [] {
      assert a + b == b;
    } else {
      assert (a + b)[0] == a[0] && (a + b)[1..] == a[1..] + b;
      EmptyCountAppend(a[1..], b);
    }
  }

  // ---------------------------------------------------------------------
  // PDF -> DOCX
  // ---------------------------------------------------------------------

  /** A page's text: its text items joined by " ". */
  function PageText(items: seq<string>): string {
    Join(items, " ")
  }

  function PageTexts(pages: seq<seq<string>>): (r: seq<string>)
    ensures |r| == |pages| && forall k :: 0 <= k < |pages| ==> r[k] == PageText(pages[k])
  {
    seq(|pages|, k requires 0 <= k < |pages| => PageText(pages[k]))
  }

  /**
   * Page `i` of `n`: its text as a paragraph when it is not blank, then an
   * empty separator paragraph unless it is the last page.
   */
  function PdfPageParagraphs(n: nat): (nat, string) -> seq<Paragraph> {
    (i: nat, text: string) =>
      (if IsBlank(text) then [] else [Paragraph(text, Plain)])
      + (if i < n then [Paragraph("", Plain)] else [])
  }

  /** `convertPdfToDocx`, given the text items of each page. */
  method PdfToDocx(file: SourceFile, pages: seq<seq<string>>) returns (r: ConversionResult)
    ensures r == Result(file, "docx", DocxBlob(Blocks(PdfPageParagraphs(|pages|), PageTexts(pages), 1)))
  {
    var paragraphs := BuildBlocks(PdfPageParagraphs(|pages|), PageTexts(pages));
    r := Result(file, "docx", DocxBlob(paragraphs));
  }

  /**
   * The paragraphs with text are exactly the non-blank pages, in page
   * order, and the empty ones are the separators: one between each two
   * consecutive pages.
   */
  lemma PdfDocxShape(texts: seq<string>, n: nat, first: nat)
    requires first >= 1 && first + |texts| == n + 1
    ensures NonEmptyTexts(Blocks(PdfPageParagraphs(n), texts, first)) == NonBlank(texts)
    ensures EmptyCount(Blocks(PdfPageParagraphs(n), texts, first)) == if texts == [] then 0 else |texts| - 1
  {
    PdfDocxTexts(texts, n, first);
    PdfDocxSeparators(texts, n, first);
  }

  /** The text half of `PdfDocxShape`: the paragraphs with text are the non-blank pages. */
  lemma {:induction false} PdfDocxTexts(texts: seq<string>, n: nat, first: nat)
    ensures NonEmptyTexts(Blocks(PdfPageParagraphs(n), texts, first)) == NonBlank(texts)
    decreases |texts|
  {
    if texts != [] {
      PdfBlocksStep(n, texts, first);
      PdfDocxTexts(texts[1..], n, first + 1);
    }
  }

  /** The separator half of `PdfDocxShape`: one empty paragraph after every page but the last. */
  lemma {:induction false} PdfDocxSeparators(texts: seq<string>, n: nat, first: nat)
    requires first >= 1 && first + |texts| == n + 1
    ensures EmptyCount(Blocks(PdfPageParagraphs(n), texts, first)) == if texts == [] then 0 else |texts| - 1
    decreases |texts|
  {
    if texts != [] {
      PdfBlocksStep(n, texts, first);
      PdfDocxSeparators(texts[1..], n, first + 1);
      assert first < n <==> texts[1..] != [];
    }
  }

  /** The paragraphs of the first page, followed by those of the rest. */
  lemma PdfBlocksStep(n: nat, texts: seq<string>, first: nat)
    requires texts != []
    ensures var rest := Blocks(PdfPageParagraphs(n), texts[1..], first + 1);
      NonEmptyTexts(Blocks(PdfPageParagraphs(n), texts, first))
        == (if IsBlank(texts[0]) then [] else [texts[0]]) + NonEmptyTexts(rest)
      && EmptyCount(Blocks(PdfPageParagraphs(n), texts, first))
        == (if first < n then 1 else 0) + EmptyCount(rest)
  {
    var section := PdfPageParagraphs(n);
    var head := section(first, texts[0]);
    var tail := Blocks(section, texts[1..], first + 1);
    assert Blocks(section, texts, first) == head + tail;
    PdfPageShape(n, first, texts[0]);
    NonEmptyTextsAppend(head, tail);
    EmptyCountAppend(head, tail);
  }

  /** One page's block: its text when it is not blank, then a separator unless it is the last page. */
  lemma PdfPageShape(n: nat, i: nat, t: string)
    ensures NonEmptyTexts(PdfPageParagraphs(n)(i, t)) == if IsBlank(t) then [] else [t]
    ensures EmptyCount(PdfPageParagraphs(n)(i, t)) == if i < n then 1 else 0
  {
    var page := if IsBlank(t) then [] else [Paragraph(t, Plain)];
    var sep := if i < n then [Paragraph("", Plain)] else [];
    assert PdfPageParagraphs(n)(i, t) == page + sep;
    NonEmptyTextsAppend(page, sep);
    EmptyCountAppend(page, sep);
    assert [Paragraph(t, Plain)][1..] == [];
    assert [Paragraph("", Plain)][1..] == [];
  }

  /** PDF -> DOCX on a whole document: `n` pages give `n - 1` separators. */
  lemma PdfDocxDocument(pages: seq<seq<string>>)
    requires |pages| >= 1
    ensures var paragraphs := Blocks(PdfPageParagraphs(|pages|), PageTexts(pages), 1);
      NonEmptyTexts(paragraphs) == NonBlank(PageTexts(pages))
      && EmptyCount(paragraphs) == |pages| - 1
  {
    PdfDocxShape(PageTexts(pages), |pages|, 1);
  }

  // ---------------------------------------------------------------------
  // PDF -> TXT and PDF -> PPTX
  // ---------------------------------------------------------------------

  /** Page `i` in the text output, blank pages included. */
  function PdfPageText(i: nat, text: string): string {
    "Page " + NatToString(i) + "\n\n" + text + "\n\n"
  }

  /** `convertPdfToTxt`, given the text items of each page. */
  method PdfToTxt(file: SourceFile, pages: seq<seq<string>>) returns (r: ConversionResult)
    ensures r == Result(file, "txt", TextBlob(Blocks(PdfPageText, PageTexts(pages), 1)))
  {
    var text := BuildBlocks(PdfPageText, PageTexts(pages));
    r := Result(file, "txt", TextBlob(text));
  }

  /** Every page has its section in the text output, in page order, whatever its text. */
  lemma PdfTextHasEveryPage(texts: seq<string>, k: nat)
    requires k < |texts|
    ensures Blocks(PdfPageText, texts, 1) ==
      Blocks(PdfPageText, texts[..k], 1) + PdfPageText(k + 1, texts[k]) + Blocks(PdfPageText, texts[k + 1..], k + 2)
  {
    BlocksAt(PdfPageText, texts, 1, k);
  }

  /** Page `i` as a slide: titled with its number, with a body only when its text is not blank. */
  function PdfPageSlide(i: nat, text: string): seq<Slide> {
    [Slide("Page " + NatToString(i), if IsBlank(text) then None else Some(text))]
  }

  /** `convertPdfToPptx`, given the text items of each page. */
  method PdfToPptx(file: SourceFile, pages: seq<seq<string>>) returns (r: ConversionResult)
    ensures r == Result(file, "pptx", PptxBlob(Blocks(PdfPageSlide, PageTexts(pages), 1)))
  {
    var slides := BuildBlocks(PdfPageSlide, PageTexts(pages));
    r := Result(file, "pptx", PptxBlob(slides));
  }

  /** One slide per page, blank pages included, titled "Page 1", "Page 2", ... in order. */
  lemma {:induction false} PdfSlidesPerPage(texts: seq<string>, first: nat)
    ensures var slides := Blocks(PdfPageSlide, texts, first);
      |slides| == |texts|
      && forall k :: 0 <= k < |texts| ==>
        slides[k].title == "Page " + NatToString(first + k)
        && (slides[k].body == None <==> IsBlank(texts[k]))
        && (slides[k].body != None ==> slides[k].body.value == texts[k])
    decreases |texts|
  {
    if texts != [] {
      PdfSlidesPerPage(texts[1..], first + 1);
      var slides := Blocks(PdfPageSlide, texts, first);
      var rest := Blocks(PdfPageSlide, texts[1..], first + 1);
      assert slides == PdfPageSlide(first, texts[0]) + rest;
      forall k | 1 <= k < |texts| ensures slides[k] == rest[k - 1] && texts[k] == texts[1..][k - 1] {
      }
    }
  }

  // ---------------------------------------------------------------------
  // DOCX/TXT -> PDF, DOCX -> TXT, TXT -> DOCX, image -> PDF
  // ---------------------------------------------------------------------

  /** The PDF writer's result, or the character its font could not encode. */
  datatype PdfText = Drawn(result: ConversionResult) | CannotEncode(c: char)

  /** The first character the font is asked to encode and cannot: the first such one of the text. */
  function FirstBadChar(text: string, encodes: char -> bool): Option<char> {
    PdfLayout.FirstUnencodable(PdfLayout.Measured(Split(text, "\n")), encodes)
  }

  /**
   * `convertDocxToPdf` and `convertTxtToPdf`: the two are the same code once
   * the text is in hand (the raw text mammoth extracts, or the file's text).
   * The standard font throws at the first measured character it cannot
   * encode, before anything is saved; otherwise the text is laid out.
   */
  method TextToPdf(file: SourceFile, text: string, encodes: char -> bool, measure: string -> real, width: real, height: real)
    returns (p: PdfText)
    ensures FirstBadChar(text, encodes).Some? ==> p == CannotEncode(FirstBadChar(text, encodes).value)
    ensures FirstBadChar(text, encodes) == None ==> p.Drawn?
    ensures p.Drawn? ==> var r := p.result;
      r.filename == ReplaceExtension(file.name, ".pdf") && r.outputType == "pdf" && r.ocrData == None
      && r.blob.PdfTextBlob? && r.blob.pages >= 1
      && PdfLayout.Texts(r.blob.lines) == PdfLayout.DocOutput(measure, PdfLayout.Limit(width), Split(text, "\n"))
  {
    match FirstBadChar(text, encodes) {
      case Some(c) =>
        p := CannotEncode(c);
      case None =>
        var pages, drawn := PdfLayout.LayoutText(text, measure, width, height);
        PdfSuffix();
        p := Drawn(Result(file, "pdf", PdfTextBlob(pages, drawn)));
    }
  }

  /**
   * The font is asked for every character of the text, line breaks read as
   * spaces, and a trailing space: the character it fails on is the first of
   * those it cannot encode.
   */
  lemma BadCharOfText(text: string, encodes: char -> bool)
    ensures FirstBadChar(text, encodes) == PdfLayout.FirstUnencodable(PdfLayout.LineBreaksAsSpaces(text) + " ", encodes)
    ensures FirstBadChar(text, encodes) == None <==>
      encodes(' ') && forall k :: 0 <= k < |text| ==> text[k] == '\n' || encodes(text[k])
  {
    PdfLayout.MeasuredIsText(text);
    AllEncodable(text, encodes);
  }

  /** Every measured character can be encoded exactly when the space and every character but a line break can. */
  lemma AllEncodable(text: string, encodes: char -> bool)
    ensures var m := PdfLayout.LineBreaksAsSpaces(text) + " ";
      (forall k :: 0 <= k < |m| ==> encodes(m[k])) <==>
      encodes(' ') && forall k :: 0 <= k < |text| ==> text[k] == '\n' || encodes(text[k])
  {
    var m := PdfLayout.LineBreaksAsSpaces(text) + " ";
    assert m[|text|] == ' ';
    forall k | 0 <= k < |text| ensures m[k] == (if text[k] == '\n' then ' ' else text[k]) {
      PdfLayout.SpacesAt(text, k);
    }
    if encodes(' ') && forall k :: 0 <= k < |text| ==> text[k] == '\n' || encodes(text[k]) {
      forall k | 0 <= k < |m| ensures encodes(m[k]) {
        if k < |text| {
          assert text[k] == '\n' || encodes(text[k]);
        }
      }
    }
  }

  lemma PdfSuffix()
    ensures "." + "pdf" == ".pdf"
  {
  }

  /** `convertDocxToTxt`: the extracted text, as it is. */
  function DocxToTxt(file: SourceFile, text: string): (r: ConversionResult)
    ensures r.blob == TextBlob(text) && r.outputType == "txt"
    ensures r.filename == ReplaceExtension(file.name, ".txt")
  {
    Result(file, "txt", TextBlob(text))
  }

  /** `convertTxtToDocx`: one plain paragraph per "\n"-separated line, empty lines included. */
  function TxtParagraphs(text: string): (r: seq<Paragraph>)
    ensures |r| == |Split(text, "\n")|
    ensures forall k :: 0 <= k < |r| ==> r[k] == Paragraph(Split(text, "\n")[k], Plain)
  {
    var lines := Split(text, "\n");
    seq(|lines|, k requires 0 <= k < |lines| => Paragraph(lines[k], Plain))
  }

  function ParagraphTexts(paragraphs: seq<Paragraph>): (r: seq<string>)
    ensures |r| == |paragraphs| && forall k :: 0 <= k < |r| ==> r[k] == paragraphs[k].text
  {
    seq(|paragraphs|, k requires 0 <= k < |paragraphs| => paragraphs[k].text)
  }

  /** The TXT -> DOCX paragraphs joined by "\n" give the text back. */
  lemma TxtParagraphsRoundTrip(text: string)
    ensures Join(ParagraphTexts(TxtParagraphs(text)), "\n") == text
  {
    assert ParagraphTexts(TxtParagraphs(text)) == Split(text, "\n");
    JoinSplit(text, "\n");
  }

  function TxtToDocx(file: SourceFile, text: string): (r: ConversionResult)
    ensures r.blob == DocxBlob(TxtParagraphs(text)) && r.outputType == "docx"
    ensures r.filename == ReplaceExtension(file.name, ".docx")
  {
    Result(file, "docx", DocxBlob(TxtParagraphs(text)))
  }

  /** `convertImageToPdf`: PNG files are embedded as PNG, every other type as JPEG. */
  function ImageToPdf(file: SourceFile): (r: ConversionResult)
    ensures r.blob.PdfImageBlob? && r.blob.image == file
    ensures r.blob.embedding == EmbedPng <==> file.mime == "image/png"
    ensures r.outputType == "pdf" && r.filename == ReplaceExtension(file.name, ".pdf")
  {
    Result(file, "pdf", PdfImageBlob(file, if file.mime == "image/png" then EmbedPng else EmbedJpg))
  }

  // ---------------------------------------------------------------------
  // DOCX/TXT -> PPTX: slides from "\n\n" sections
  // ---------------------------------------------------------------------

  /** `text.split("\n\n").filter(s => s.trim())`. */
  function Sections(text: string): seq<string> {
    NonBlank(Split(text, "\n\n"))
  }

  /** Non-blank text always has a non-blank section, and blank text has none. */
  lemma SectionsEmptyIffBlank(text: string)
    ensures Sections(text) == [] <==> IsBlank(text)
  {
    var pieces := Split(text, "\n\n");
    NonBlankEmpty(pieces);
    if IsBlank(text) {
      SplitPiecesAllSpace(text, "\n\n");
    } else if Sections(text) == [] {
      JoinAllSpace(pieces, "\n\n");
      JoinSplit(text, "\n\n");
      assert false;
    }
  }

  /** Section `i` as a slide titled "Slide i". */
  function SectionSlide(i: nat, section: string): seq<Slide> {
    [Slide("Slide " + NatToString(i), Some(section))]
  }

  /** One slide per section, titled "Slide 1" to "Slide k" with no gaps. */
  lemma {:induction false} SectionSlidesNumbered(sections: seq<string>, first: nat)
    ensures var slides := Blocks(SectionSlide, sections, first);
      |slides| == |sections|
      && forall k :: 0 <= k < |sections| ==> slides[k] == Slide("Slide " + NatToString(first + k), Some(sections[k]))
    decreases |sections|
  {
    if sections != [] {
      SectionSlidesNumbered(sections[1..], first + 1);
      var rest := Blocks(SectionSlide, sections[1..], first + 1);
      forall k | 1 <= k < |sections| ensures sections[k] == sections[1..][k - 1] {
      }
    }
  }

  /** `convertDocxToPptx`, given the raw text extracted from the document. */
  method DocxToPptx(file: SourceFile, text: string) returns (r: ConversionResult)
    ensures r == Result(file, "pptx", PptxBlob(Blocks(SectionSlide, Sections(text), 1)))
  {
    var slides := BuildBlocks(SectionSlide, Sections(text));
    r := Result(file, "pptx", PptxBlob(slides));
  }

  /** The sections `convertTxtToPptx` makes slides from, with its whole-text fallback. */
  function TxtSections(text: string): seq<string> {
    var sections := Sections(text);
    if |sections| == 0 && !IsBlank(text) then [text] else sections
  }

  /** The whole-text fallback never fires: the sections are those DOCX -> PPTX would use. */
  lemma TxtSectionsFallbackUnreachable(text: string)
    ensures TxtSections(text) == Sections(text)
  {
    SectionsEmptyIffBlank(text);
  }

  /** `convertTxtToPptx`. */
  method TxtToPptx(file: SourceFile, text: string) returns (r: ConversionResult)
    ensures r == Result(file, "pptx", PptxBlob(Blocks(SectionSlide, TxtSections(text), 1)))
  {
    var slides := BuildBlocks(SectionSlide, TxtSections(text));
    r := Result(file, "pptx", PptxBlob(slides));
  }

  // ---------------------------------------------------------------------
  // PPTX -> DOCX and PPTX -> TXT: `a:t` runs of the slide parts
  // ---------------------------------------------------------------------

  /** One entry of the PPTX (zip) archive: its path and its content as a string. */
  datatype ZipEntry = ZipEntry(name: string, content: string)

  /** The slide parts: paths starting with "ppt/slides/slide" and ending in ".xml". */
  predicate IsSlidePart(name: string) {
    StartsWith(name, "ppt/slides/slide") && EndsWith(name, ".xml")
  }

  /** The slide parts of the archive, in archive order. */
  function SlideParts(entries: seq<ZipEntry>): (r: seq<ZipEntry>)
    ensures forall e :: e in r <==> e in entries && IsSlidePart(e.name)
  {
    if entries == [] then []
    else (if IsSlidePart(entries[0].name) then [entries[0]] else []) + SlideParts(entries[1..])
  }

  /** Filtering a concatenation filters each part: the slide parts stay in archive order. */
  lemma {:induction false} SlidePartsAppend(a: seq<ZipEntry>, b: seq<ZipEntry>)
    ensures SlideParts(a + b) == SlideParts(a) + SlideParts(b)
    decreases |a|
  {
    if a == [] {
      assert a + b == b;
    } else {
      assert (a + b)[0] == a[0] && (a + b)[1..] == a[1..] + b;
      SlidePartsAppend(a[1..], b);
      calc {
        SlideParts(a + b);
        (if IsSlidePart(a[0].name) then [a[0]] else []) + (SlideParts(a[1..]) + SlideParts(b));
        SlideParts(a) + SlideParts(b);
      }
    }
  }

  const OpenTag: string := "<a:t>"
  const CloseTag: string := "</a:t>"

  /** Length of the longest prefix without "<": what `[^<]+` can take. */
  function ContentLength(s: string): (n: nat)
    ensures n <= |s| && '<' !in s[..n] && (n < |s| ==> s[n] == '<')
  {
    if s == [] || s[0] == '<' then 0
    else
      var n := 1 + ContentLength(s[1..]);
      assert s[..n] == [s[0]] + s[1..][..n - 1];
      n
  }

  /** `<a:t>([^<]+)<\/a:t>` tried at the start of `s`: the content, if it matches. */
  function MatchAt(s: string): (m: Option<string>)
    ensures m.Some? ==> |m.value| > 0 && '<' !in m.value && |OpenTag| + |m.value| + |CloseTag| <= |s|
    ensures m.Some? ==> s[..|OpenTag| + |m.value| + |CloseTag|] == OpenTag + m.value + CloseTag
  {
    if !StartsWith(s, OpenTag) then None
    else
      var body := s[|OpenTag|..];
      var n := ContentLength(body);
      if n > 0 && StartsWith(body[n..], CloseTag) then
        assert s == OpenTag + body;
        assert body[..n + |CloseTag|] == body[..n] + CloseTag;
        Some(body[..n])
      else None
  }

  /**
   * The global match, left to right: a match is taken whole and the scan
   * resumes after it; elsewhere the scan moves on by one character. Each
   * match's tags are stripped, leaving its content.
   */
  function Runs(s: string): (runs: seq<string>)
    ensures forall k :: 0 <= k < |runs| ==> |runs[k]| > 0 && '<' !in runs[k]
    decreases |s|
  {
    if s == [] then []
    else match MatchAt(s)
      case Some(content) => [content] + Runs(s[|OpenTag| + |content| + |CloseTag|..])
      case None => Runs(s[1..])
  }

  /** The text of one slide: its runs joined by " ". */
  function SlideText(xml: string): string {
    Join(Runs(xml), " ")
  }

  /** Runs rendered back as attribute-free `a:t` elements. */
  function Render(runs: seq<string>): string {
    if runs == [] then "" else OpenTag + runs[0] + CloseTag + Render(runs[1..])
  }

  lemma {:induction false} ContentLengthOf(content: string, rest: string)
    requires '<' !in content && (rest == [] || rest[0] == '<')
    ensures ContentLength(content + rest) == |content|
  {
    if content != [] {
      assert (content + rest)[0] == content[0];
      assert (content + rest)[1..] == content[1..] + rest;
      ContentLengthOf(content[1..], rest);
    } else {
      assert content + rest == rest;
    }
  }

  /** Extraction reads back every run it is given as attribute-free `a:t` elements. */
  lemma {:induction false} RunsRender(runs: seq<string>)
    requires forall k :: 0 <= k < |runs| ==> |runs[k]| > 0 && '<' !in runs[k]
    ensures Runs(Render(runs)) == runs
  {
    if runs != [] {
      var r := runs[0];
      var tail := Render(runs[1..]);
      var s := Render(runs);
      assert s == OpenTag + (r + (CloseTag + tail));
      assert s[..|OpenTag|] == OpenTag;
      var body := s[|OpenTag|..];
      assert body == r + (CloseTag + tail);
      ContentLengthOf(r, CloseTag + tail);
      assert body[..|r|] == r;
      assert body[|r|..] == CloseTag + tail;
      assert MatchAt(s) == Some(r);
      assert s[|OpenTag| + |r| + |CloseTag|..] == tail;
      RunsRender(runs[1..]);
    }
  }

  /**
   * Without an attribute-free opening tag there are no runs: elements such
   * as `<a:t xml:space="preserve">` are not read.
   */
  lemma {:induction false} RunsNeedOpenTag(s: string)
    requires forall k :: !OccursAt(s, OpenTag, k)
    ensures Runs(s) == []
    decreases |s|
  {
    if s != [] {
      assert !OccursAt(s, OpenTag, 0);
      assert MatchAt(s) == None;
      forall k ensures !OccursAt(s[1..], OpenTag, k) {
        if k >= 0 {
          OccursShift(s, OpenTag, k);
        }
      }
      RunsNeedOpenTag(s[1..]);
    }
  }

  /** The slide texts of the archive's slide parts, in archive order. */
  function SlideTexts(entries: seq<ZipEntry>): (r: seq<string>)
    ensures |r| == |SlideParts(entries)|
    ensures forall k :: 0 <= k < |r| ==> r[k] == SlideText(SlideParts(entries)[k].content)
  {
    var parts := SlideParts(entries);
    seq(|parts|, k requires 0 <= k < |parts| => SlideText(parts[k].content))
  }

  /** Slide `i` (counting every slide part): heading, text, empty paragraph, when not blank. */
  function SlideParagraphs(i: nat, text: string): seq<Paragraph> {
    if IsBlank(text) then []
    else [Paragraph("Slide " + NatToString(i), Heading1), Paragraph(text, Plain), Paragraph("", Plain)]
  }

  /** `convertPptxToDocx`, given the archive entries. */
  method PptxToDocx(file: SourceFile, entries: seq<ZipEntry>) returns (r: ConversionResult)
    ensures r == Result(file, "docx", DocxBlob(Blocks(SlideParagraphs, SlideTexts(entries), 1)))
  {
    var paragraphs := BuildBlocks(SlideParagraphs, SlideTexts(entries));
    r := Result(file, "docx", DocxBlob(paragraphs));
  }

  /** Slide `i` in the text output, when not blank. */
  function SlideSection(i: nat, text: string): string {
    if IsBlank(text) then "" else "Slide " + NatToString(i) + ":\n" + text + "\n\n"
  }

  /** `convertPptxToTxt`, given the archive entries. */
  method PptxToTxt(file: SourceFile, entries: seq<ZipEntry>) returns (r: ConversionResult)
    ensures r == Result(file, "txt", TextBlob(Blocks(SlideSection, SlideTexts(entries), 1)))
  {
    var text := BuildBlocks(SlideSection, SlideTexts(entries));
    r := Result(file, "txt", TextBlob(text));
  }

  /**
   * Blank slides leave no trace and keep their number: the paragraphs are
   * three per non-blank slide, and the text output is empty exactly when
   * every slide is blank.
   */
  lemma {:induction false} SlideOutputs(texts: seq<string>, first: nat)
    ensures |Blocks(SlideParagraphs, texts, first)| == 3 * |NonBlank(texts)|
    ensures Blocks(SlideSection, texts, first) == "" <==> NonBlank(texts) == []
    decreases |texts|
  {
    if texts != [] {
      SlideOutputs(texts[1..], first + 1);
    }
  }
}
