/** The text-extraction entry points of src/lib/ocr-service.ts. The PDF library
    and the OCR engine are not modelled: a document is given as what they
    would return, page by page, with `None` where a call would throw. */
module OcrService {
  import opened Wrappers
  import opened Text
  import opened Types
  import opened MetadataParser

  /** One page of a PDF: the strings of its text layer (`getTextContent`) and
      the text the OCR engine would read from its image. */
  datatype Page = Page(textItems: Option<seq<string>>, ocrText: Option<string>)

  /** Pages after the fifth are never read. */
  const MaxPages := 5

  /** Confidence reported for every PDF, whatever mix of text layer and OCR. */
  const PdfConfidence := 85.0

  const PdfErrorMessage := "Failed to extract text from PDF. Please ensure the file is a valid PDF."

  /** A page's contribution to the text: its text layer, items joined by
      blanks, when that has more than 50 characters once trimmed, and the OCR
      text otherwise; either is followed by a blank line. `None` when the call
      it needs fails. */
  function PageText(page: Page): (r: Option<string>)
    ensures r.Some? ==> |r.value| >= 2 && r.value[|r.value| - 2..] == "\n\n"
  {
    match page.textItems
    case None => None
    case Some(items) =>
      var layer := Join(items, " ");
      if |Trim(layer)| > 50 then Some(layer + "\n\n")
      else if page.ocrText.Some? then Some(page.ocrText.value + "\n\n")
      else None
  }

  /** Each page's contribution, in page order. */
  function PageTexts(pages: seq<Page>): (r: seq<Option<string>>)
    ensures |r| == |pages| && forall i :: 0 <= i < |pages| ==> r[i] == PageText(pages[i])
  {
    seq(|pages|, i requires 0 <= i < |pages| => PageText(pages[i]))
  }

  /** Page contributions concatenated in order, or `None` if any is missing. */
  function Joined(texts: seq<Option<string>>): Option<string>
  {
    if texts == [] then Some("")
    else
      var front := Joined(texts[..|texts| - 1]);
      var last := texts[|texts| - 1];
      if front.Some? && last.Some? then Some(front.value + last.value) else None
  }

  /** The text of a sequence of pages, in order, or `None` if any page fails. */
  function PagesText(pages: seq<Page>): Option<string>
  {
    Joined(PageTexts(pages))
  }

  /** The pages that are read: the first five at most. */
  function PagesRead(pages: seq<Page>): (r: seq<Page>)
    ensures |r| == if |pages| < MaxPages then |pages| else MaxPages
    ensures r <= pages
  {
    if |pages| < MaxPages then pages else pages[..MaxPages]
  }

  /** What `extractTextFromPDF` returns for a document that loads (`Some`) or
      does not (`None`). */
  function PdfResult(doc: Option<seq<Page>>): Result<OCRResult, string>
  {
    match doc
    case None => Failure(PdfErrorMessage)
    case Some(pages) =>
      match PagesText(PagesRead(pages))
      case None => Failure(PdfErrorMessage)
      case Some(text) => Success(ParsedText(text).(confidence := PdfConfidence))
  }

  /** `extractTextFromPDF`: the page loop over the pages read, then the
      parse. Every failure gives the one fixed message. */
  method ExtractTextFromPdf(doc: Option<seq<Page>>) returns (r: Result<OCRResult, string>)
    ensures r == PdfResult(doc)
    ensures r.Failure? ==> r.error == PdfErrorMessage
    ensures r.Success? ==> r.value.confidence == PdfConfidence
  {
    if doc.None? {
      return Failure(PdfErrorMessage);
    }
    var allText := ReadPages(PagesRead(doc.value));
    if allText.None? {
      return Failure(PdfErrorMessage);
    }
    var parsed := ParseExtractedText(allText.value);
    r := Success(parsed.(confidence := PdfConfidence));
  }

  /** The page loop: each page's text appended in order; the first page
      whose calls fail ends the loop. */
  method ReadPages(pages: seq<Page>) returns (allText: Option<string>)
    ensures allText == PagesText(pages)
  {
    ghost var texts := PageTexts(pages);
    var text := "";
    var pageNum := 1;
    while pageNum <= |pages|
      invariant 1 <= pageNum <= |pages| + 1
      invariant Joined(texts[..pageNum - 1]) == Some(text)
    {
      var pageText := ReadPage(pages[pageNum - 1]);
      JoinedStep(texts, pageNum, text);
      if pageText.None? {
        return None;
      }
      text := text + pageText.value;
      pageNum := pageNum + 1;
    }
    assert texts[..|pages|] == texts;
    allText := Some(text);
  }

  /** The body of the page loop: the text layer, or the OCR text when the
      layer is too short. */
  method ReadPage(page: Page) returns (text: Option<string>)
    ensures text == PageText(page)
  {
    if page.textItems.None? {
      return None;
    }
    var pageText := Join(page.textItems.value, " ");
    if |Trim(pageText)| > 50 {
      text := Some(pageText + "\n\n");
    } else if page.ocrText.Some? {
      text := Some(page.ocrText.value + "\n\n");
    } else {
      text := None;
    }
  }

  /** A failing prefix makes the whole page sequence fail. */
  lemma {:induction false} JoinedFails(prefix: seq<Option<string>>, texts: seq<Option<string>>)
    requires prefix <= texts && Joined(prefix).None?
    ensures Joined(texts).None?
    decreases |texts|
  {
    if |texts| > |prefix| {
      assert prefix <= texts[..|texts| - 1];
      JoinedFails(prefix, texts[..|texts| - 1]);
    } else {
      assert prefix == texts;
    }
  }

  /** Pages after the fifth change nothing. */
  lemma {:induction false} LaterPagesIgnored(pages: seq<Page>, more: seq<Page>)
    requires |pages| >= MaxPages
    ensures PdfResult(Some(pages + more)) == PdfResult(Some(pages))
  {
    assert PagesRead(pages + more) == PagesRead(pages);
  }

  /** The text layer is used exactly when it has more than 50 characters once
      trimmed; the OCR text otherwise. */
  lemma {:induction false} TextLayerOrOcr(items: seq<string>, ocr: Option<string>)
    ensures |Trim(Join(items, " "))| > 50 ==> PageText(Page(Some(items), ocr)) == Some(Join(items, " ") + "\n\n")
    ensures |Trim(Join(items, " "))| <= 50 ==>
              PageText(Page(Some(items), ocr)) == if ocr.Some? then Some(ocr.value + "\n\n") else None
  {
  }

  /** One step of the page loop: a failed page fails the whole document, a
      read page extends the text so far. */
  lemma {:induction false} JoinedStep(texts: seq<Option<string>>, n: nat, text: string)
    requires 1 <= n <= |texts| && Joined(texts[..n - 1]) == Some(text)
    ensures texts[n - 1].None? ==> Joined(texts).None?
    ensures texts[n - 1].Some? ==> Joined(texts[..n]) == Some(text + texts[n - 1].value)
  {
    var done := texts[..n];
    assert done[..n - 1] == texts[..n - 1] && done[n - 1] == texts[n - 1];
    if texts[n - 1].None? {
      JoinedFails(done, texts);
    }
  }

  /** Each page read adds its text, which ends in a blank line, in page order. */
  lemma {:induction false} PagesTextAppend(pages: seq<Page>, page: Page)
    ensures PagesText(pages + [page]) ==
      if PagesText(pages).Some? && PageText(page).Some? then Some(PagesText(pages).value + PageText(page).value)
      else None
  {
    var all := PageTexts(pages + [page]);
    assert all[..|pages|] == PageTexts(pages);
  }

  /** What `extractTextFromImage` returns: the parse of the recognised text
      with the engine's own confidence, which is not clamped. */
  function ImageResult(text: string, engineConfidence: real): (r: OCRResult)
    ensures r.confidence == engineConfidence && r.rawText == text
    ensures r.(confidence := 0.0) == ParsedText(text)
  {
    ParsedText(text).(confidence := engineConfidence)
  }
}
