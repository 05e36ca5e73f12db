/**
 * The text-assembly loops of `extract_text_from_pdf` (app.py:11-18) and
 * `extract_text_from_docx` (app.py:20-25). The document libraries are not
 * part of the model: a PDF is given as what `page.extract_text()` returns for
 * each page in order (a string or `None`), a DOCX file as the text of each
 * paragraph in order.
 */
module Extraction {
  import opened Wrappers
  import opened PyStrings

  // ---------------------------------------------------------------------
  // PDF
  // ---------------------------------------------------------------------

  /** The test `if page_text:`: `None` and `""` are both false. */
  predicate HasText(page: Option<string>) {
    page.Some? && page.value != []
  }

  /** The texts of the pages that have text, in page order. */
  function PageTexts(pages: seq<Option<string>>): (r: seq<string>)
    ensures |r| <= |pages|
    ensures [] !in r
  {
    if pages == [] then []
    else (if HasText(pages[0]) then [pages[0].value] else []) + PageTexts(pages[1..])
  }

  /** Each text followed by a newline, in order. */
  function Lines(texts: seq<string>): string {
    if texts == [] then [] else texts[0] + "\n" + Lines(texts[1..])
  }

  /** What `extract_text_from_pdf` returns for these page texts. */
  function PdfText(pages: seq<Option<string>>): string {
    Lines(PageTexts(pages))
  }

  lemma {:induction false} PageTextsAppend(a: seq<Option<string>>, b: seq<Option<string>>)
    ensures PageTexts(a + b) == PageTexts(a) + PageTexts(b)
  {
    if a == [] {
      assert a + b == b;
    } else {
      assert (a + b)[0] == a[0];
      assert (a + b)[1..] == a[1..] + b;
      PageTextsAppend(a[1..], b);
    }
  }

  lemma {:induction false} LinesAppend(a: seq<string>, b: seq<string>)
    ensures Lines(a + b) == Lines(a) + Lines(b)
  {
    if a == [] {
      assert a + b == b;
    } else {
      assert (a + b)[0] == a[0];
      assert (a + b)[1..] == a[1..] + b;
      LinesAppend(a[1..], b);
    }
  }

  /** One more page adds its text and a newline, or nothing when it has no text. */
  lemma PdfTextSnoc(pages: seq<Option<string>>, page: Option<string>)
    ensures PdfText(pages + [page]) ==
      PdfText(pages) + (if HasText(page) then page.value + "\n" else "")
  {
    PageTextsAppend(pages, [page]);
    assert PageTexts([page]) == if HasText(page) then [page.value] else [];
    LinesAppend(PageTexts(pages), PageTexts([page]));
  }

  /** `extract_text_from_pdf`: the loop that grows `text` page by page. */
  method ExtractTextFromPdf(pages: seq<Option<string>>) returns (text: string)
    ensures text == PdfText(pages)
    ensures text == "" <==> forall i :: 0 <= i < |pages| ==> !HasText(pages[i])
  {
    text := "";
    for i := 0 to |pages|
      invariant text == PdfText(pages[..i])
    {
      var pageText := pages[i];
      if pageText.Some? && pageText.value != [] {
        text := text + pageText.value + "\n";
      }
      PdfTextSnoc(pages[..i], pages[i]);
      assert pages[..i + 1] == pages[..i] + [pages[i]];
    }
    assert pages[..|pages|] == pages;
    PdfTextEmptyIff(pages);
  }

  /** The PDF text is empty exactly when no page has text. */
  lemma {:induction false} PdfTextEmptyIff(pages: seq<Option<string>>)
    ensures PdfText(pages) == "" <==> forall i :: 0 <= i < |pages| ==> !HasText(pages[i])
  {
    if pages != [] {
      PdfTextEmptyIff(pages[1..]);
      assert forall i :: 1 <= i < |pages| ==> pages[i] == pages[1..][i - 1];
      if HasText(pages[0]) {
        assert PageTexts(pages) == [pages[0].value] + PageTexts(pages[1..]);
        assert |PdfText(pages)| > 0;
      }
    }
  }

  /** The PDF text is the page texts joined by newlines, with one newline after the last. */
  lemma {:induction false} LinesIsJoin(texts: seq<string>)
    ensures Lines(texts) == if texts == [] then "" else Join(texts, "\n") + "\n"
  {
    if |texts| > 1 {
      LinesIsJoin(texts[1..]);
      JoinCons(texts[0], texts[1..], "\n");
      assert texts == [texts[0]] + texts[1..];
    }
  }

  lemma {:induction false} SplitLines(texts: seq<string>)
    requires forall k :: 0 <= k < |texts| ==> '\n' !in texts[k]
    ensures Split(Lines(texts), '\n') == texts + [""]
  {
    if texts != [] {
      SplitLines(texts[1..]);
      SplitPiece(texts[0], Lines(texts[1..]), '\n');
      assert texts == [texts[0]] + texts[1..];
    }
  }

  /**
   * When no page text holds a newline, splitting the PDF text on newlines
   * gives back the texts of the pages that have text, then one empty piece
   * after the final newline.
   */
  lemma PdfTextSplit(pages: seq<Option<string>>)
    requires forall i :: 0 <= i < |pages| && pages[i].Some? ==> '\n' !in pages[i].value
    ensures Split(PdfText(pages), '\n') == PageTexts(pages) + [""]
  {
    PageTextsWithoutNewline(pages);
    SplitLines(PageTexts(pages));
  }

  lemma {:induction false} PageTextsWithoutNewline(pages: seq<Option<string>>)
    requires forall i :: 0 <= i < |pages| && pages[i].Some? ==> '\n' !in pages[i].value
    ensures forall k :: 0 <= k < |PageTexts(pages)| ==> '\n' !in PageTexts(pages)[k]
  {
    if pages != [] {
      assert forall i :: 1 <= i < |pages| ==> pages[1..][i - 1] == pages[i];
      PageTextsWithoutNewline(pages[1..]);
    }
  }

  // ---------------------------------------------------------------------
  // DOCX
  // ---------------------------------------------------------------------

  /** What `extract_text_from_docx` returns for these paragraph texts. */
  function DocxText(paragraphs: seq<string>): string {
    Join(paragraphs, "\n")
  }

  /** `extract_text_from_docx`: collect the paragraph texts, then join them with newlines. */
  method ExtractTextFromDocx(paragraphs: seq<string>) returns (text: string)
    ensures text == DocxText(paragraphs)
  {
    var fullText: seq<string> := [];
    for i := 0 to |paragraphs|
      invariant fullText == paragraphs[..i]
    {
      fullText := fullText + [paragraphs[i]];
    }
    assert paragraphs[..|paragraphs|] == paragraphs;
    text := Join(fullText, "\n");
  }

  /**
   * When no paragraph holds a newline, splitting the DOCX text on newlines
   * gives back the paragraphs, empty ones included.
   */
  lemma DocxTextSplit(paragraphs: seq<string>)
    requires paragraphs != []
    requires forall k :: 0 <= k < |paragraphs| ==> '\n' !in paragraphs[k]
    ensures Split(DocxText(paragraphs), '\n') == paragraphs
  {
    SplitJoin(paragraphs, '\n');
  }

  /** No paragraphs give the empty text; two paragraphs are separated by one newline. */
  lemma DocxTextExamples()
    ensures DocxText([]) == ""
    ensures DocxText(["Role: Data Analyst", "Skills: SQL, Excel"]) == "Role: Data Analyst\nSkills: SQL, Excel"
  {
  }
}
