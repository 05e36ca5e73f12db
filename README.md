# Resume / job-description similarity checker: text handling, in Dafny

The checker reads a resume (always as a PDF) and a job description (as a PDF
or a Word document, chosen by its MIME type). It cleans both texts and hands
them to a sentence-embedding model for a cosine-similarity score. This project
models and proves the deterministic part of that chain, which is all text
handling in `app.py`:

- **Normalisation** (`clean_text`). `Normalizer.CleanText` chains four steps in
  the source's order:
  1. `PyStrings.LowerText` lower-cases the text (`str.lower()`).
  2. `Normalizer.MaskText` turns every character outside `[a-z0-9\s]` into a
     space.
  3. `Normalizer.Collapse` turns every run of whitespace into one space.
  4. `PyStrings.Strip` strips whitespace from both ends.

  The lemmas prove what the result looks like. It uses only `a-z`, `0-9` and
  `' '`, never has two spaces in a row and has no space at either end. It is
  empty exactly when the input has no ASCII letter or digit, KELVIN SIGN or
  U+0130 (what `Chars.IsWordChar` accepts); `"é"` or `"日本"` give `""`. Removing its spaces
  gives the ASCII letters and digits of the input's lower-case form, in order. `clean_text` is
  idempotent, and its fixpoints are exactly the normalised strings. As an
  independent reference, it also equals the Python idiom
  `' '.join(masked.split())`.
- **Text assembly**. `Extraction.ExtractTextFromPdf` is the page loop of
  `extract_text_from_pdf`, and `Extraction.ExtractTextFromDocx` is the paragraph
  loop and join of `extract_text_from_docx`. Both are methods with loop
  invariants, proved against `PdfText` and `DocxText`. The document libraries
  are abstracted. A PDF is the sequence of what `page.extract_text()` returns
  (`Some(text)` or `None`). A Word document is the sequence of paragraph
  texts.
- **Dispatch and the form's body**. `SimilarityApp.ReadJobDescription` picks the
  reader from the MIME type. `SimilarityApp.Evaluate` is one run of the form:
  - it waits until both files are present;
  - it reads the resume as a PDF, then the job description;
  - it reports the first reader that raised, or returns the two cleaned texts
    that go to the similarity computation.

## Character model

`Chars.IsSpace` is exactly the set of characters for which Python's
`str.isspace()` holds. This is also the set that `\s` matches in a `str`
pattern and that `str.strip()` removes: U+0009–U+000D, U+001C–U+001F, U+0020,
U+0085, U+00A0, U+1680, U+2000–U+200A, U+2028, U+2029, U+202F, U+205F and
U+3000.

`Chars.Lower` is `str.lower()` on one character:
- `A`–`Z` map to `a`–`z`;
- KELVIN SIGN (U+212A) maps to `k`;
- LATIN CAPITAL LETTER I WITH DOT ABOVE (U+0130) maps to `i` followed by
  U+0307 COMBINING DOT ABOVE;
- every other character is kept as it is.

Under the Unicode 15 tables, U+212A and U+0130 are the only non-ASCII
characters other than whitespace whose lower-case form contains an ASCII
letter, a digit or whitespace. The non-ASCII whitespace characters lower-case
to themselves, and `Chars.Lower` keeps them unchanged. Every other character that `str.lower()` changes is turned into a
space by the next step anyway. So `CleanText` agrees with `clean_text` on
every string a Dafny `string` can hold. One consequence: `"İstanbul"` normalises to `"i stanbul"`,
because the combining dot becomes a space.

## PDF text and its final newline

The PDF text ends with a newline after the last page that has text
(app.py:16-17): every page whose text is non-empty adds that text and one
`"\n"`, and a page whose text is `None` or `""` adds nothing.
`Extraction.PdfTextSnoc` states this page by page, and
`Extraction.LinesIsJoin` shows the result is the newline-join of the
non-empty page texts plus one final newline.

## Model

| member | source | states |
|---|---|---|
| `Chars.Lower` | app.py:28 | lower-casing one character maps `A`-`Z` to `a`-`z`, U+212A to `"k"` and U+0130 to `"i"` plus U+0307; it gives one character (two for U+0130), never an ASCII capital, and leaves whitespace, `a-z` and `0-9` unchanged |
| `PyStrings.LowerText` | app.py:28 | `text.lower()` leaves no ASCII capital and never shortens the text |
| `PyStrings.LowerTextPointwise` | app.py:28 | on text without U+0130, `text.lower()` has the same length and each character becomes its own lower-case form |
| `Normalizer.Mask` | app.py:29 | one character of the substitution: the result is in `[a-z0-9]` or whitespace, and is the character itself when that already holds, otherwise `' '` |
| `Normalizer.MaskText` | app.py:29 | same length as the input; each character is kept if it is in `[a-z0-9]` or is whitespace, and replaced by `' '` otherwise |
| `Normalizer.Collapse` | app.py:30 | `re.sub(r'\s+', ' ', text)`; it has no contract of its own, and its properties are the lemmas `CollapseSpacesThenRest`, `CollapseWordThenRest`, `CollapseShape`, `NonSpacesOfCollapse` and `StripCollapseIsJoinedWords` |
| `Normalizer.CollapseSpacesThenRest` | app.py:30 | a non-empty run of whitespace, up to the next non-whitespace character, becomes exactly one space |
| `Normalizer.CollapseWordThenRest` | app.py:30 | characters that are not whitespace pass through the whitespace collapse unchanged |
| `Normalizer.CollapseShape` | app.py:30 | after collapsing masked text, no two whitespace characters are adjacent and only `a-z`, `0-9` and `' '` remain |
| `Normalizer.NonSpacesOfCollapse` | app.py:30 | collapsing keeps every non-whitespace character, in order |
| `PyStrings.TrimStart` | app.py:31 | the result is the longest suffix not starting with whitespace; everything removed was whitespace |
| `PyStrings.TrimEnd` | app.py:31 | the result is the longest prefix not ending with whitespace; everything removed was whitespace |
| `PyStrings.Strip` | app.py:31 | `text.strip()` neither starts nor ends with whitespace, is no longer than the input, and is `""` exactly when the input is all whitespace |
| `PyStrings.StripIsSlice` | app.py:31 | `text.strip()` is a slice of `text` with only whitespace before it and after it, so only leading and trailing whitespace is removed |
| `Normalizer.NonSpacesOfStrip` | app.py:31 | stripping removes only whitespace |
| `Normalizer.CleanText` | app.py:27-31 | `clean_text(x)` neither starts nor ends with whitespace; the lemmas `CleanTextAlphabet` to `CleanTextIdempotent` below carry the rest of its properties |
| `Normalizer.CleanTextAlphabet` | app.py:28-30 | every character of `clean_text(x)` is in `a-z`, `0-9` or is `' '`; `\n`, `\t` and other whitespace never survive |
| `Normalizer.CleanTextNoDoubleSpace` | app.py:30-31 | `clean_text(x)` never holds two whitespace characters in a row |
| `Normalizer.CleanTextIsNormalized` | app.py:27-31 | `clean_text(x)` has the normalised shape: alphabet, single spaces, no edge spaces |
| `Normalizer.CleanTextKeepsAlnums` | app.py:28-29 | removing the spaces from `clean_text(x)` gives exactly the ASCII letters and digits in the lower-case form of `x` (what `Chars.AsciiFold` keeps of each character), in their original order |
| `Normalizer.CleanTextEmptyIff` | app.py:27-31 | `clean_text(x)` is `""` if and only if no character of `x` is an ASCII letter or digit, KELVIN SIGN or U+0130 (what `Chars.IsWordChar` accepts): empty input, and input made only of punctuation, whitespace and other non-ASCII characters, give `""` |
| `Normalizer.CleanTextFixpoint` | app.py:27-31 | `clean_text(s) == s` if and only if `s` has the normalised shape |
| `Normalizer.CleanTextIdempotent` | app.py:27-31 | `clean_text(clean_text(x)) == clean_text(x)` |
| `Normalizer.StripCollapseIsJoinedWords` | app.py:30-31 | collapsing whitespace and stripping equals `' '.join(s.split())` |
| `Normalizer.CleanTextIsJoinedWords` | app.py:27-31 | `clean_text(x)` is the whitespace-separated words of the masked lower-case text joined by single spaces |
| `Extraction.PageTexts` | app.py:14-17 | the texts of the pages that pass `if page_text:`, never an empty one, at most one per page |
| `Extraction.PdfText` | app.py:11-18 | what `extract_text_from_pdf` returns; it has no contract of its own, and its properties are `PdfTextSnoc`, `PdfTextEmptyIff`, `LinesIsJoin` and `PdfTextSplit` |
| `Extraction.PdfTextSnoc` | app.py:15-17 | one more page adds its text and `"\n"` when it has text, and nothing otherwise |
| `Extraction.ExtractTextFromPdf` | app.py:11-18 | the loop returns the in-order concatenation of `t + "\n"` over the non-empty page texts `t`; the result is `""` exactly when no page has text |
| `Extraction.PdfTextEmptyIff` | app.py:12-18 | the PDF text is `""` if and only if every page's text is `None` or empty |
| `Extraction.LinesIsJoin` | app.py:12-18 | the PDF text is the non-empty page texts joined by `"\n"` with one more `"\n"` after the last |
| `Extraction.PdfTextSplit` | app.py:12-18 | when no page text holds `'\n'`, splitting the PDF text on `'\n'` gives the non-empty page texts followed by one `""` |
| `Extraction.DocxText` | app.py:20-25 | what `extract_text_from_docx` returns, `'\n'.join` of the paragraphs; its properties are `DocxTextExamples`, `DocxTextSplit`, `SplitJoin` and `JoinSplit` |
| `Extraction.ExtractTextFromDocx` | app.py:20-25 | the loop collects every paragraph in order and returns them joined by `'\n'` |
| `Extraction.DocxTextExamples` | app.py:22-25 | no paragraphs give `""`; `["Role: Data Analyst", "Skills: SQL, Excel"]` gives `"Role: Data Analyst\nSkills: SQL, Excel"` |
| `Extraction.DocxTextSplit` | app.py:22-25 | for a non-empty list with no `'\n'` in any paragraph, splitting the text on `'\n'` recovers the list, empty paragraphs included |
| `PyStrings.Join` | app.py:25 | `sep.join(parts)`; it has no contract of its own, and its properties are `SplitJoin` and `JoinSplit` |
| `PyStrings.SplitJoin` | app.py:25 | `sep.join(parts).split(sep) == parts` for a non-empty list whose parts do not contain `sep` |
| `PyStrings.JoinSplit` | app.py:25 | `sep.join(s.split(sep)) == s` for every string |
| `SimilarityApp.Read` | app.py:54-60 | reading with the PDF reader gives the PDF text (or the PDF reader's error), reading with the DOCX reader gives the DOCX text (or its error) |
| `SimilarityApp.ReadJobDescription` | app.py:57-60 | the tag `"application/pdf"` routes to the PDF reader, every other tag to the DOCX reader |
| `SimilarityApp.Evaluate` | app.py:51-64 | nothing happens until both uploads are present; the resume is always read as a PDF and before the job description; the first reader error is reported (app.py:70-71); otherwise both texts are cleaned and both have the normalised shape |

## Left out

- The PDF and Word parsing libraries (pdfplumber and python-docx, app.py:13-15, 21, 23) are not modelled. An `Upload` carries what each library would read from the bytes, and `None` stands for the library raising.
- `SentenceTransformer` loading, `get_embedding` and `calculate_similarity` (app.py:34-43) are not modelled. They are an opaque model and floating-point tensor arithmetic. `Evaluate` stops at the two cleaned texts passed to them, so an error raised by the encoder is not modelled either.
- The Streamlit page is not modelled: the title, the two upload widgets and their type restriction, the success message with the score to four decimals, and the text of the error message (app.py:46-49, 69, 71). A reader error is reported only as which reader raised, not with the library's message.
- `nltk.download('punkt')` (app.py:8) is network I/O and nothing uses its result.
- `Chars.Lower`: leaves non-ASCII characters other than U+212A and U+0130 as they are, where `str.lower()` would map them to other non-ASCII characters. `PyStrings.LowerText` therefore differs from `str.lower()` on such text, but `CleanText` does not, because the masking step turns both forms into spaces.
- Python strings may hold lone surrogate code points. A Dafny `char` cannot, so such strings are not modelled.
- Python's context-dependent lower-casing of Greek capital sigma is not modelled. Both of its forms are non-ASCII letters that the masking step turns into a space.
