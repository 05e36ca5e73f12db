/**
 * The processing chain of the upload form (app.py:51-64 and 70-71): read the
 * resume as a PDF, read the job description with the reader its MIME type
 * selects, and clean both texts for the similarity computation.
 *
 * An upload is given as its declared MIME type and what each document
 * library reads from its bytes; `None` stands for the library raising on
 * bytes it cannot parse.
 */
module SimilarityApp {
  import opened Wrappers
  import opened Extraction
  import opened Normalizer

  /** The MIME type that routes a job description to the PDF reader. */
  const PdfMimeType: string := "application/pdf"

  datatype Upload = Upload(
    mimeType: string,
    pdfPages: Option<seq<Option<string>>>,  // what pdfplumber reads, page by page
    docxParagraphs: Option<seq<string>>     // what python-docx reads, paragraph by paragraph
  )

  datatype Reader = PdfReader | DocxReader

  /** A document library raised while reading an upload. */
  datatype ExtractionError = Unreadable(reader: Reader)

  /** The text an upload yields when read with `reader`. */
  function ReadAs(upload: Upload, reader: Reader): Result<string, ExtractionError> {
    match reader
    case PdfReader =>
      if upload.pdfPages.Some? then Success(PdfText(upload.pdfPages.value))
      else Failure(Unreadable(PdfReader))
    case DocxReader =>
      if upload.docxParagraphs.Some? then Success(DocxText(upload.docxParagraphs.value))
      else Failure(Unreadable(DocxReader))
  }

  /** Runs the extractor for `reader` on an upload. */
  method Read(upload: Upload, reader: Reader) returns (r: Result<string, ExtractionError>)
    ensures r == ReadAs(upload, reader)
  {
    match reader
    case PdfReader =>
      if upload.pdfPages.Some? {
        var text := ExtractTextFromPdf(upload.pdfPages.value);
        r := Success(text);
      } else {
        r := Failure(Unreadable(PdfReader));
      }
    case DocxReader =>
      if upload.docxParagraphs.Some? {
        var text := ExtractTextFromDocx(upload.docxParagraphs.value);
        r := Success(text);
      } else {
        r := Failure(Unreadable(DocxReader));
      }
  }

  /**
   * The job description's reader: the PDF reader for the tag
   * `"application/pdf"`, the DOCX reader for every other tag.
   */
  method ReadJobDescription(jd: Upload) returns (r: Result<string, ExtractionError>)
    ensures jd.mimeType == PdfMimeType ==> r == ReadAs(jd, PdfReader)
    ensures jd.mimeType != PdfMimeType ==> r == ReadAs(jd, DocxReader)
  {
    if jd.mimeType == PdfMimeType {
      r := Read(jd, PdfReader);
    } else {
      r := Read(jd, DocxReader);
    }
  }

  /**
   * What the form shows: nothing until both files are present, the first
   * error raised while reading, or the two cleaned texts that are passed on
   * to the similarity computation.
   */
  datatype Outcome =
    | AwaitingUploads
    | Failed(error: ExtractionError)
    | ReadyToCompare(resumeClean: string, jdClean: string)

  /**
   * One run of the form's body. The resume is always read as a PDF,
   * whatever its MIME type; it is read before the job description, so its
   * error is the one reported when both fail. Both cleaned texts have the
   * shape of normalised text.
   */
  method Evaluate(resume: Option<Upload>, jd: Option<Upload>) returns (o: Outcome)
    ensures resume.None? || jd.None? ==> o == AwaitingUploads
    ensures resume.Some? && jd.Some? ==>
      var resumeText := ReadAs(resume.value, PdfReader);
      var jdText := ReadAs(jd.value, if jd.value.mimeType == PdfMimeType then PdfReader else DocxReader);
      o == if resumeText.Failure? then Failed(resumeText.error)
           else if jdText.Failure? then Failed(jdText.error)
           else ReadyToCompare(CleanText(resumeText.value), CleanText(jdText.value))
    ensures o.ReadyToCompare? ==> IsNormalized(o.resumeClean) && IsNormalized(o.jdClean)
  {
    if resume.None? || jd.None? {
      return AwaitingUploads;
    }
    var resumeText := Read(resume.value, PdfReader);
    if resumeText.Failure? {
      return Failed(resumeText.error);
    }
    var jdText := ReadJobDescription(jd.value);
    if jdText.Failure? {
      return Failed(jdText.error);
    }
    var resumeClean := CleanText(resumeText.value);
    var jdClean := CleanText(jdText.value);
    CleanTextIsNormalized(resumeText.value);
    CleanTextIsNormalized(jdText.value);
    o := ReadyToCompare(resumeClean, jdClean);
  }
}
