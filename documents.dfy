/**
 * The document processor: picking an extractor from the content type and the file
 * extension, collecting the non-blank pages of a PDF, wrapping OCR output and
 * plain text as a one-page extraction, and the size and emptiness check on
 * uploads.
 *
 * The PDF reader, the OCR engine and UTF-8 decoding are libraries: what they make
 * of the uploaded bytes is given to the model as `Readings`.
 */
module Documents {
  import opened Wrappers
  import opened Text

  /** One entry of `pages`. */
  datatype Page = Page(pageNumber: nat, text: string, charCount: nat)

  /** The dictionary every extractor returns; `imageSize` is only set by OCR. */
  datatype Extraction = Extraction(
    text: string,
    pages: seq<Page>,
    totalPages: nat,
    extractedPages: nat,
    source: string,
    imageSize: Option<(int, int)>)

  /** What OCR produced: the text and the size of the image. */
  datatype OcrOutput = OcrOutput(text: string, width: int, height: int)

  /**
   * What the libraries make of the uploaded bytes: the text of each PDF page (None
   * when the reader or a page fails), the OCR output (None when the image cannot
   * be opened or read), and the bytes decoded as UTF-8 with errors ignored.
   */
  datatype Readings = Readings(pdfPages: Option<seq<string>>, ocr: Option<OcrOutput>, utf8: string)

  /** The `ValueError`s of the processor. */
  datatype ExtractError =
    | PdfFailed
    | ImageFailed(noTextDetected: bool)
    | UnsupportedType(contentType: string)

  datatype FileError = FileTooLarge | FileEmpty

  /** The extractor `extract_text_from_file` dispatches to. */
  datatype FileKind = PdfFile | ImageFile | TextFile

  const IMAGE_EXTENSIONS: seq<string> := [".jpg", ".jpeg", ".png", ".bmp", ".tiff", ".gif"]
  const PAGE_SEPARATOR: string := "\n\n"
  const BYTES_PER_MB: int := 1024 * 1024
  const DEFAULT_MAX_SIZE_MB: int := 10

  /** `str.lower()` on ASCII letters; other characters are kept. */
  function Lower(s: string): (r: string)
    ensures |r| == |s|
    ensures forall i :: 0 <= i < |s| ==> ('A' <= s[i] <= 'Z' ==> r[i] as int == s[i] as int + 32)
    ensures forall i :: 0 <= i < |s| ==> (!('A' <= s[i] <= 'Z') ==> r[i] == s[i])
  {
    if s == [] then []
    else
      var c := s[0];
      [if 'A' <= c <= 'Z' then (c as int + 32) as char else c] + Lower(s[1..])
  }

  predicate StartsWith(s: string, prefix: string) {
    |prefix| <= |s| && s[..|prefix|] == prefix
  }

  /**
   * The dispatch of `extract_text_from_file` on the content type and the
   * lower-cased extension; None is the unsupported type.
   */
  function Classify(contentType: string, ext: string): (kind: Option<FileKind>)
    ensures kind == Some(PdfFile) <==> contentType == "application/pdf" || ext == ".pdf"
    ensures kind == Some(ImageFile) <==>
      && contentType != "application/pdf" && ext != ".pdf"
      && (StartsWith(contentType, "image/") || ext in IMAGE_EXTENSIONS)
    ensures kind == Some(TextFile) <==>
      && contentType != "application/pdf" && ext != ".pdf"
      && !StartsWith(contentType, "image/") && ext !in IMAGE_EXTENSIONS
      && (contentType == "text/plain" || ext == ".txt")
    ensures kind.None? <==>
      && contentType != "application/pdf" && ext != ".pdf"
      && !StartsWith(contentType, "image/") && ext !in IMAGE_EXTENSIONS
      && contentType != "text/plain" && ext != ".txt"
  {
    if contentType == "application/pdf" || ext == ".pdf" then Some(PdfFile)
    else if StartsWith(contentType, "image/") || ext in IMAGE_EXTENSIONS then Some(ImageFile)
    else if contentType == "text/plain" || ext == ".txt" then Some(TextFile)
    else None
  }

  /** The PDF branch comes first: a ".pdf" name wins over any content type, in any letter case. */
  lemma PdfWins(contentType: string, suffix: string)
    requires Lower(suffix) == ".pdf" || contentType == "application/pdf"
    ensures Classify(contentType, Lower(suffix)) == Some(PdfFile)
  {
  }

  /** The pages kept from the page texts: the non-blank ones, numbered from 1 by their place in the file. */
  function KeptPages(texts: seq<string>): seq<Page> {
    if texts == [] then []
    else
      var n := |texts|;
      var last := texts[n - 1];
      KeptPages(texts[..n - 1]) + (if IsBlank(last) then [] else [Page(n, last, |last|)])
  }

  /** Every kept page is a non-blank page of the file, under its 1-based number, with its length. */
  lemma {:induction false} KeptPagesSound(texts: seq<string>)
    ensures var pages := KeptPages(texts);
      && |pages| <= |texts|
      && forall k :: 0 <= k < |pages| ==>
           && 1 <= pages[k].pageNumber <= |texts|
           && pages[k].text == texts[pages[k].pageNumber - 1]
           && !IsBlank(pages[k].text)
           && pages[k].charCount == |pages[k].text|
  {
    if texts != [] {
      var n := |texts|;
      var prefix := texts[..n - 1];
      KeptPagesSound(prefix);
      var before := KeptPages(prefix);
      var pages := KeptPages(texts);
      forall k | 0 <= k < |before|
        ensures pages[k] == before[k] && texts[before[k].pageNumber - 1] == prefix[before[k].pageNumber - 1]
      {
      }
    }
  }

  /** Kept pages keep the order of the file: their numbers strictly increase. */
  lemma {:induction false} KeptPagesIncreasing(texts: seq<string>)
    ensures var pages := KeptPages(texts);
      forall k :: 0 <= k < |pages| - 1 ==> pages[k].pageNumber < pages[k + 1].pageNumber
  {
    if texts != [] {
      var n := |texts|;
      var prefix := texts[..n - 1];
      KeptPagesIncreasing(prefix);
      KeptPagesSound(prefix);
      var before := KeptPages(prefix);
      var pages := KeptPages(texts);
      forall k | 0 <= k < |before| ensures pages[k] == before[k] {
      }
    }
  }

  /** Some kept page carries the number `pageNumber`. */
  predicate IsKept(pages: seq<Page>, pageNumber: nat) {
    exists k :: 0 <= k < |pages| && pages[k].pageNumber == pageNumber
  }

  /** No non-blank page is dropped. */
  lemma {:induction false} KeptPagesComplete(texts: seq<string>)
    ensures forall i :: 0 <= i < |texts| && !IsBlank(texts[i]) ==> IsKept(KeptPages(texts), i + 1)
  {
    if texts != [] {
      var n := |texts|;
      var prefix := texts[..n - 1];
      KeptPagesComplete(prefix);
      var before := KeptPages(prefix);
      var pages := KeptPages(texts);
      forall i | 0 <= i < |texts| && !IsBlank(texts[i])
        ensures IsKept(pages, i + 1)
      {
        if i < n - 1 {
          assert prefix[i] == texts[i];
          var k :| 0 <= k < |before| && before[k].pageNumber == i + 1;
          assert pages[k] == before[k];
        } else {
          assert pages[|pages| - 1].pageNumber == i + 1;
        }
      }
    }
  }

  /** The texts of the pages, in order. */
  function PageTexts(pages: seq<Page>): (r: seq<string>)
    ensures |r| == |pages| && forall k :: 0 <= k < |pages| ==> r[k] == pages[k].text
  {
    seq(|pages|, k requires 0 <= k < |pages| => pages[k].text)
  }

  /** What `extract_text_from_pdf` returns for the page texts the reader produced. */
  function PdfExtraction(pdfPages: Option<seq<string>>): Result<Extraction, ExtractError> {
    match pdfPages
    case None => Err(PdfFailed)
    case Some(texts) =>
      var pages := KeptPages(texts);
      Ok(Extraction(Join(PAGE_SEPARATOR, PageTexts(pages)), pages, |texts|, |pages|, "pdf", None))
  }

  /**
   * `extract_text_from_pdf`: walk the pages, numbering them from 1, keep those whose
   * text is not blank, and join the kept texts with blank lines.
   */
  method ExtractTextFromPdf(pdfPages: Option<seq<string>>) returns (r: Result<Extraction, ExtractError>)
    ensures r == PdfExtraction(pdfPages)
  {
    if pdfPages.None? {
      return Err(PdfFailed);
    }
    var texts := pdfPages.value;
    var pages: seq<Page> := [];
    for i := 0 to |texts|
      invariant pages == KeptPages(texts[..i])
    {
      var pageNum := i + 1;
      var text := texts[i];
      assert texts[..i + 1][..i] == texts[..i];
      if !IsBlank(text) {
        pages := pages + [Page(pageNum, text, |text|)];
      }
    }
    assert texts[..|texts|] == texts;
    var totalText := Join(PAGE_SEPARATOR, PageTexts(pages));
    r := Ok(Extraction(totalText, pages, |texts|, |pages|, "pdf", None));
  }

  /**
   * What the PDF branch promises once the reader has produced the page texts: every
   * page is counted, only the non-blank ones are kept, in file order under their
   * 1-based numbers and with their lengths, and the text is the kept texts
   * separated by blank lines. A reader failure is reported, never an empty result.
   */
  lemma PdfExtractionFacts(pdfPages: Option<seq<string>>)
    ensures PdfExtraction(pdfPages).Err? <==> pdfPages.None?
    ensures pdfPages.Some? ==>
      var texts := pdfPages.value;
      var e := PdfExtraction(pdfPages).value;
      && e.totalPages == |texts| && e.extractedPages == |e.pages| <= |texts|
      && e.source == "pdf" && e.imageSize.None?
      && e.text == Join(PAGE_SEPARATOR, PageTexts(e.pages))
      && (forall k :: 0 <= k < |e.pages| ==>
            && 1 <= e.pages[k].pageNumber <= |texts|
            && e.pages[k].text == texts[e.pages[k].pageNumber - 1]
            && !IsBlank(e.pages[k].text)
            && e.pages[k].charCount == |e.pages[k].text|)
      && (forall k :: 0 <= k < |e.pages| - 1 ==> e.pages[k].pageNumber < e.pages[k + 1].pageNumber)
      && (forall i :: 0 <= i < |texts| && !IsBlank(texts[i]) ==> IsKept(e.pages, i + 1))
  {
    if pdfPages.Some? {
      KeptPagesSound(pdfPages.value);
      KeptPagesIncreasing(pdfPages.value);
      KeptPagesComplete(pdfPages.value);
    }
  }

  /** A one-page extraction of `text`. */
  function SinglePage(text: string, source: string, imageSize: Option<(int, int)>): Extraction {
    Extraction(text, [Page(1, text, |text|)], 1, 1, source, imageSize)
  }

  /** `extract_text_from_image`: OCR output that is not blank becomes one page numbered 1. */
  function ExtractTextFromImage(ocr: Option<OcrOutput>): (r: Result<Extraction, ExtractError>)
    ensures r.Ok? <==> ocr.Some? && !IsBlank(ocr.value.text)
    ensures r.Err? ==> r.error == ImageFailed(ocr.Some?)
    ensures r.Ok? ==>
      && r.value.text == ocr.value.text
      && |r.value.pages| == 1 && r.value.pages[0].pageNumber == 1
      && r.value.pages[0].text == r.value.text && r.value.pages[0].charCount == |r.value.text|
      && r.value.totalPages == 1 && r.value.extractedPages == 1
      && r.value.source == "ocr" && r.value.imageSize == Some((ocr.value.width, ocr.value.height))
  {
    match ocr
    case None => Err(ImageFailed(false))
    case Some(out) =>
      if IsBlank(out.text) then Err(ImageFailed(true))
      else Ok(SinglePage(out.text, "ocr", Some((out.width, out.height))))
  }

  /** The plain-text branch: the decoded text, whatever it is, as one page numbered 1. */
  function TextExtraction(decoded: string): (e: Extraction)
    ensures e.text == decoded && |e.pages| == 1 && e.pages[0] == Page(1, decoded, |decoded|)
    ensures e.totalPages == 1 && e.extractedPages == 1 && e.source == "text" && e.imageSize.None?
  {
    SinglePage(decoded, "text", None)
  }

  /**
   * `extract_text_from_file`: lower-case the extension, then dispatch to the PDF,
   * image or text extractor, or refuse the type.
   */
  method ExtractTextFromFile(readings: Readings, suffix: string, contentType: string)
    returns (r: Result<Extraction, ExtractError>)
    ensures var kind := Classify(contentType, Lower(suffix));
      && (kind == Some(PdfFile) ==> r == PdfExtraction(readings.pdfPages))
      && (kind == Some(ImageFile) ==> r == ExtractTextFromImage(readings.ocr))
      && (kind == Some(TextFile) ==> r == Ok(TextExtraction(readings.utf8)))
      && (kind.None? ==> r == Err(UnsupportedType(contentType)))
  {
    var fileExt := Lower(suffix);
    if contentType == "application/pdf" || fileExt == ".pdf" {
      r := ExtractTextFromPdf(readings.pdfPages);
    } else if StartsWith(contentType, "image/") || fileExt in IMAGE_EXTENSIONS {
      r := ExtractTextFromImage(readings.ocr);
    } else if contentType == "text/plain" || fileExt == ".txt" {
      r := Ok(TextExtraction(readings.utf8));
    } else {
      r := Err(UnsupportedType(contentType));
    }
  }

  /**
   * `validate_file`: too large when the size in MiB, as a true division, exceeds the
   * limit (checked first); otherwise empty content is refused; otherwise valid.
   */
  function ValidateFile(size: nat, maxSizeMb: int): Result<bool, FileError> {
    var fileSizeMb := size as real / BYTES_PER_MB as real;
    if fileSizeMb > maxSizeMb as real then Err(FileTooLarge)
    else if size == 0 then Err(FileEmpty)
    else Ok(true)
  }

  /**
   * The outcome in whole bytes: a file is valid exactly when it is not empty and has
   * at most `maxSizeMb` MiB; the size test comes first, so an empty file under a
   * negative limit is reported as too large.
   */
  lemma ValidateFileInBytes(size: nat, maxSizeMb: int)
    ensures ValidateFile(size, maxSizeMb) == Err(FileTooLarge) <==> size > maxSizeMb * BYTES_PER_MB
    ensures ValidateFile(size, maxSizeMb) == Err(FileEmpty) <==> size == 0 && maxSizeMb >= 0
    ensures ValidateFile(size, maxSizeMb) == Ok(true) <==> 0 < size <= maxSizeMb * BYTES_PER_MB
  {
    var m := BYTES_PER_MB as real;
    assert size as real / m > maxSizeMb as real <==> size as real > maxSizeMb as real * m;
  }

  /** Under the default limit of 10 MiB a file is valid exactly when it has 1 to 10485760 bytes. */
  lemma ValidateFileDefault(size: nat)
    ensures ValidateFile(size, DEFAULT_MAX_SIZE_MB) == Ok(true) <==> 0 < size <= 10485760
    ensures ValidateFile(size, DEFAULT_MAX_SIZE_MB) == Err(FileTooLarge) <==> size > 10485760
  {
    ValidateFileInBytes(size, DEFAULT_MAX_SIZE_MB);
  }
}
