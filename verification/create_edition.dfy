/**
 * Creating an edition (`imageUploader`): the request checks, run in a fixed
 * order, and the walk over the uploaded files that picks out exactly one PDF
 * and the page images, in upload order.
 */
module CreateEdition {
  import opened Wrappers
  import opened JsString
  import opened Paths
  import opened EditionRecord
  import opened Seqs

  /** Every rejection of a create request; each is answered with status 400. */
  datatype CreateError = NoFiles | TitleRequired | InvalidDate | TooManyPdfs | MissingPdf

  function Message(e: CreateError): (m: string)
    ensures m != ""
  {
    match e
    case NoFiles => "No files uploaded."
    case TitleRequired => "Title is required."
    case InvalidDate => "Invalid date format."
    case TooManyPdfs => "Only one PDF file is allowed."
    case MissingPdf => "A PDF file is required."
  }

  /** `isSpecialEdition` as a request may carry it: absent, a form string or a JSON boolean. */
  datatype SpecialFlag = Absent | Text(text: string) | Bool(b: bool)

  /** `isSpecialEdition === "true" || isSpecialEdition === true` */
  predicate SpecialValue(f: SpecialFlag) {
    f == Text("true") || f == Bool(true)
  }

  /** A request field is truthy: present and not the empty string. */
  predicate Truthy(s: Option<string>) {
    s.Some? && s.value != ""
  }

  /** The lower-cased extension of the uploaded file's original name. */
  function Ext(f: UploadedFile): string {
    ToLowerAscii(Extname(f.originalname))
  }

  predicate IsPdf(f: UploadedFile) {
    Ext(f) == ".pdf"
  }

  predicate IsPageImage(f: UploadedFile) {
    Ext(f) in [".jpg", ".jpeg", ".png", ".webp"]
  }

  /** The stored keys of the PDF uploads, in upload order. */
  function PdfKeys(files: seq<UploadedFile>): seq<string> {
    Select(files, IsPdf, StoredKey)
  }

  /** The stored keys of the page-image uploads, in upload order. */
  function ImageKeys(files: seq<UploadedFile>): seq<string> {
    Select(files, IsPageImage, StoredKey)
  }

  /** What the walk over the uploads yields: the one PDF key and the page keys. */
  datatype Classified = Classified(pdfFile: string, pages: seq<string>)

  /** The outcome of the walk over the uploads, stated on the whole batch. */
  function Classify(files: seq<UploadedFile>): Result<Classified, CreateError> {
    var pdfs := PdfKeys(files);
    if |pdfs| >= 2 then Failure(TooManyPdfs)
    else if pdfs == [] then Failure(MissingPdf)
    else Success(Classified(pdfs[0], ImageKeys(files)))
  }

  /**
   * The loop of `imageUploader`: files are taken in upload order, a second
   * PDF stops the walk with an error, images are pushed onto `pages` and
   * every other extension is skipped; no PDF at the end is an error.
   */
  method ClassifyUploads(files: seq<UploadedFile>) returns (r: Result<Classified, CreateError>)
    ensures r == Classify(files)
  {
    var pages: seq<string> := [];
    var pdfFile: Option<string> := None;
    for i := 0 to |files|
      invariant pages == ImageKeys(files[..i])
      invariant |PdfKeys(files[..i])| <= 1
      invariant pdfFile == if PdfKeys(files[..i]) == [] then None else Some(PdfKeys(files[..i])[0])
    {
      var file := files[i];
      SelectStep(files, i, IsPdf, StoredKey);
      SelectStep(files, i, IsPageImage, StoredKey);
      var rel := CreateKey(file);
      if IsPdf(file) {
        if pdfFile.Some? {
          SecondPdfFails(files, i);
          return Failure(TooManyPdfs);
        }
        pdfFile := Some(rel);
      } else if IsPageImage(file) {
        pages := pages + [rel];
      }
    }
    assert files[..|files|] == files;
    WalkComplete(files, pdfFile, pages);
    if pdfFile.None? {
      return Failure(MissingPdf);
    }
    r := Success(Classified(pdfFile.value, pages));
  }

  /** A PDF upload after an earlier one makes the whole batch fail. */
  lemma SecondPdfFails(files: seq<UploadedFile>, i: nat)
    requires i < |files| && IsPdf(files[i]) && PdfKeys(files[..i]) != []
    ensures Classify(files) == Failure(TooManyPdfs)
  {
    SelectStep(files, i, IsPdf, StoredKey);
    SelectPrefix(files, i + 1, IsPdf, StoredKey);
  }

  /** What the walk holds once every upload has been looked at is the outcome on the whole batch. */
  lemma WalkComplete(files: seq<UploadedFile>, pdfFile: Option<string>, pages: seq<string>)
    requires pages == ImageKeys(files) && |PdfKeys(files)| <= 1
    requires pdfFile == if PdfKeys(files) == [] then None else Some(PdfKeys(files)[0])
    ensures pdfFile.None? ==> Classify(files) == Failure(MissingPdf)
    ensures pdfFile.Some? ==> Classify(files) == Success(Classified(pdfFile.value, pages))
  {
  }

  /** A key is a page exactly when it is the stored key of an image upload. */
  lemma ImageKeysFromImages(files: seq<UploadedFile>)
    ensures forall key :: key in ImageKeys(files) <==>
      exists i :: 0 <= i < |files| && IsPageImage(files[i]) && key == StoredKey(files[i])
  {
    var keep: UploadedFile -> bool := IsPageImage;
    SelectMembers(files, keep, StoredKey);
    forall key | key in ImageKeys(files)
      ensures exists i :: 0 <= i < |files| && IsPageImage(files[i]) && key == StoredKey(files[i])
    {
      var k :| 0 <= k < |ImageKeys(files)| && ImageKeys(files)[k] == key;
      var i :| 0 <= i < |files| && keep(files[i]) && Select(files, keep, StoredKey)[k] == StoredKey(files[i]);
      assert IsPageImage(files[i]);
    }
    forall i | 0 <= i < |files| && IsPageImage(files[i]) ensures StoredKey(files[i]) in ImageKeys(files) {
      assert keep(files[i]);
    }
  }

  /**
   * With exactly one PDF upload the walk succeeds: its PDF is that upload's
   * key and its pages are the image keys in upload order.
   */
  lemma ClassifySingle(files: seq<UploadedFile>, p: nat)
    requires p < |files| && IsPdf(files[p])
    requires forall i :: 0 <= i < |files| && i != p ==> !IsPdf(files[i])
    ensures Classify(files) == Success(Classified(StoredKey(files[p]), ImageKeys(files)))
  {
    SelectSingle(files, p, IsPdf, StoredKey);
  }

  /** The failures of the walk, stated on the uploads. */
  lemma ClassifyFailures(files: seq<UploadedFile>)
    ensures Classify(files) == Failure(TooManyPdfs) <==>
      exists i, j :: 0 <= i < j < |files| && IsPdf(files[i]) && IsPdf(files[j])
    ensures Classify(files) == Failure(MissingPdf) <==>
      forall i :: 0 <= i < |files| ==> !IsPdf(files[i])
  {
    SelectTwo(files, IsPdf, StoredKey);
    SelectEmpty(files, IsPdf, StoredKey);
  }

  /**
   * The whole create request up to `save`: no files, then no title, then an
   * unparseable date, then the PDF count. `parseDate` stands for `new Date`
   * (`None` for an invalid date) and `now` for the time of the request.
   */
  function NewEdition(files: seq<UploadedFile>, title: Option<string>, date: Option<string>,
                      special: SpecialFlag, parseDate: string -> Option<int>, now: int)
    : (r: Result<Edition, CreateError>)
    ensures files == [] ==> r == Failure(NoFiles)
    ensures files != [] && !Truthy(title) ==> r == Failure(TitleRequired)
    ensures files != [] && Truthy(title) && Truthy(date) && parseDate(date.value).None?
      ==> r == Failure(InvalidDate)
    ensures files != [] && Truthy(title) && !(Truthy(date) && parseDate(date.value).None?) ==>
      (r.Success? <==> Classify(files).Success?)
      && (Classify(files).Failure? ==> r == Failure(Classify(files).error))
    ensures r.Success? ==> Truthy(title) && r.value.title == title.value && KeysStored(r.value)
    ensures r.Success? ==> r.value.date == (if Truthy(date) then parseDate(date.value).value else now)
    ensures r.Success? ==> r.value.isSpecialEdition == SpecialValue(special)
    ensures r.Success? ==>
      Classify(files).Success? && r.value.pdfFile == Classify(files).value.pdfFile
      && r.value.pages == Classify(files).value.pages
  {
    if files == [] then Failure(NoFiles)
    else if !Truthy(title) then Failure(TitleRequired)
    else if Truthy(date) && parseDate(date.value).None? then Failure(InvalidDate)
    else
      var when := if Truthy(date) then parseDate(date.value).value else now;
      match Classify(files)
      case Failure(e) => Failure(e)
      case Success(c) =>
        ClassifiedKeys(files);
        Success(Edition(title.value, when, SpecialValue(special), c.pdfFile, c.pages))
  }

  /** Every key the walk yields is an `uploads/` key. */
  lemma ClassifiedKeys(files: seq<UploadedFile>)
    ensures Classify(files).Success? ==> StartsWith(Classify(files).value.pdfFile, Root)
    ensures Classify(files).Success? ==>
      forall i :: 0 <= i < |Classify(files).value.pages| ==> StartsWith(Classify(files).value.pages[i], Root)
  {
    SelectMembers(files, IsPdf, StoredKey);
    SelectMembers(files, IsPageImage, StoredKey);
  }
}
