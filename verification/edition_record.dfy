/**
 * The stored edition record and the public view the media endpoints send
 * back: every stored key is passed through `toPublicPath`.
 */
module EditionRecord {
  import opened JsString
  import opened Paths

  /**
   * An edition as stored. `date` is a JavaScript time value (milliseconds
   * since the epoch); `pdfFile` is `""` when the record holds no PDF.
   */
  datatype Edition = Edition(
    title: string,
    date: int,
    isSpecialEdition: bool,
    pdfFile: string,
    pages: seq<string>)

  /** Every stored path of a record created or updated by the controller is an `uploads/` key. */
  predicate KeysStored(e: Edition) {
    (e.pdfFile == "" || StartsWith(e.pdfFile, Root))
    && forall i :: 0 <= i < |e.pages| ==> StartsWith(e.pages[i], Root)
  }

  /** The JSON `data` object of a response: each stored key mapped through `toPublicPath`, in order. */
  function PublicView(e: Edition): (v: Edition)
    ensures |v.pages| == |e.pages|
    ensures (v.title, v.date, v.isSpecialEdition) == (e.title, e.date, e.isSpecialEdition)
  {
    e.(pdfFile := ToPublicPath(e.pdfFile),
       pages := seq(|e.pages|, i requires 0 <= i < |e.pages| => ToPublicPath(e.pages[i])))
  }

  /**
   * A record holding `uploads/` keys is sent out with a public path starting
   * with `/` for the PDF and for every page, page `i` coming from stored page
   * `i`; a missing PDF stays missing.
   */
  lemma PublicViewOfStored(e: Edition)
    requires KeysStored(e)
    ensures var v := PublicView(e);
      (e.pdfFile == "" <==> v.pdfFile == "")
      && (e.pdfFile != "" ==> StartsWith(v.pdfFile, "/"))
      && forall i :: 0 <= i < |v.pages| ==> StartsWith(v.pages[i], "/")
  {
    var v := PublicView(e);
    if e.pdfFile != "" {
      KeyNotUrl(e.pdfFile);
      PublicPathLeadingSlash(e.pdfFile);
    }
    forall i | 0 <= i < |v.pages| ensures StartsWith(v.pages[i], "/") {
      KeyNotUrl(e.pages[i]);
      PublicPathLeadingSlash(e.pages[i]);
    }
  }

  /** For plain keys `uploads/<name>` the public view is the key with a `/` in front. */
  lemma PublicViewOfPlainKeys(e: Edition)
    requires PlainKey(e.pdfFile)
    requires forall i :: 0 <= i < |e.pages| ==> PlainKey(e.pages[i])
    ensures var v := PublicView(e);
      v.pdfFile == "/" + e.pdfFile
      && forall i :: 0 <= i < |v.pages| ==> v.pages[i] == "/" + e.pages[i]
  {
    PublicPathOfKey(e.pdfFile);
    forall i | 0 <= i < |e.pages| ensures PublicView(e).pages[i] == "/" + e.pages[i] {
      PublicPathOfKey(e.pages[i]);
    }
  }
}
