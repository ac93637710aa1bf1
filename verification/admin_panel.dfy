/**
 * The edition form of the admin panel: normalising dates, turning the
 * absolute URLs the panel shows back into stored paths, the page and PDF
 * edits of the update form, and the request each submit button sends.
 */
module AdminPanel {
  import opened Wrappers
  import opened JsString
  import opened Seqs
  import opened EditionRecord
  import opened CreateEdition
  import opened MediaQuery

  /** What `new Date(d)` reads back in local time: `getFullYear()`, `getMonth() + 1` and `getDate()`. */
  datatype LocalDate = LocalDate(year: int, month: nat, day: nat)

  /** A calendar date whose year has four digits. */
  predicate FourDigitYear(t: LocalDate) {
    1000 <= t.year <= 9999 && 1 <= t.month <= 12 && 1 <= t.day <= 31
  }

  /** `/^(\d{2})-(\d{2})-(\d{4})$/.test(s)` */
  predicate DmyShape(s: string) {
    |s| == 10 && s[2] == '-' && s[5] == '-'
    && AllDigits(s[..2]) && AllDigits(s[3..5]) && AllDigits(s[6..])
  }

  /** `${y}-${m}-${day}` with the month and the day padded to two digits. */
  function DateText(t: LocalDate): string {
    IntToString(t.year) + "-" + PadStart2(NatToString(t.month)) + "-" + PadStart2(NatToString(t.day))
  }

  /** `DD-MM-YYYY` reordered as `YYYY-MM-DD`. */
  function Reordered(d: string): string
    requires DmyShape(d)
  {
    d[6..] + "-" + d[3..5] + "-" + d[..2]
  }

  /** `r` is a `YYYY-MM-DD` date naming year, month and day of `t`. */
  predicate NamesDate(r: string, t: LocalDate) {
    DayShape(r) && DecimalValue(r[..4]) == t.year
    && DecimalValue(r[5..7]) == t.month && DecimalValue(r[8..]) == t.day
  }

  /**
   * `normalizeDateOnly`: `parse` stands for `new Date(d)` read in local
   * time, `None` for an invalid date. A `YYYY-MM-DD` date is kept, a date
   * the parser reads is written out as that local date, a `DD-MM-YYYY` date
   * it cannot read is reordered, and anything else is kept as it is.
   */
  function NormalizeDateOnly(d: string, parse: string -> Option<LocalDate>): (r: string)
    ensures d == "" ==> r == ""
    ensures DayShape(d) ==> r == d
    ensures d != "" && !DayShape(d) && parse(d).Some? ==> r == DateText(parse(d).value)
    ensures d != "" && !DayShape(d) && parse(d).Some? && FourDigitYear(parse(d).value) ==>
      NamesDate(r, parse(d).value)
    ensures !DayShape(d) && parse(d).None? && DmyShape(d) ==>
      DayShape(r) && r[..4] == d[6..] && r[5..7] == d[3..5] && r[8..] == d[..2]
    ensures parse(d).None? && !DmyShape(d) ==> r == d
  {
    if d == "" then ""
    else if DayShape(d) then d
    else match parse(d)
      case Some(t) =>
        DateTextNames(t);
        DateText(t)
      case None =>
        if DmyShape(d) then
          ReorderedIsDay(d);
          Reordered(d)
        else d
  }

  /** A number from 1000 to 9999 is written with four digits. */
  lemma FourDigits(n: nat)
    requires 1000 <= n <= 9999
    ensures |NatToString(n)| == 4
  {
    assert |NatToString(n / 1000)| == 1;
    assert |NatToString(n / 100)| == 2;
    assert |NatToString(n / 10)| == 3;
  }

  /** A number from 1 to 99 padded to two places is two digits with that value. */
  lemma TwoDigits(n: nat)
    requires 1 <= n <= 99
    ensures var s := PadStart2(NatToString(n)); |s| == 2 && AllDigits(s) && DecimalValue(s) == n
  {
    var s := PadStart2(NatToString(n));
    if n >= 10 {
      assert |NatToString(n / 10)| == 1;
    } else {
      assert s[..1] == "0" && "0"[..0] == "";
    }
  }

  /** A date with a four-digit year is written out in the `YYYY-MM-DD` form the server accepts. */
  lemma DateTextIsDay(t: LocalDate)
    requires FourDigitYear(t)
    ensures DayShape(DateText(t))
  {
    FourDigits(t.year);
    TwoDigits(t.month);
    TwoDigits(t.day);
    DayShapeOfParts(IntToString(t.year), PadStart2(NatToString(t.month)), PadStart2(NatToString(t.day)));
  }

  /** The three pieces of a `YYYY-MM-DD` text are where the shape puts them. */
  lemma JoinedParts(y: string, m: string, d: string)
    requires |y| == 4 && |m| == 2 && |d| == 2
    ensures var s := y + "-" + m + "-" + d; s[..4] == y && s[5..7] == m && s[8..] == d
  {
  }

  /** Written out, a date with a four-digit year reads back as the same year, month and day. */
  lemma DateTextNames(t: LocalDate)
    ensures FourDigitYear(t) ==> NamesDate(DateText(t), t)
  {
    if FourDigitYear(t) {
      var y, m, d := IntToString(t.year), PadStart2(NatToString(t.month)), PadStart2(NatToString(t.day));
      FourDigits(t.year);
      TwoDigits(t.month);
      TwoDigits(t.day);
      assert y == NatToString(t.year) && DecimalValue(y) == t.year;
      DayShapeOfParts(y, m, d);
      JoinedParts(y, m, d);
      assert DateText(t) == y + "-" + m + "-" + d;
    }
  }

  /** A `DD-MM-YYYY` date is reordered into the `YYYY-MM-DD` form, keeping its year, month and day. */
  lemma ReorderedIsDay(d: string)
    requires DmyShape(d)
    ensures DayShape(Reordered(d))
    ensures Reordered(d)[..4] == d[6..] && Reordered(d)[5..7] == d[3..5] && Reordered(d)[8..] == d[..2]
  {
    DayShapeOfParts(d[6..], d[3..5], d[..2]);
  }

  /**
   * Normalising gives either a `YYYY-MM-DD` date or the input itself, so
   * normalising twice changes nothing, provided the parser reads four-digit
   * years.
   */
  lemma NormalizeIdempotent(d: string, parse: string -> Option<LocalDate>)
    requires parse(d).Some? ==> FourDigitYear(parse(d).value)
    ensures var r := NormalizeDateOnly(d, parse); DayShape(r) || r == d
    ensures NormalizeDateOnly(NormalizeDateOnly(d, parse), parse) == NormalizeDateOnly(d, parse)
  {
    if d != "" && !DayShape(d) {
      if parse(d).Some? {
        DateTextIsDay(parse(d).value);
      } else if DmyShape(d) {
        ReorderedIsDay(d);
      }
    }
  }

  /**
   * `stripApiPrefix`: a string starting with the API base loses the base and
   * at most one `/` after it; anything else comes back as it is.
   */
  function StripApiPrefix(u: string, api: string): (r: string)
    ensures u == "" || api == "" || !StartsWith(u, api) ==> r == u
    ensures |r| <= |u| && r == u[|u| - |r|..]
  {
    if u == "" || api == "" || !StartsWith(u, api) then u
    else
      var rest := u[|api|..];
      if StartsWith(rest, "/") then rest[1..] else rest
  }

  /** The URL the panel builds for a path it receives: `${API}/${p}`. */
  function AbsoluteUrl(api: string, p: string): string {
    api + "/" + p
  }

  /** `(ed.pages || []).map((p) => `${API}/${p}`)` */
  function ServerUrls(api: string, ps: seq<string>): (us: seq<string>)
    ensures |us| == |ps|
  {
    seq(|ps|, i requires 0 <= i < |ps| => AbsoluteUrl(api, ps[i]))
  }

  /** With the API base set, stripping undoes building the URL, whatever the path. */
  lemma StripAbsoluteUrl(api: string, p: string)
    requires api != ""
    ensures StripApiPrefix(AbsoluteUrl(api, p), api) == p
  {
    var u := AbsoluteUrl(api, p);
    assert u[..|api|] == api;
    assert u[|api|..] == "/" + p;
    assert ("/" + p)[..1] == "/";
  }

  /** With no API base nothing is stripped: `/` and the path come back. */
  lemma StripWithoutBase(p: string)
    ensures StripApiPrefix(AbsoluteUrl("", p), "") == "/" + p
  {
  }

  /** A file picked in the browser, or `null`. */
  datatype LocalFile = NoFile | Picked(name: string)

  /** An entry of `form.pages`, or `form.pdf`: `{ url, file, existing, removed }`. */
  datatype Entry = Entry(url: string, file: LocalFile, existing: bool, removed: bool)

  /** The state of the insert and update form. */
  datatype Form = Form(id: Option<string>, date: string, title: string, pages: seq<Entry>,
                       pdf: Option<Entry>, special: bool)

  const BlankForm := Form(None, "", "", [], None, false)

  /** An edition as the panel lists it: page and PDF URLs are absolute. */
  datatype ClientEdition = ClientEdition(id: Option<string>, date: string, title: string,
                                         pages: seq<string>, pdf: Option<string>, special: bool)

  /**
   * The mapping of `fetchEditions` for one edition sent by the server: `id`
   * is its `_id` and `dateText` its date as the JSON carries it.
   */
  function FromServer(id: string, dateText: string, v: Edition, api: string,
                      parse: string -> Option<LocalDate>): (c: ClientEdition)
    ensures c.id == Some(id) && c.title == v.title && c.special == v.isSpecialEdition
    ensures c.date == NormalizeDateOnly(dateText, parse)
    ensures c.pages == ServerUrls(api, v.pages)
    ensures forall i :: 0 <= i < |v.pages| ==> StripApiPrefix(c.pages[i], api) == v.pages[i] || api == ""
    ensures (c.pdf.Some? <==> v.pdfFile != "") && (c.pdf.Some? ==> c.pdf.value == AbsoluteUrl(api, v.pdfFile))
  {
    assert api != "" ==> forall i :: 0 <= i < |v.pages| ==> StripApiPrefix(AbsoluteUrl(api, v.pages[i]), api) == v.pages[i] by {
      if api != "" {
        forall i | 0 <= i < |v.pages| ensures StripApiPrefix(AbsoluteUrl(api, v.pages[i]), api) == v.pages[i] {
          StripAbsoluteUrl(api, v.pages[i]);
        }
      }
    }
    ClientEdition(Some(id), NormalizeDateOnly(dateText, parse), v.title,
      ServerUrls(api, v.pages),
      if v.pdfFile != "" then Some(AbsoluteUrl(api, v.pdfFile)) else None,
      v.isSpecialEdition)
  }

  /** The entry is an existing page that is kept. */
  predicate Kept(p: Entry) {
    p.existing && !p.removed
  }

  /** The entry is an existing page marked for deletion. */
  predicate Dropped(p: Entry) {
    p.existing && p.removed
  }

  predicate IsExisting(p: Entry) {
    p.existing
  }

  /** The entry holds a file. */
  predicate HasFile(p: Entry) {
    p.file.Picked?
  }

  /** The entry is a new page holding a file. */
  predicate Uploaded(p: Entry) {
    !p.existing && p.file.Picked?
  }

  function FileOf(p: Entry): LocalFile {
    p.file
  }

  /** `(p) => stripApiPrefix(p.url)` */
  function StrippedUrl(api: string): Entry -> string {
    (p: Entry) => StripApiPrefix(p.url, api)
  }

  /** `existingPagesToKeep` */
  function KeepList(pages: seq<Entry>, api: string): seq<string> {
    Select(pages, Kept, StrippedUrl(api))
  }

  /** `existingPagesToDelete` */
  function DeleteList(pages: seq<Entry>, api: string): seq<string> {
    Select(pages, Dropped, StrippedUrl(api))
  }

  /** The files of the new pages an update sends, in page order. */
  function NewPageFiles(pages: seq<Entry>): seq<LocalFile> {
    Select(pages, Uploaded, FileOf)
  }

  /** `form.special ? "true" : "false"` */
  function SpecialText(b: bool): string {
    if b then "true" else "false"
  }

  /** The server reads the flag the form sends back as the form's flag. */
  lemma SpecialRoundTrip(b: bool)
    ensures SpecialValue(Text(SpecialText(b))) == b
  {
  }

  /** The fields of the `FormData` an insert posts. */
  datatype NewRequest = NewRequest(title: string, date: string, special: string, files: seq<LocalFile>)

  /** The fields of the `FormData` an update sends. */
  datatype UpdateRequest = UpdateRequest(
    title: string, date: string, special: string,
    existingPages: seq<string>, deletedPages: seq<string>, files: seq<LocalFile>,
    removePdf: bool, deletedPdf: Option<string>)

  /** What a submit leads to: an alert and no request, a `POST /new`, or a `PUT /:id`. */
  datatype Submission = Refused(alert: string) | Post(request: NewRequest) | Put(id: string, update: UpdateRequest)

  /** `handleInsert` up to the request: a date and a picked PDF are required. */
  function InsertSubmission(f: Form): (s: Submission)
    ensures s.Refused? <==> f.date == "" || f.pdf.None? || f.pdf.value.file.NoFile?
    ensures !s.Put?
  {
    if f.date == "" then Refused("Please select a date.")
    else if f.pdf.None? || f.pdf.value.file.NoFile? then Refused("A PDF file is required.")
    else Post(NewRequest(f.title, f.date, SpecialText(f.special), [f.pdf.value.file] + Select(f.pages, HasFile, FileOf)))
  }

  /** The PDF of an update is removed: it is an existing PDF marked removed. */
  predicate RemovesPdf(f: Form) {
    f.pdf.Some? && f.pdf.value.existing && f.pdf.value.removed
  }

  /** The PDF of an update is uploaded: it is a new PDF holding a file. */
  predicate UploadsPdf(f: Form) {
    f.pdf.Some? && !f.pdf.value.existing && f.pdf.value.file.Picked?
  }

  /** `handleUpdate` up to the request; a form without an id is inserted instead. */
  function UpdateSubmission(f: Form, api: string): Submission {
    if f.date == "" then Refused("Select date to update.")
    else if !Truthy(f.id) then InsertSubmission(f)
    else
      Put(f.id.value, UpdateRequest(
        f.title, f.date, SpecialText(f.special),
        KeepList(f.pages, api), DeleteList(f.pages, api),
        NewPageFiles(f.pages) + (if UploadsPdf(f) then [f.pdf.value.file] else []),
        RemovesPdf(f), if RemovesPdf(f) then Some(StripApiPrefix(f.pdf.value.url, api)) else None))
  }

  /** An insert sends the PDF first and then the file of every page that has one; every file sent is a picked file. */
  lemma InsertFiles(f: Form)
    requires InsertSubmission(f).Post?
    ensures var files := InsertSubmission(f).request.files;
      files[0] == f.pdf.value.file
      && (forall k :: 0 <= k < |files| ==> files[k].Picked?)
      && (forall i :: 0 <= i < |f.pages| && f.pages[i].file.Picked? ==> f.pages[i].file in files[1..])
  {
    var files := InsertSubmission(f).request.files;
    SelectMembers(f.pages, HasFile, FileOf);
    assert files[1..] == Select(f.pages, HasFile, FileOf);
  }

  /** The answers of an update: no date refuses, no id inserts, otherwise the request goes to that id. */
  lemma UpdateOutcomes(f: Form, api: string)
    ensures f.date == "" ==> UpdateSubmission(f, api) == Refused("Select date to update.")
    ensures f.date != "" && !Truthy(f.id) ==> UpdateSubmission(f, api) == InsertSubmission(f)
    ensures f.date != "" && Truthy(f.id) ==> UpdateSubmission(f, api).Put? && UpdateSubmission(f, api).id == f.id.value
  {
  }

  /** Every existing page goes into exactly one of the keep and delete lists, each in page order. */
  lemma {:induction false} SplitCovers(pages: seq<Entry>, api: string)
    ensures |KeepList(pages, api)| + |DeleteList(pages, api)| == |Select(pages, IsExisting, StrippedUrl(api))|
    decreases |pages|
  {
    if pages != [] {
      SplitCovers(pages[..|pages| - 1], api);
    }
  }

  /**
   * The keep list holds the stripped URLs of exactly the kept pages, the
   * delete list those of exactly the removed ones, and only new pages send
   * files.
   */
  lemma SplitMembers(pages: seq<Entry>, api: string)
    ensures forall u :: u in KeepList(pages, api) <==>
      exists i :: 0 <= i < |pages| && Kept(pages[i]) && u == StripApiPrefix(pages[i].url, api)
    ensures forall u :: u in DeleteList(pages, api) <==>
      exists i :: 0 <= i < |pages| && Dropped(pages[i]) && u == StripApiPrefix(pages[i].url, api)
    ensures forall file :: file in NewPageFiles(pages) ==>
      exists i :: 0 <= i < |pages| && Uploaded(pages[i]) && file == pages[i].file
  {
    StrippedMembers(pages, Kept, api);
    StrippedMembers(pages, Dropped, api);
    SelectMembers(pages, Uploaded, FileOf);
  }

  /** The stripped URLs of the pages `keep` selects are those of exactly these pages. */
  lemma StrippedMembers(pages: seq<Entry>, keep: Entry -> bool, api: string)
    ensures forall u :: u in Select(pages, keep, StrippedUrl(api)) ==>
      exists i :: 0 <= i < |pages| && keep(pages[i]) && u == StripApiPrefix(pages[i].url, api)
    ensures forall i :: 0 <= i < |pages| && keep(pages[i]) ==>
      StripApiPrefix(pages[i].url, api) in Select(pages, keep, StrippedUrl(api))
  {
    forall u | u in Select(pages, keep, StrippedUrl(api))
      ensures exists i :: 0 <= i < |pages| && keep(pages[i]) && u == StripApiPrefix(pages[i].url, api)
    {
      var k :| 0 <= k < |Select(pages, keep, StrippedUrl(api))| && Select(pages, keep, StrippedUrl(api))[k] == u;
      StrippedSource(pages, keep, api, k);
    }
    SelectMembers(pages, keep, StrippedUrl(api));
    forall i | 0 <= i < |pages| && keep(pages[i])
      ensures StripApiPrefix(pages[i].url, api) in Select(pages, keep, StrippedUrl(api))
    {
      assert StrippedUrl(api)(pages[i]) in Select(pages, keep, StrippedUrl(api));
    }
  }

  /** The `k`-th selected URL is the stripped URL of a selected page. */
  lemma StrippedSource(pages: seq<Entry>, keep: Entry -> bool, api: string, k: nat)
    requires k < |Select(pages, keep, StrippedUrl(api))|
    ensures exists i :: 0 <= i < |pages| && keep(pages[i]) && Select(pages, keep, StrippedUrl(api))[k] == StripApiPrefix(pages[i].url, api)
  {
    SelectMembers(pages, keep, StrippedUrl(api));
    var i :| 0 <= i < |pages| && keep(pages[i]) && Select(pages, keep, StrippedUrl(api))[k] == StrippedUrl(api)(pages[i]);
    assert Select(pages, keep, StrippedUrl(api))[k] == StripApiPrefix(pages[i].url, api);
  }

  /**
   * The PDF part of an update: an existing PDF marked removed is reported
   * for deletion, a new PDF with a file is sent after the page files, and
   * otherwise nothing about the PDF is sent.
   */
  lemma UpdatePdfPart(f: Form, api: string)
    requires f.date != "" && Truthy(f.id)
    ensures var u := UpdateSubmission(f, api).update;
      (u.removePdf <==> RemovesPdf(f))
      && (RemovesPdf(f) ==> u.deletedPdf == Some(StripApiPrefix(f.pdf.value.url, api)) && u.files == NewPageFiles(f.pages))
      && (UploadsPdf(f) ==> u.deletedPdf.None? && u.files == NewPageFiles(f.pages) + [f.pdf.value.file])
      && (!RemovesPdf(f) && !UploadsPdf(f) ==> u.deletedPdf.None? && u.files == NewPageFiles(f.pages))
  {
    if !UploadsPdf(f) {
      assert NewPageFiles(f.pages) + [] == NewPageFiles(f.pages);
    }
  }

  /** The pages with the `removed` flag of entry `index` flipped; an index outside the list flips nothing. */
  function ToggledAt(ps: seq<Entry>, index: int): (qs: seq<Entry>)
    ensures |qs| == |ps|
  {
    seq(|ps|, j requires 0 <= j < |ps| => if j == index then ps[j].(removed := !ps[j].removed) else ps[j])
  }

  /** Flipping the same entry twice restores the pages; flipping out of range changes nothing. */
  lemma ToggleTwice(ps: seq<Entry>, index: int)
    ensures ToggledAt(ToggledAt(ps, index), index) == ps
    ensures !(0 <= index < |ps|) ==> ToggledAt(ps, index) == ps
  {
  }

  /**
   * Flipping an existing page moves its URL between the keep and the delete
   * list, at its place among the existing pages; the files sent stay the same.
   */
  lemma ToggleMovesPage(ps: seq<Entry>, i: nat, api: string)
    requires i < |ps| && ps[i].existing
    ensures var qs, u := ToggledAt(ps, i), StripApiPrefix(ps[i].url, api);
      var pre, post := ps[..i], ps[i + 1..];
      KeepList(qs, api) == KeepList(pre, api) + (if ps[i].removed then [u] else []) + KeepList(post, api)
      && DeleteList(qs, api) == DeleteList(pre, api) + (if ps[i].removed then [] else [u]) + DeleteList(post, api)
      && KeepList(ps, api) == KeepList(pre, api) + (if ps[i].removed then [] else [u]) + KeepList(post, api)
      && DeleteList(ps, api) == DeleteList(pre, api) + (if ps[i].removed then [u] else []) + DeleteList(post, api)
      && NewPageFiles(qs) == NewPageFiles(ps)
  {
    var x := ps[i].(removed := !ps[i].removed);
    assert ToggledAt(ps, i) == ps[i := x];
    SelectReplace(ps, i, x, Kept, StrippedUrl(api));
    SelectReplace(ps, i, x, Dropped, StrippedUrl(api));
    SelectReplace(ps, i, x, Uploaded, FileOf);
    SelectAround(ps, i, Kept, StrippedUrl(api));
    SelectAround(ps, i, Dropped, StrippedUrl(api));
    SelectAround(ps, i, Uploaded, FileOf);
  }

  /** The entries for newly picked files: new, not removed, each holding its file and its object URL. */
  function NewEntries(files: seq<LocalFile>, objectUrl: LocalFile -> string): (es: seq<Entry>)
    ensures |es| == |files|
  {
    seq(|files|, i requires 0 <= i < |files| => Entry(objectUrl(files[i]), files[i], false, false))
  }

  /** Appending new pages leaves the keep and delete lists alone and sends the picked files after the others. */
  lemma NewPagesAppended(ps: seq<Entry>, files: seq<LocalFile>, objectUrl: LocalFile -> string, api: string)
    requires forall k :: 0 <= k < |files| ==> files[k].Picked?
    ensures var qs := ps + NewEntries(files, objectUrl);
      KeepList(qs, api) == KeepList(ps, api) && DeleteList(qs, api) == DeleteList(ps, api)
      && NewPageFiles(qs) == NewPageFiles(ps) + files
  {
    var es := NewEntries(files, objectUrl);
    SelectAppend(ps, es, Kept, StrippedUrl(api));
    SelectAppend(ps, es, Dropped, StrippedUrl(api));
    SelectAppend(ps, es, Uploaded, FileOf);
    SelectEmpty(es, Kept, StrippedUrl(api));
    SelectEmpty(es, Dropped, StrippedUrl(api));
    NewEntriesSent(files, objectUrl);
  }

  /** The new entries made from picked files send exactly these files. */
  lemma NewEntriesSent(files: seq<LocalFile>, objectUrl: LocalFile -> string)
    requires forall k :: 0 <= k < |files| ==> files[k].Picked?
    ensures NewPageFiles(NewEntries(files, objectUrl)) == files
  {
    var es := NewEntries(files, objectUrl);
    SelectAll(es, Uploaded, FileOf);
  }

  /** `removeNewPageAt`: an existing page is marked removed, a new page is spliced out. */
  function RemovedAt(ps: seq<Entry>, index: nat): (qs: seq<Entry>)
    requires index < |ps|
    ensures |qs| == if ps[index].existing then |ps| else |ps| - 1
  {
    if ps[index].existing then ps[index := ps[index].(removed := true)] else Without(ps, index)
  }

  /**
   * Removing a new page splices it out: the keep and delete lists stay as
   * they are, only its file is no longer sent, and the other entries keep
   * their order.
   */
  lemma RemoveNewPage(ps: seq<Entry>, i: nat, api: string)
    requires i < |ps| && !ps[i].existing
    ensures var qs, pre, post := RemovedAt(ps, i), ps[..i], ps[i + 1..];
      qs == pre + post
      && KeepList(qs, api) == KeepList(ps, api) && DeleteList(qs, api) == DeleteList(ps, api)
      && NewPageFiles(qs) == NewPageFiles(pre) + NewPageFiles(post)
  {
    assert RemovedAt(ps, i) == Without(ps, i);
    SelectWithout(ps, i, Kept, StrippedUrl(api));
    SelectWithout(ps, i, Dropped, StrippedUrl(api));
    SelectWithout(ps, i, Uploaded, FileOf);
    SelectAroundSkipped(ps, i, Kept, StrippedUrl(api));
    SelectAroundSkipped(ps, i, Dropped, StrippedUrl(api));
  }

  /**
   * Removing an existing page keeps it in place, marked removed: it leaves
   * the keep list and is sent for deletion at its place, and no file changes.
   */
  lemma RemoveExistingPage(ps: seq<Entry>, i: nat, api: string)
    requires i < |ps| && ps[i].existing
    ensures var qs, pre, post := RemovedAt(ps, i), ps[..i], ps[i + 1..];
      qs[..i] == pre && qs[i + 1..] == post
      && KeepList(qs, api) == KeepList(pre, api) + KeepList(post, api)
      && DeleteList(qs, api) == DeleteList(pre, api) + [StripApiPrefix(ps[i].url, api)] + DeleteList(post, api)
      && NewPageFiles(qs) == NewPageFiles(ps)
  {
    var x := ps[i].(removed := true);
    assert RemovedAt(ps, i) == ps[i := x];
    assert ps[i := x][..i] == ps[..i] && ps[i := x][i + 1..] == ps[i + 1..];
    DroppedInPlace(ps, i, x, api);
  }

  /** Putting a removed existing page in place of an existing one moves it from the keep list to the delete list. */
  lemma DroppedInPlace(ps: seq<Entry>, i: nat, x: Entry, api: string)
    requires i < |ps| && ps[i].existing && Dropped(x)
    ensures KeepList(ps[i := x], api) == KeepList(ps[..i], api) + KeepList(ps[i + 1..], api)
    ensures DeleteList(ps[i := x], api) == DeleteList(ps[..i], api) + [StripApiPrefix(x.url, api)] + DeleteList(ps[i + 1..], api)
    ensures NewPageFiles(ps[i := x]) == NewPageFiles(ps)
  {
    SelectReplaceSkipped(ps, i, x, Kept, StrippedUrl(api));
    SelectReplaceTaken(ps, i, x, Dropped, StrippedUrl(api));
    UploadsUnchanged(ps, i, x);
  }

  /** Replacing an existing page by another existing page sends the same files. */
  lemma UploadsUnchanged(ps: seq<Entry>, i: nat, x: Entry)
    requires i < |ps| && ps[i].existing && x.existing
    ensures NewPageFiles(ps[i := x]) == NewPageFiles(ps)
  {
    SelectReplaceSkipped(ps, i, x, Uploaded, FileOf);
    SelectAroundSkipped(ps, i, Uploaded, FileOf);
  }

  /**
   * `handlePageChange`: the entry at `index` becomes a new page holding
   * `file`; an index one past the end appends it.
   */
  function ChangedAt(ps: seq<Entry>, index: nat, file: LocalFile, objectUrl: LocalFile -> string): (qs: seq<Entry>)
    requires index <= |ps|
    ensures |qs| == if index < |ps| then |ps| else |ps| + 1
  {
    var e := Entry(objectUrl(file), file, false, false);
    if index < |ps| then ps[index := e] else ps + [e]
  }

  /**
   * Replacing an existing page's file takes that page out of both the keep
   * and the delete list; the picked file is sent at the entry's place among
   * the new pages.
   */
  lemma ChangeEffect(ps: seq<Entry>, i: nat, file: LocalFile, objectUrl: LocalFile -> string, api: string)
    requires i < |ps| && file.Picked?
    ensures var qs, pre, post := ChangedAt(ps, i, file, objectUrl), ps[..i], ps[i + 1..];
      KeepList(qs, api) == KeepList(pre, api) + KeepList(post, api)
      && DeleteList(qs, api) == DeleteList(pre, api) + DeleteList(post, api)
      && NewPageFiles(qs) == NewPageFiles(pre) + [file] + NewPageFiles(post)
  {
    var e := Entry(objectUrl(file), file, false, false);
    assert ChangedAt(ps, i, file, objectUrl) == ps[i := e];
    SelectReplaceSkipped(ps, i, e, Kept, StrippedUrl(api));
    SelectReplaceSkipped(ps, i, e, Dropped, StrippedUrl(api));
    SelectReplaceTaken(ps, i, e, Uploaded, FileOf);
  }

  /** The entries `handleSelectDateForUpdate` makes from an edition's page URLs. */
  function ExistingEntries(urls: seq<string>): (es: seq<Entry>)
    ensures |es| == |urls|
  {
    seq(|urls|, i requires 0 <= i < |urls| => Entry(urls[i], NoFile, true, false))
  }

  /** `(ed) => normalizeDateOnly(ed.date) === normalized` */
  function SameDay(normalized: string, parse: string -> Option<LocalDate>): ClientEdition -> bool {
    (ed: ClientEdition) => NormalizeDateOnly(ed.date, parse) == normalized
  }

  /**
   * `handleSelectDateForUpdate`: the first listed edition whose date
   * normalises to the chosen one fills the form; otherwise the form is
   * blank but for the date.
   */
  function Prefill(editions: seq<ClientEdition>, dateValue: string, parse: string -> Option<LocalDate>): (f: Form)
    ensures f.date == NormalizeDateOnly(dateValue, parse)
    ensures var k := FirstWhere(editions, SameDay(NormalizeDateOnly(dateValue, parse), parse));
      k < |editions| ==>
        var ed := editions[k];
        (f.id.Some? <==> Truthy(ed.id)) && (f.id.Some? ==> f.id == ed.id)
        && f.title == ed.title && f.special == ed.special
        && (f.pdf.Some? <==> Truthy(ed.pdf))
        && (f.pdf.Some? ==> f.pdf.value == Entry(ed.pdf.value, NoFile, true, false))
    ensures FirstWhere(editions, SameDay(NormalizeDateOnly(dateValue, parse), parse)) == |editions| ==>
      f == Form(None, NormalizeDateOnly(dateValue, parse), "", [], None, false)
  {
    var normalized := NormalizeDateOnly(dateValue, parse);
    var k := FirstWhere(editions, SameDay(normalized, parse));
    if k < |editions| then
      var ed := editions[k];
      Form(if Truthy(ed.id) then ed.id else None, normalized, ed.title, ExistingEntries(ed.pages),
           if Truthy(ed.pdf) then Some(Entry(ed.pdf.value, NoFile, true, false)) else None, ed.special)
    else Form(None, normalized, "", [], None, false)
  }

  /**
   * A prefilled form lists every page of the first edition of that day, in
   * order, as existing and kept; without such an edition it has no pages,
   * no PDF and no id.
   */
  lemma PrefillPages(editions: seq<ClientEdition>, dateValue: string, parse: string -> Option<LocalDate>)
    ensures var f, normalized := Prefill(editions, dateValue, parse), NormalizeDateOnly(dateValue, parse);
      var k := FirstWhere(editions, SameDay(normalized, parse));
      (k < |editions| ==>
         NormalizeDateOnly(editions[k].date, parse) == normalized
         && f.pages == ExistingEntries(editions[k].pages)
         && (forall i :: 0 <= i < |f.pages| ==> f.pages[i].url == editions[k].pages[i] && Kept(f.pages[i]))
         && (f.pdf.Some? ==> f.pdf.value.existing && !f.pdf.value.removed))
      && (k == |editions| ==> f.pages == [] && f.pdf.None? && f.id.None?)
  {
  }

  /**
   * The pages of an edition listed from the server, selected and left
   * untouched, are all kept, under their server paths and in order; none
   * is deleted and no file is sent.
   */
  lemma ListedPagesKept(ps: seq<string>, api: string)
    requires api != ""
    ensures var es := ExistingEntries(ServerUrls(api, ps));
      KeepList(es, api) == ps && DeleteList(es, api) == [] && NewPageFiles(es) == []
  {
    var es := ExistingEntries(ServerUrls(api, ps));
    SelectAll(es, Kept, StrippedUrl(api));
    SelectEmpty(es, Dropped, StrippedUrl(api));
    SelectEmpty(es, Uploaded, FileOf);
    forall i | 0 <= i < |ps| ensures KeepList(es, api)[i] == ps[i] {
      StripAbsoluteUrl(api, ps[i]);
    }
  }

  /**
   * An update of a form holding the listed pages of `v` and no PDF change
   * sends `v`'s pages back as the pages to keep, and nothing else about
   * pages or the PDF.
   */
  lemma UntouchedUpdate(f: Form, v: Edition, api: string)
    requires api != "" && f.date != "" && Truthy(f.id)
    requires f.pages == ExistingEntries(ServerUrls(api, v.pages))
    requires f.pdf.None? || (f.pdf.value.existing && !f.pdf.value.removed)
    ensures UpdateSubmission(f, api)
      == Put(f.id.value, UpdateRequest(f.title, f.date, SpecialText(f.special), v.pages, [], [], false, None))
  {
    ListedPagesKept(v.pages, api);
  }

  /** `(ed) => ed.date !== date` */
  function OtherDay(date: string): ClientEdition -> bool {
    (ed: ClientEdition) => ed.date != date
  }

  function Itself(ed: ClientEdition): ClientEdition {
    ed
  }

  /** `prev.filter((ed) => ed.date !== date)` */
  function OtherDates(editions: seq<ClientEdition>, date: string): seq<ClientEdition> {
    Select(editions, OtherDay(date), Itself)
  }

  /**
   * The local delete removes every listed edition of that date and keeps
   * all the others, in order.
   */
  lemma OtherDatesSpec(editions: seq<ClientEdition>, date: string)
    ensures forall k :: 0 <= k < |OtherDates(editions, date)| ==> OtherDates(editions, date)[k].date != date
    ensures forall i :: 0 <= i < |editions| && editions[i].date != date ==> editions[i] in OtherDates(editions, date)
    ensures (exists i :: 0 <= i < |editions| && editions[i].date == date) ==> |OtherDates(editions, date)| < |editions|
  {
    SelectMembers(editions, OtherDay(date), Itself);
    if exists i :: 0 <= i < |editions| && editions[i].date == date {
      var i :| 0 <= i < |editions| && editions[i].date == date;
      SelectAround(editions, i, OtherDay(date), Itself);
    }
  }

  /** What `handleDeleteEdition` ends with; `serverId` is the id a `DELETE` request is sent for. */
  datatype DeleteOutcome = NotListed | Cancelled | RemovedLocally(serverId: Option<string>)

  /**
   * `fetchEditions` has filled `editions`; `form` is the form of the insert
   * and update tabs.
   */
  class Panel {
    var editions: seq<ClientEdition>
    var form: Form

    constructor ()
      ensures editions == [] && form == BlankForm
    {
      editions := [];
      form := BlankForm;
    }

    /** `markExistingPageRemoved` */
    method MarkExistingPageRemoved(index: int)
      modifies this
      ensures editions == old(editions)
      ensures form == old(form).(pages := ToggledAt(old(form.pages), index))
    {
      var updated := form.pages;
      if !(0 <= index < |updated|) {
        return;
      }
      updated := updated[index := updated[index].(removed := !updated[index].removed)];
      form := form.(pages := updated);
    }

    /** `handleNewPagesSelected`; `objectUrl` stands for `URL.createObjectURL`. */
    method AddNewPages(files: seq<LocalFile>, objectUrl: LocalFile -> string)
      modifies this
      ensures editions == old(editions)
      ensures form == old(form).(pages := old(form.pages) + NewEntries(files, objectUrl))
    {
      var filesArr := NewEntries(files, objectUrl);
      form := form.(pages := form.pages + filesArr);
    }

    /** `removeNewPageAt`; the index must name an entry, as `p.existing` is read from it. */
    method RemoveNewPageAt(index: nat)
      requires index < |form.pages|
      modifies this
      ensures editions == old(editions)
      ensures form == old(form).(pages := RemovedAt(old(form.pages), index))
    {
      var updated := form.pages;
      var p := updated[index];
      if p.existing {
        updated := updated[index := p.(removed := true)];
      } else {
        updated := updated[..index] + updated[index + 1..];
      }
      form := form.(pages := updated);
    }

    /** `handlePageChange` */
    method ChangePage(index: nat, file: LocalFile, objectUrl: LocalFile -> string)
      requires index <= |form.pages| && file.Picked?
      modifies this
      ensures editions == old(editions)
      ensures form == old(form).(pages := ChangedAt(old(form.pages), index, file, objectUrl))
    {
      var updated := form.pages;
      var e := Entry(objectUrl(file), file, false, false);
      if index < |updated| {
        updated := updated[index := e];
      } else {
        updated := updated + [e];
      }
      form := form.(pages := updated);
    }

    /** `markPdfRemoved`: without a PDF nothing happens. */
    method MarkPdfRemoved()
      modifies this
      ensures editions == old(editions)
      ensures old(form.pdf).None? ==> form == old(form)
      ensures old(form.pdf).Some? ==>
        form == old(form).(pdf := Some(old(form.pdf).value.(removed := !old(form.pdf).value.removed)))
    {
      if form.pdf.None? {
        return;
      }
      form := form.(pdf := Some(form.pdf.value.(removed := !form.pdf.value.removed)));
    }

    /** `handlePdfChange` */
    method ChangePdf(file: LocalFile, objectUrl: LocalFile -> string)
      requires file.Picked?
      modifies this
      ensures editions == old(editions)
      ensures form == old(form).(pdf := Some(Entry(objectUrl(file), file, false, false)))
    {
      form := form.(pdf := Some(Entry(objectUrl(file), file, false, false)));
    }

    /** `handleSelectDateForUpdate` */
    method SelectDateForUpdate(dateValue: string, parse: string -> Option<LocalDate>)
      modifies this
      ensures editions == old(editions)
      ensures form == Prefill(old(editions), dateValue, parse)
    {
      form := Prefill(editions, dateValue, parse);
    }

    /** `handleInsert` up to the request it posts. */
    method SubmitInsert() returns (s: Submission)
      ensures s == InsertSubmission(form)
    {
      if form.date == "" {
        return Refused("Please select a date.");
      }
      if form.pdf.None? || form.pdf.value.file.NoFile? {
        return Refused("A PDF file is required.");
      }
      var files := [form.pdf.value.file];
      files := AppendFiles(files, form.pages, HasFile);
      s := Post(NewRequest(form.title, form.date, SpecialText(form.special), files));
    }

    /** `handleUpdate` up to the request it sends. */
    method SubmitUpdate(api: string) returns (s: Submission)
      ensures s == UpdateSubmission(form, api)
    {
      if form.date == "" {
        return Refused("Select date to update.");
      }
      if !Truthy(form.id) {
        s := SubmitInsert();
        return;
      }
      var keep := KeepList(form.pages, api);
      var drop := DeleteList(form.pages, api);
      var files := AppendFiles([], form.pages, Uploaded);
      assert files == NewPageFiles(form.pages);
      var removePdf := false;
      var deletedPdf: Option<string> := None;
      if form.pdf.Some? {
        if form.pdf.value.existing && form.pdf.value.removed {
          removePdf := true;
          deletedPdf := Some(StripApiPrefix(form.pdf.value.url, api));
        } else if !form.pdf.value.existing && form.pdf.value.file.Picked? {
          files := files + [form.pdf.value.file];
        }
      }
      assert removePdf == RemovesPdf(form);
      assert files == NewPageFiles(form.pages) + (if UploadsPdf(form) then [form.pdf.value.file] else []);
      s := Put(form.id.value, UpdateRequest(form.title, form.date, SpecialText(form.special),
                                            keep, drop, files, removePdf, deletedPdf));
    }

    /**
     * `handleDeleteEdition`: `confirmed` stands for the answer to
     * `window.confirm`. Every listed edition of that date goes, but only the
     * first one's id is sent to the server.
     */
    method DeleteEdition(date: string, confirmed: bool) returns (r: DeleteOutcome)
      modifies this
      ensures form == old(form)
      ensures var k := FirstWhere(old(editions), (ed: ClientEdition) => ed.date == date);
        (k == |old(editions)| ==> r == NotListed && editions == old(editions))
        && (k < |old(editions)| && !confirmed ==> r == Cancelled && editions == old(editions))
        && (k < |old(editions)| && confirmed ==>
              editions == OtherDates(old(editions), date)
              && r == RemovedLocally(if Truthy(old(editions)[k].id) then old(editions)[k].id else None))
    {
      var k := FirstWhere(editions, (ed: ClientEdition) => ed.date == date);
      if k == |editions| {
        return NotListed;
      }
      if !confirmed {
        return Cancelled;
      }
      var edition := editions[k];
      editions := OtherDates(editions, date);
      r := RemovedLocally(if Truthy(edition.id) then edition.id else None);
    }
  }

  /** `form.pages.forEach((p) => { if (sends(p)) formData.append("files", p.file); })` */
  method AppendFiles(files0: seq<LocalFile>, pages: seq<Entry>, sends: Entry -> bool) returns (files: seq<LocalFile>)
    ensures files == files0 + Select(pages, sends, FileOf)
  {
    files := files0;
    for i := 0 to |pages|
      invariant files == files0 + Select(pages[..i], sends, FileOf)
    {
      SelectStep(pages, i, sends, FileOf);
      if sends(pages[i]) {
        files := files + [pages[i].file];
      }
    }
    assert pages[..|pages|] == pages;
  }
}
