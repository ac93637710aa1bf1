/**
 * The edition store behind the media endpoints: the records (the database
 * collection), the files on disk, and the handlers that create, update and
 * delete editions. Every effect on the outside world is appended to a
 * journal, so that the order of unlinks and writes can be stated.
 */
module MediaStore {
  import opened Wrappers
  import opened JsString
  import opened Paths
  import opened EditionRecord
  import opened CreateEdition
  import opened Seqs

  /** The rejections of update and delete. */
  datatype StoreError = NotFound | BadDate

  function StoreMessage(e: StoreError): (m: string)
    ensures m != ""
  {
    match e
    case NotFound => "Edition not found"
    case BadDate => "Invalid date"
  }

  function Status(e: StoreError): (code: int)
    ensures 400 <= code < 500
  {
    match e
    case NotFound => 404
    case BadDate => 400
  }

  /** An effect on the outside world, in the order the handlers cause them. */
  datatype Effect =
    | UnlinkAttempt(key: string)  // the file existed and `unlinkSync` was called on it
    | Saved(id: nat)              // the record was written
    | Removed(id: nat)            // the record was deleted

  /** Index of the first upload with a `.pdf` extension (`files.find`), or `|files|` when there is none. */
  function FirstPdf(files: seq<UploadedFile>): nat {
    FirstWhere(files, IsPdf)
  }

  /**
   * The uploads treated as pages on update: all of them except the object
   * `find` returned. The filter compares objects, so only that one upload
   * is dropped, whatever the others contain.
   */
  function PageUploads(files: seq<UploadedFile>): seq<UploadedFile> {
    Without(files, FirstPdf(files))
  }

  /** The stored keys of `files`, in order (`map` over the inline derivation). */
  function PageKeys(files: seq<UploadedFile>): (ks: seq<string>)
    ensures |ks| == |files|
    ensures forall i :: 0 <= i < |files| ==> ks[i] == StoredKey(files[i])
  {
    seq(|files|, i requires 0 <= i < |files| => PageKeyInline(files[i]))
  }

  /**
   * The request fields of an update applied to `e`: a supplied title
   * overwrites the old one (even when empty), a non-empty date must parse,
   * and a supplied special flag is re-evaluated.
   */
  function UpdatedFields(e: Edition, title: Option<string>, date: Option<string>, special: SpecialFlag,
                         parseDate: string -> Option<int>)
    : (r: Result<Edition, StoreError>)
    ensures r.Failure? <==> Truthy(date) && parseDate(date.value).None?
    ensures r.Failure? ==> r.error == BadDate
    ensures r.Success? ==> r.value.title == (if title.Some? then title.value else e.title)
    ensures r.Success? ==> r.value.date == (if Truthy(date) then parseDate(date.value).value else e.date)
    ensures r.Success? ==> r.value.isSpecialEdition == (if special.Absent? then e.isSpecialEdition else SpecialValue(special))
    ensures r.Success? ==> r.value.pdfFile == e.pdfFile && r.value.pages == e.pages
  {
    if Truthy(date) && parseDate(date.value).None? then Failure(BadDate)
    else
      Success(e.(
        title := if title.Some? then title.value else e.title,
        date := if Truthy(date) then parseDate(date.value).value else e.date,
        isSpecialEdition := if special.Absent? then e.isSpecialEdition else SpecialValue(special)))
  }

  /** The uploads of an update applied to `e`: the first PDF replaces the PDF, every other upload becomes a page. */
  function WithUploads(e: Edition, files: seq<UploadedFile>): (n: Edition)
    ensures (n.title, n.date, n.isSpecialEdition) == (e.title, e.date, e.isSpecialEdition)
  {
    var p := FirstPdf(files);
    var pageFiles := PageKeys(PageUploads(files));
    e.(pdfFile := if p < |files| then PdfKeyInline(files[p]) else e.pdfFile,
       pages := if |pageFiles| > 0 then e.pages + pageFiles else e.pages)
  }

  /** The record `updateMedia` saves for `e`. */
  function UpdatedEdition(e: Edition, title: Option<string>, date: Option<string>, special: SpecialFlag,
                          files: seq<UploadedFile>, parseDate: string -> Option<int>)
    : Result<Edition, StoreError>
  {
    match UpdatedFields(e, title, date, special, parseDate)
    case Failure(err) => Failure(err)
    case Success(e1) => Success(WithUploads(e1, files))
  }

  /**
   * `existing.title = title` and the other field assignments of
   * `updateMedia`, one after the other; an unparseable date stops the
   * handler before anything is saved.
   */
  method AssignFields(existing: Edition, title: Option<string>, date: Option<string>, special: SpecialFlag,
                      parseDate: string -> Option<int>)
    returns (r: Result<Edition, StoreError>)
    ensures r == UpdatedFields(existing, title, date, special, parseDate)
  {
    var e := existing;
    if title.Some? {
      e := e.(title := title.value);
    }
    if Truthy(date) {
      var tmp := parseDate(date.value);
      if tmp.None? {
        return Failure(BadDate);
      }
      e := e.(date := tmp.value);
    }
    if !special.Absent? {
      e := e.(isSpecialEdition := SpecialValue(special));
    }
    r := Success(e);
  }

  /**
   * The PDF after an update: replaced by the key of the first `.pdf` upload
   * when there is one, kept otherwise, and never cleared.
   */
  lemma UpdatePdf(e: Edition, title: Option<string>, date: Option<string>, special: SpecialFlag,
                  files: seq<UploadedFile>, parseDate: string -> Option<int>)
    requires UpdatedEdition(e, title, date, special, files, parseDate).Success?
    ensures var n := UpdatedEdition(e, title, date, special, files, parseDate).value;
      ((forall i :: 0 <= i < |files| ==> !IsPdf(files[i])) ==> n.pdfFile == e.pdfFile)
      && (forall p :: 0 <= p < |files| && IsPdf(files[p]) && (forall i :: 0 <= i < p ==> !IsPdf(files[i]))
            ==> n.pdfFile == StoredKey(files[p]))
      && (e.pdfFile != "" ==> n.pdfFile != "")
  {
    WithUploadsPdf(UpdatedFields(e, title, date, special, parseDate).value, files);
  }

  /** The PDF once the uploads are taken: the first `.pdf` upload's key, or the old PDF. */
  lemma WithUploadsPdf(e: Edition, files: seq<UploadedFile>)
    ensures var n := WithUploads(e, files);
      ((forall i :: 0 <= i < |files| ==> !IsPdf(files[i])) ==> n.pdfFile == e.pdfFile)
      && (forall p :: 0 <= p < |files| && IsPdf(files[p]) && (forall i :: 0 <= i < p ==> !IsPdf(files[i]))
            ==> n.pdfFile == StoredKey(files[p]))
      && (e.pdfFile != "" ==> n.pdfFile != "")
  {
    var q := FirstPdf(files);
    if q < |files| {
      assert StartsWith(StoredKey(files[q]), Root);
    }
    forall p | 0 <= p < |files| && IsPdf(files[p]) && (forall i :: 0 <= i < p ==> !IsPdf(files[i]))
      ensures WithUploads(e, files).pdfFile == StoredKey(files[p])
    {
      FirstWhereUnique(files, IsPdf, p);
    }
  }

  /** The update is the field assignments followed by the uploads; the fields leave the PDF as it was. */
  lemma UpdateInSteps(e: Edition, title: Option<string>, date: Option<string>, special: SpecialFlag,
                      files: seq<UploadedFile>, parseDate: string -> Option<int>)
    requires UpdatedFields(e, title, date, special, parseDate).Success?
    ensures var e1 := UpdatedFields(e, title, date, special, parseDate).value;
      UpdatedEdition(e, title, date, special, files, parseDate) == Success(WithUploads(e1, files))
      && UpdateUnlinks(e1, files) == UpdateUnlinks(e, files)
  {
  }

  /** The pages an update saves: the old pages followed by the keys of the page uploads. */
  lemma UpdatedPagesAppend(e: Edition, title: Option<string>, date: Option<string>, special: SpecialFlag,
                           files: seq<UploadedFile>, parseDate: string -> Option<int>)
    requires UpdatedEdition(e, title, date, special, files, parseDate).Success?
    ensures UpdatedEdition(e, title, date, special, files, parseDate).value.pages
      == e.pages + PageKeys(PageUploads(files))
  {
    if PageKeys(PageUploads(files)) == [] {
      assert e.pages + [] == e.pages;
    }
  }

  /** The keys of the page uploads: the uploads before the first PDF, then those after it, in order. */
  lemma PageKeysOrder(files: seq<UploadedFile>)
    ensures var p, ks := FirstPdf(files), PageKeys(PageUploads(files));
      |ks| == (if p < |files| then |files| - 1 else |files|)
      && (forall i :: 0 <= i < p && i < |files| ==> ks[i] == StoredKey(files[i]))
      && (forall i :: p < i < |files| ==> ks[i - 1] == StoredKey(files[i]))
  {
    WithoutOrder(files, FirstPdf(files));
  }

  /**
   * The pages after an update: the old pages, then the keys of every upload
   * but the first PDF, in upload order; no old page moves or disappears.
   */
  lemma UpdatePages(e: Edition, title: Option<string>, date: Option<string>, special: SpecialFlag,
                    files: seq<UploadedFile>, parseDate: string -> Option<int>)
    requires UpdatedEdition(e, title, date, special, files, parseDate).Success?
    ensures var n := UpdatedEdition(e, title, date, special, files, parseDate).value;
      var p := FirstPdf(files);
      n.pages[..|e.pages|] == e.pages
      && |n.pages| == |e.pages| + (if p < |files| then |files| - 1 else |files|)
      && (forall i :: 0 <= i < p && i < |files| ==> n.pages[|e.pages| + i] == StoredKey(files[i]))
      && (forall i :: p < i < |files| ==> n.pages[|e.pages| + i - 1] == StoredKey(files[i]))
  {
    UpdatedPagesAppend(e, title, date, special, files, parseDate);
    PageKeysOrder(files);
  }

  /** An update of a record holding `uploads/` keys holds `uploads/` keys. */
  lemma UpdateKeepsKeysStored(e: Edition, title: Option<string>, date: Option<string>, special: SpecialFlag,
                              files: seq<UploadedFile>, parseDate: string -> Option<int>)
    requires KeysStored(e)
    requires UpdatedEdition(e, title, date, special, files, parseDate).Success?
    ensures KeysStored(UpdatedEdition(e, title, date, special, files, parseDate).value)
  {
    var n := UpdatedEdition(e, title, date, special, files, parseDate).value;
    UpdatedPagesAppend(e, title, date, special, files, parseDate);
    var ks := PageKeys(PageUploads(files));
    forall i | 0 <= i < |n.pages| ensures StartsWith(n.pages[i], Root) {
      if i >= |e.pages| {
        assert n.pages[i] == ks[i - |e.pages|];
      }
    }
  }

  /**
   * Where create and update differ: a batch with two PDFs is refused by
   * create, while update takes the first as the PDF and appends the second
   * as a page.
   */
  lemma SecondPdfBecomesPage(e: Edition, a: UploadedFile, b: UploadedFile)
    requires IsPdf(a) && IsPdf(b)
    ensures Classify([a, b]) == Failure(TooManyPdfs)
    ensures var n := UpdatedEdition(e, None, None, Absent, [a, b], _ => None);
      n == Success(e.(pdfFile := StoredKey(a), pages := e.pages + [StoredKey(b)]))
  {
    TwoPdfsRefused(a, b);
    assert UpdatedFields(e, None, None, Absent, _ => None) == Success(e);
    TwoPdfsTaken(e, a, b);
  }

  lemma TwoPdfsRefused(a: UploadedFile, b: UploadedFile)
    requires IsPdf(a) && IsPdf(b)
    ensures Classify([a, b]) == Failure(TooManyPdfs)
  {
    var files := [a, b];
    ClassifyFailures(files);
    assert IsPdf(files[0]) && IsPdf(files[1]);
  }

  lemma TwoPdfsTaken(e: Edition, a: UploadedFile, b: UploadedFile)
    requires IsPdf(a)
    ensures WithUploads(e, [a, b]) == e.(pdfFile := StoredKey(a), pages := e.pages + [StoredKey(b)])
  {
    assert FirstPdf([a, b]) == 0;
    assert PageUploads([a, b]) == [b] by {
      assert [a, b][..0] + [a, b][1..] == [b];
    }
    assert PageKeys([b]) == [StoredKey(b)];
  }

  /** The disk after a best-effort unlink: a file that exists goes, unless removing it fails. */
  function AfterUnlink(disk: set<string>, locked: set<string>, key: string): set<string> {
    if key in disk && key !in locked then disk - {key} else disk
  }

  /** The disk after best-effort unlinks of `keys`, in order. */
  function AfterSweep(disk: set<string>, locked: set<string>, keys: seq<string>): set<string> {
    if keys == [] then disk
    else AfterUnlink(AfterSweep(disk, locked, keys[..|keys| - 1]), locked, keys[|keys| - 1])
  }

  /** The unlinks attempted by a sweep: only files that exist when their turn comes. */
  function SweepLog(disk: set<string>, locked: set<string>, keys: seq<string>): seq<Effect> {
    if keys == [] then []
    else
      var init := keys[..|keys| - 1];
      SweepLog(disk, locked, init)
        + (if keys[|keys| - 1] in AfterSweep(disk, locked, init) then [UnlinkAttempt(keys[|keys| - 1])] else [])
  }

  /** Sweeping nothing changes nothing; sweeping one file is one best-effort unlink. */
  lemma SweepShort(disk: set<string>, locked: set<string>, key: string)
    ensures AfterSweep(disk, locked, []) == disk && SweepLog(disk, locked, []) == []
    ensures AfterSweep(disk, locked, [key]) == AfterUnlink(disk, locked, key)
    ensures SweepLog(disk, locked, [key]) == if key in disk then [UnlinkAttempt(key)] else []
  {
    assert [key][..0] == [];
  }

  /** A sweep extended by one key is that sweep followed by one best-effort unlink. */
  lemma SweepStep(disk: set<string>, locked: set<string>, keys: seq<string>, key: string)
    ensures AfterSweep(disk, locked, keys + [key]) == AfterUnlink(AfterSweep(disk, locked, keys), locked, key)
    ensures SweepLog(disk, locked, keys + [key]) == SweepLog(disk, locked, keys)
      + (if key in AfterSweep(disk, locked, keys) then [UnlinkAttempt(key)] else [])
  {
    assert (keys + [key])[..|keys|] == keys;
  }

  /** Sweeping `a + b` is sweeping `a`, then sweeping `b` on what is left. */
  lemma {:induction false} SweepAppend(disk: set<string>, locked: set<string>, a: seq<string>, b: seq<string>)
    ensures AfterSweep(disk, locked, a + b) == AfterSweep(AfterSweep(disk, locked, a), locked, b)
    ensures SweepLog(disk, locked, a + b)
      == SweepLog(disk, locked, a) + SweepLog(AfterSweep(disk, locked, a), locked, b)
    decreases |b|
  {
    if b == [] {
      assert a + b == a;
    } else {
      var init, last := b[..|b| - 1], b[|b| - 1];
      assert b == init + [last];
      assert a + b == (a + init) + [last];
      SweepAppend(disk, locked, a, init);
      SweepStep(disk, locked, a + init, last);
      SweepStep(AfterSweep(disk, locked, a), locked, init, last);
    }
  }

  /** A sweep removes exactly the listed files that can be removed, and nothing else. */
  lemma {:induction false} SweepRemoves(disk: set<string>, locked: set<string>, keys: seq<string>)
    ensures AfterSweep(disk, locked, keys) == disk - (set k | k in keys && k !in locked)
    decreases |keys|
  {
    if keys != [] {
      var init := keys[..|keys| - 1];
      SweepRemoves(disk, locked, init);
      assert forall k :: k in keys <==> k in init || k == keys[|keys| - 1];
    }
  }

  /** A sweep attempts only listed files that were on disk, and attempts every such file that can be removed. */
  lemma {:induction false} SweepAttempts(disk: set<string>, locked: set<string>, keys: seq<string>)
    ensures forall ef :: ef in SweepLog(disk, locked, keys) ==> ef.UnlinkAttempt? && ef.key in keys && ef.key in disk
    ensures forall k :: k in keys && k in disk ==> UnlinkAttempt(k) in SweepLog(disk, locked, keys)
    decreases |keys|
  {
    if keys != [] {
      var init := keys[..|keys| - 1];
      var last := keys[|keys| - 1];
      SweepAttempts(disk, locked, init);
      SweepRemoves(disk, locked, init);
      forall k | k in keys && k in disk ensures UnlinkAttempt(k) in SweepLog(disk, locked, keys) {
        if k !in init {
          assert k == last;
        }
      }
    }
  }

  /** The files a delete sweeps: the PDF (when there is one), then every page. */
  function DocKeys(e: Edition): (ks: seq<string>)
    ensures forall k :: k in ks <==> (k == e.pdfFile && k != "") || k in e.pages
  {
    (if e.pdfFile != "" then [e.pdfFile] else []) + e.pages
  }

  /** The update's unlink of the old PDF: only when a new PDF arrives and an old one is recorded. */
  function UpdateUnlinks(e: Edition, files: seq<UploadedFile>): (ks: seq<string>)
    ensures |ks| <= 1
  {
    if FirstPdf(files) < |files| && e.pdfFile != "" then [e.pdfFile] else []
  }

  /**
   * The checks of `imageUploader` in their order, then the walk over the
   * uploads; the result is the record to save or the first rejection.
   */
  method CheckCreate(files: seq<UploadedFile>, title: Option<string>, date: Option<string>,
                     special: SpecialFlag, parseDate: string -> Option<int>, now: int)
    returns (r: Result<Edition, CreateError>)
    ensures r == NewEdition(files, title, date, special, parseDate, now)
  {
    if files == [] {
      return Failure(NoFiles);
    }
    if !Truthy(title) {
      return Failure(TitleRequired);
    }
    var parsedDate: int;
    if Truthy(date) {
      var tempDate := parseDate(date.value);
      if tempDate.None? {
        return Failure(CreateError.InvalidDate);
      }
      parsedDate := tempDate.value;
    } else {
      parsedDate := now;
    }
    var c := ClassifyUploads(files);
    if c.Failure? {
      return Failure(c.error);
    }
    r := Success(Edition(title.value, parsedDate, SpecialValue(special), c.value.pdfFile, c.value.pages));
  }

  class Store {
    /** The collection: records by id. */
    var records: map<nat, Edition>
    /** The id the next created record receives. */
    var nextId: nat
    /** The stored keys of the files on disk. */
    var disk: set<string>
    /** Files on disk whose unlink fails; the handlers swallow the error. */
    var locked: set<string>
    /** The effects so far, oldest first. */
    var journal: seq<Effect>

    /** Ids are below `nextId`, and every record holds `uploads/` keys. */
    ghost predicate Valid()
      reads this
    {
      forall id :: id in records ==> id < nextId && KeysStored(records[id])
    }

    constructor (disk0: set<string>, locked0: set<string>)
      ensures Valid()
      ensures records == map[] && nextId == 0 && disk == disk0 && locked == locked0 && journal == []
    {
      records := map[];
      nextId := 0;
      disk := disk0;
      locked := locked0;
      journal := [];
    }

    /** `if (fs.existsSync(p)) { try { fs.unlinkSync(p) } catch {} }` */
    method Unlink(key: string)
      modifies this
      ensures records == old(records) && nextId == old(nextId) && locked == old(locked)
      ensures disk == AfterUnlink(old(disk), locked, key)
      ensures journal == old(journal) + (if key in old(disk) then [UnlinkAttempt(key)] else [])
    {
      if key in disk {
        journal := journal + [UnlinkAttempt(key)];
        if key !in locked {
          disk := disk - {key};
        }
      }
    }

    /**
     * `imageUploader`: a rejected request changes nothing; an accepted one
     * saves the new record under a fresh id. The uploaded files are already
     * on disk when the handler runs, so the disk is left as it is.
     */
    method Create(files: seq<UploadedFile>, title: Option<string>, date: Option<string>,
                  special: SpecialFlag, parseDate: string -> Option<int>, now: int)
      returns (r: Result<nat, CreateError>)
      requires Valid()
      modifies this
      ensures Valid()
      ensures var n := NewEdition(files, title, date, special, parseDate, now);
        n.Failure? ==> r == Failure(n.error) && records == old(records) && nextId == old(nextId)
                       && disk == old(disk) && journal == old(journal)
      ensures var n := NewEdition(files, title, date, special, parseDate, now);
        n.Success? ==> r == Success(old(nextId)) && old(nextId) !in old(records)
                       && records == old(records)[old(nextId) := n.value] && nextId == old(nextId) + 1
                       && disk == old(disk) && journal == old(journal) + [Saved(old(nextId))]
      ensures locked == old(locked)
    {
      var n := CheckCreate(files, title, date, special, parseDate, now);
      if n.Failure? {
        return Failure(n.error);
      }
      var id := nextId;
      records := records[id := n.value];
      nextId := nextId + 1;
      journal := journal + [Saved(id)];
      r := Success(id);
    }

    /**
     * `updateMedia`: an unknown id or an invalid date changes nothing;
     * otherwise the old PDF is unlinked (when a new one arrives) before the
     * updated record is saved.
     */
    method Update(id: nat, title: Option<string>, date: Option<string>, special: SpecialFlag,
                  files: seq<UploadedFile>, parseDate: string -> Option<int>)
      returns (r: Result<Edition, StoreError>)
      requires Valid()
      modifies this
      ensures Valid()
      ensures id !in old(records) ==> r == Failure(NotFound)
      ensures id in old(records) ==> r == UpdatedEdition(old(records)[id], title, date, special, files, parseDate)
      ensures r.Failure? ==> records == old(records) && disk == old(disk) && journal == old(journal)
      ensures r.Success? ==>
        var ks := UpdateUnlinks(old(records)[id], files);
        records == old(records)[id := r.value]
        && disk == AfterSweep(old(disk), locked, ks)
        && journal == old(journal) + SweepLog(old(disk), locked, ks) + [Saved(id)]
      ensures nextId == old(nextId) && locked == old(locked)
    {
      if id !in records {
        return Failure(NotFound);
      }
      var existing := records[id];
      ghost var e0 := existing;
      var fields := AssignFields(existing, title, date, special, parseDate);
      if fields.Failure? {
        return Failure(fields.error);
      }
      UpdateKeepsKeysStored(e0, title, date, special, files, parseDate);
      UpdateInSteps(e0, title, date, special, files, parseDate);
      existing := TakeUploads(fields.value, files);
      records := records[id := existing];
      journal := journal + [Saved(id)];
      r := Success(existing);
    }

    /**
     * The upload part of `updateMedia`: when a PDF arrives the old PDF is
     * unlinked (if one is recorded) and replaced; the other uploads are
     * appended as pages.
     */
    method TakeUploads(existing: Edition, files: seq<UploadedFile>) returns (n: Edition)
      modifies this
      ensures n == WithUploads(existing, files)
      ensures records == old(records) && nextId == old(nextId) && locked == old(locked)
      ensures disk == AfterSweep(old(disk), locked, UpdateUnlinks(existing, files))
      ensures journal == old(journal) + SweepLog(old(disk), locked, UpdateUnlinks(existing, files))
    {
      n := existing;
      var p := FirstPdf(files);
      SweepShort(disk, locked, existing.pdfFile);
      if p < |files| {
        if n.pdfFile != "" {
          Unlink(n.pdfFile);
        }
        n := n.(pdfFile := PdfKeyInline(files[p]));
      }
      var pageFiles := PageKeys(PageUploads(files));
      if |pageFiles| > 0 {
        n := n.(pages := n.pages + pageFiles);
      }
    }

    /** The unlinks of `deleteMedia`: the PDF if the record has one, then every page. */
    method UnlinkDocument(doc: Edition)
      modifies this
      ensures records == old(records) && nextId == old(nextId) && locked == old(locked)
      ensures disk == AfterSweep(old(disk), locked, DocKeys(doc))
      ensures journal == old(journal) + SweepLog(old(disk), locked, DocKeys(doc))
    {
      ghost var d0, j0 := disk, journal;
      ghost var pre: seq<string> := if doc.pdfFile != "" then [doc.pdfFile] else [];
      SweepShort(d0, locked, doc.pdfFile);
      if doc.pdfFile != "" {
        Unlink(doc.pdfFile);
      }
      UnlinkEach(doc.pages);
      SweepAppend(d0, locked, pre, doc.pages);
    }

    /** The loop of `deleteMedia` over the pages: one best-effort unlink per key, in order. */
    method UnlinkEach(keys: seq<string>)
      modifies this
      ensures records == old(records) && nextId == old(nextId) && locked == old(locked)
      ensures disk == AfterSweep(old(disk), locked, keys)
      ensures journal == old(journal) + SweepLog(old(disk), locked, keys)
    {
      ghost var d0, j0 := disk, journal;
      assert keys[..0] == [];
      for i := 0 to |keys|
        invariant disk == AfterSweep(d0, locked, keys[..i])
        invariant journal == j0 + SweepLog(d0, locked, keys[..i])
        invariant records == old(records) && nextId == old(nextId) && locked == old(locked)
      {
        SweepStep(d0, locked, keys[..i], keys[i]);
        assert keys[..i + 1] == keys[..i] + [keys[i]];
        Unlink(keys[i]);
      }
      assert keys[..|keys|] == keys;
    }

    /**
     * `deleteMedia`: an unknown id changes nothing; otherwise the PDF and
     * then every page is unlinked (best effort), and only then is the record
     * removed.
     */
    method Delete(id: nat) returns (r: Result<(), StoreError>)
      requires Valid()
      modifies this
      ensures Valid()
      ensures id !in old(records) ==> r == Failure(NotFound) && records == old(records)
                                      && disk == old(disk) && journal == old(journal)
      ensures id in old(records) ==>
        var ks := DocKeys(old(records)[id]);
        r == Success(()) && records == old(records) - {id}
        && disk == AfterSweep(old(disk), locked, ks)
        && journal == old(journal) + SweepLog(old(disk), locked, ks) + [Removed(id)]
      ensures nextId == old(nextId) && locked == old(locked)
    {
      if id !in records {
        return Failure(NotFound);
      }
      UnlinkDocument(records[id]);
      records := records - {id};
      journal := journal + [Removed(id)];
      r := Success(());
    }
  }

  /** After a delete the record is gone and so is every file of it that could be removed. */
  lemma DeleteRemovesFiles(disk: set<string>, locked: set<string>, e: Edition)
    ensures AfterSweep(disk, locked, DocKeys(e)) ==
      disk - (set k | k in disk && ((k == e.pdfFile && k != "") || k in e.pages) && k !in locked)
  {
    SweepRemoves(disk, locked, DocKeys(e));
  }
}
