# Edition media lifecycle, modelled in Dafny

This project models the part of a newspaper site that handles e-paper
editions. An edition is a record holding a title, a date, a special-edition
flag, one PDF and an ordered list of page images. The files themselves sit
in an `uploads/` directory on the server.

The model covers:

- **The server's media controller.**
  - How stored paths become public paths (`toPublicPath`).
  - How a raw upload path becomes a stored key `uploads/<name>`. The
    controller spells this out three times, and all three are proved to agree.
  - How a create request is checked and its uploads sorted into one PDF and
    the page images.
  - How an update rewrites a record, and how a delete removes its files and
    then the record.
  - How a day or month query is validated and which time range it selects.
- **The admin panel's edition form.**
  - Date normalisation and turning the panel's absolute URLs back into stored
    paths.
  - The page and PDF edits, and the keep/delete split of the pages.
  - The requests the insert, update and delete buttons send.
- **The reader's page slider** in the editions view.
- **The category listing** of the articles view.

The modules follow the source:

| module | file | models |
|---|---|---|
| `Paths` | `paths.dfy` | `toPublicPath` and the stored-key derivation |
| `EditionRecord` | `edition_record.dfy` | the record and the public view a response carries |
| `CreateEdition` | `create_edition.dfy` | `imageUploader`: the checks and the loop over the uploads |
| `MediaStore` | `media_store.dfy` | `updateMedia` and `deleteMedia` on a `Store` class holding records, disk and a journal of effects |
| `MediaQuery` | `media_query.dfy` | the validation and range computation of `getMedia` |
| `AdminPanel` | `admin_panel.dfy` | the helpers and handlers of the admin panel, with a `Panel` class for its state |
| `EditionsPager` | `editions_pager.dfy` | the page slider, a `Pager` class with two state cells |
| `Articles` | `articles.dfy` | the category dedup and the per-category sections |
| `JsString`, `Seqs`, `Wrappers` | | JavaScript string built-ins, sequence filtering, `Option`/`Result` |

The parts that work step by step are methods proved against specification
functions:

- The classification loop of `imageUploader`.
- The field assignments and the unlinks of `updateMedia`.
- The unlink loop of `deleteMedia`.
- The handlers of the admin panel.
- The slider's buttons.

The pure parts are functions with lemmas about them.

Some outside inputs become parameters:

- `new Date(...)` becomes a parsing function. Its `None` result stands for an
  invalid date.
- The current time becomes `now`.
- `URL.createObjectURL` becomes `objectUrl`.
- The answer to `window.confirm` becomes `confirmed`.

The file system becomes two sets of keys:

- the files on disk;
- the files whose unlink fails.

The database becomes a map from ids to records. Every unlink attempt, save
and removal is appended to a journal, so that contracts can state their
order.

## Behaviour of the code as written

- **`toPublicPath` is not idempotent in general.** `///a` is sent out as
  `//a`, and `toPublicPath("//a")` is `/a` (`Paths.PublicPathDoubleSlash`).
  It is idempotent on every input whose result does not start with `//`
  (`Paths.PublicPathIdempotent`).
- **The `./uploads/` branch of `toPublicPath` can never be taken.** Such a
  path already contains `/uploads/` (`Paths.DotUploadsBranchUnreachable`).
- **The update handler reads only the title, date, special flag and files.**
  It ignores `existingPages`, `deletedPages`, `removePdf` and `deletedPdf`,
  which the panel sends. So an update never removes a page and never clears
  the PDF.
- **Update sorts uploads differently from create.** Update treats every upload
  except the first `.pdf` as a page, with no extension filter. A second PDF is
  appended as a page, where create refuses the batch
  (`MediaStore.SecondPdfBecomesPage`).
- **The panel's delete works on every edition of a date, but the server sees
  only one.** It removes every listed edition of that date from its list, yet
  sends a `DELETE` for the first one's id only.
- **Picking a new file for an existing page removes it from both lists.**
  `handlePageChange` turns the page into a new page. Its old URL is then in
  neither the keep nor the delete list (`AdminPanel.ChangeEffect`). Since the
  server ignores both lists, the new file is appended after the old pages.
- **A loaded edition with no pages gives a broken image address.** The page
  image's address is the API base followed by the word `undefined`
  (`EditionsPager.ImageSource`).
- **A fetch that finds no edition leaves `currentPage` as it was.**

## Model

| member | source | states |
|---|---|---|
| Paths.ToPublicPath | controllers/media-controller.js:7-12 | an empty path comes back empty; a path that is an `http(s)://` URL after backslash conversion and trimming comes back in that normalised form |
| Paths.PublicPathLeadingSlash | controllers/media-controller.js:13-27 | every other non-empty path comes out starting with `/` |
| Paths.PublicPathFromMarker | controllers/media-controller.js:14-16 | a normalised path containing `/uploads/` comes out as its suffix from the first `/uploads/`, so it starts with `/uploads/` |
| Paths.MarkerSuffix | controllers/media-controller.js:14-16 | the relative form of a path with `/uploads/` in it, behind one slash, is the suffix from the first `/uploads/` |
| Paths.DotUploadsBranchUnreachable | controllers/media-controller.js:19-20 | a path starting with `./uploads/` contains `/uploads/`, so the earlier branch always takes it |
| Paths.PublicPathFixedPoint | controllers/media-controller.js:14-27 | `/uploads/<name>` is mapped to itself for a clean name |
| Paths.PublicPathOfKey | controllers/media-controller.js:17-27 | a plain key `uploads/<name>` is sent out as `/uploads/<name>` |
| Paths.PublicPathIdempotent | controllers/media-controller.js:7-28 | applying `toPublicPath` to its own result changes nothing, whenever that result does not start with `//` |
| Paths.PublicPathDoubleSlash | controllers/media-controller.js:23-27 | `///a` gives `//a`, and `//a` gives `/a`: idempotence fails on a double slash |
| Paths.SlashPathOnce | controllers/media-controller.js:21-27 | a clean path starting with `//` and without `/uploads/` loses exactly its first character |
| Paths.NormalizedIdempotent | controllers/media-controller.js:10 | converting backslashes and trimming twice is the same as once |
| Paths.NormalizedShape | controllers/media-controller.js:10 | a normalised path holds no backslash and no white space at either end |
| Paths.KeyNotUrl | controllers/media-controller.js:10-12 | a path starting with `uploads/` is never taken for a URL, even after normalising |
| Paths.KeyFromRaw | controllers/media-controller.js:63-74 | the key starts with `uploads/` and has no leading slash; when the raw path contains `uploads/` the key is a suffix of it, otherwise it is `uploads/` followed by the file name |
| Paths.RootAfterMarker | controllers/media-controller.js:64-70 | where `/uploads/` occurs, `uploads/` occurs one place later, so the suffix the first branch keeps starts with `uploads/` |
| Paths.StoredKeyFixedPoint | controllers/media-controller.js:61-74 | a plain key given back as the upload path is stored as itself |
| Paths.CreateKey | controllers/media-controller.js:61-74 | the branch-by-branch assignment in `imageUploader` computes the stored key |
| Paths.PdfKeyInline | controllers/media-controller.js:215-217 | the nested conditional of `updateMedia` for the new PDF computes the same stored key |
| Paths.PageKeyInline | controllers/media-controller.js:225-229 | the early-return copy of `updateMedia` for pages computes the same stored key |
| EditionRecord.PublicView | controllers/media-controller.js:101-110 | the response keeps the title, date and flag, and has one public page per stored page |
| EditionRecord.PublicViewOfStored | controllers/media-controller.js:108-109 | for a record of `uploads/` keys the PDF stays present or missing, and the PDF and every page start with `/` |
| EditionRecord.PublicViewOfPlainKeys | controllers/media-controller.js:244-245 | for plain keys the view is each key with `/` in front, page `i` from stored page `i` |
| CreateEdition.ClassifyUploads | controllers/media-controller.js:55-88 | the loop over the uploads yields the batch outcome `Classify`: stops at a second PDF, pushes the images in order, fails without a PDF |
| CreateEdition.SecondPdfFails | controllers/media-controller.js:76-79 | a PDF after an earlier PDF makes the batch fail with "only one PDF" |
| CreateEdition.WalkComplete | controllers/media-controller.js:84-88 | once every upload has been seen, a missing PDF fails and otherwise the PDF and pages found are the outcome |
| CreateEdition.ClassifySingle | controllers/media-controller.js:58-88 | with exactly one PDF upload, create succeeds with that upload's key and the image keys in upload order |
| CreateEdition.ClassifyFailures | controllers/media-controller.js:76-88 | "only one PDF" exactly when two uploads are PDFs; "PDF required" exactly when none is |
| CreateEdition.ImageKeysFromImages | controllers/media-controller.js:81-82 | a key is a page exactly when it is the key of an upload with a `.jpg`, `.jpeg`, `.png` or `.webp` extension |
| CreateEdition.ClassifiedKeys | controllers/media-controller.js:80-82 | every key create stores is an `uploads/` key |
| CreateEdition.NewEdition | controllers/media-controller.js:36-96 | no files, then no title, then an invalid date are refused in that order; a request past those checks succeeds exactly when the walk finds one PDF, and otherwise fails with the walk's error ("only one PDF" or "PDF required"); success carries the title, the parsed date or `now`, the flag read as `"true"`/`true`, and the PDF and pages of the walk |
| MediaStore.CheckCreate | controllers/media-controller.js:33-96 | the checks and the loop, with early returns, compute `NewEdition` |
| MediaStore.Store.Create | controllers/media-controller.js:90-98 | a rejected request changes no record, disk or journal; an accepted one saves the new record under a fresh id |
| MediaStore.UpdatedFields | controllers/media-controller.js:191-199 | a supplied title overwrites, even when empty; a non-empty date must parse or the update fails with 400; a supplied flag is re-read; the PDF and pages are untouched |
| MediaStore.AssignFields | controllers/media-controller.js:191-199 | the in-place assignments with an early return compute `UpdatedFields` |
| MediaStore.WithUploadsPdf | controllers/media-controller.js:204-219 | without a `.pdf` upload the PDF stays; otherwise it becomes the key of the first `.pdf` upload; a PDF is never cleared |
| MediaStore.UpdatePdf | controllers/media-controller.js:204-219 | the same for the whole update |
| MediaStore.UpdateInSteps | controllers/media-controller.js:191-234 | the update is the field assignments followed by the uploads, and the fields do not change which file is unlinked |
| MediaStore.PageKeys | controllers/media-controller.js:224-230 | one key per upload, the `i`-th being the stored key of the `i`-th upload |
| MediaStore.PageKeysOrder | controllers/media-controller.js:222-230 | the page uploads are all uploads but the first PDF, keyed in upload order |
| MediaStore.UpdatedPagesAppend | controllers/media-controller.js:232-234 | the new pages are the old pages followed by the keys of the page uploads |
| MediaStore.UpdatePages | controllers/media-controller.js:222-234 | the old pages stay in place as a prefix, and every upload but the first PDF follows in upload order |
| MediaStore.UpdateKeepsKeysStored | controllers/media-controller.js:215-234 | an update of a record of `uploads/` keys holds `uploads/` keys |
| MediaStore.SecondPdfBecomesPage | controllers/media-controller.js:76-79 | two PDFs are refused by create (:76-79), while update (:204-233) takes the first as the PDF and appends the second as a page |
| MediaStore.UpdateUnlinks | controllers/media-controller.js:206-213 | at most one file, the old PDF, is unlinked by an update |
| MediaStore.Store.Unlink | controllers/media-controller.js:209-212 | a file on disk is attempted and goes unless its removal fails; a missing file is skipped; nothing else changes |
| MediaStore.Store.TakeUploads | controllers/media-controller.js:202-234 | the record becomes `WithUploads`, after the old PDF has been unlinked when a new PDF arrives |
| MediaStore.Store.Update | controllers/media-controller.js:185-236 | an unknown id fails with 404 and an invalid date with 400, leaving records, disk and journal unchanged; otherwise the old PDF's unlink comes before the save of the updated record |
| MediaStore.SweepRemoves | controllers/media-controller.js:261-276 | a run of best-effort unlinks removes exactly the listed files whose removal does not fail |
| MediaStore.SweepAttempts | controllers/media-controller.js:261-276 | an unlink is attempted only on listed files that exist, and on every listed file that was on disk |
| MediaStore.SweepAppend | controllers/media-controller.js:261-276 | unlinking `a` then `b` is unlinking `a + b`, on disk and in the journal |
| MediaStore.DocKeys | controllers/media-controller.js:261-276 | a delete sweeps the PDF when there is one and every page, and nothing else |
| MediaStore.Store.UnlinkEach | controllers/media-controller.js:270-275 | the loop over the pages performs one best-effort unlink per page, in order |
| MediaStore.Store.UnlinkDocument | controllers/media-controller.js:261-276 | the PDF is unlinked first, then each page |
| MediaStore.Store.Delete | controllers/media-controller.js:254-279 | an unknown id fails with 404 and changes nothing; otherwise every file is swept and only then is the record removed |
| MediaStore.DeleteRemovesFiles | controllers/media-controller.js:261-278 | after a delete, the files of the record that could be removed are gone and every other file is still there |
| MediaQuery.MediaRange | controllers/media-controller.js:121-158 | a non-empty `date` decides: it succeeds exactly when it has the `YYYY-MM-DD` shape, with the range starting at `<date>T00:00:00.000Z`, and fails with the day error otherwise; else a non-empty `month` fails with "invalid month format" exactly when its year or month number is missing, `NaN` or 0, and otherwise selects from the first of that month to the first of the next; with neither parameter the query fails |
| MediaQuery.DayWins | controllers/media-controller.js:123-142 | with a non-empty `date` the `month` parameter is never read, and a failure is the day error |
| MediaQuery.DayShapeOfParts | controllers/media-controller.js:124 | digit groups joined by `-` pass the day check exactly when they have 4, 2 and 2 digits |
| MediaQuery.MonthFields | controllers/media-controller.js:143-144 | an accepted month has a non-zero year and month number |
| MediaQuery.MonthFieldsOfDigits | controllers/media-controller.js:143-144 | two non-zero digit strings joined by `-` are read as that year and month |
| MediaQuery.MonthQueryOfFormat | controllers/media-controller.js:143-144 | a `YYYY-MM` month written from a year and a month 1 to 12 is read back as those numbers |
| MediaQuery.FirstOfMonth | controllers/media-controller.js:145-146 | a month index outside 0..11 carries whole years, and two-digit years are read as 19xx |
| MediaQuery.NextMonth | controllers/media-controller.js:145-146 | the range ends at the first day of the calendar month after the one it starts in, December carrying into January |
| MediaQuery.MonthOfYear | controllers/media-controller.js:145 | month number 1 to 12 starts that month; 13 starts January of the next year |
| MediaQuery.MonthRangeOfFields | controllers/media-controller.js:142-146 | a month query whose numbers are read selects from the first of that month to the first of the next |
| AdminPanel.NormalizeDateOnly | src/AdminPanel.jsx:29-42 | empty gives empty and a `YYYY-MM-DD` date is kept; a date the parser reads with a four-digit year comes out as a `YYYY-MM-DD` date naming that local year, month and day; an unreadable `DD-MM-YYYY` date comes out as `YYYY-MM-DD` with the same year, month and day; anything else unreadable is kept |
| AdminPanel.DateTextIsDay | src/AdminPanel.jsx:34-37 | a parsed date with a four-digit year is written in the `YYYY-MM-DD` shape |
| AdminPanel.DateTextNames | src/AdminPanel.jsx:34-37 | written out, a date with a four-digit year reads back as the same year, month and day |
| AdminPanel.ReorderedIsDay | src/AdminPanel.jsx:39-40 | a reordered `DD-MM-YYYY` date has the `YYYY-MM-DD` shape and keeps its year, month and day |
| AdminPanel.NormalizeIdempotent | src/AdminPanel.jsx:29-42 | the result is a `YYYY-MM-DD` date or the input itself, so normalising twice is normalising once |
| AdminPanel.StripApiPrefix | src/AdminPanel.jsx:44-52 | an empty string, an unset API base or a string not starting with it comes back as it is; the result is always a suffix of the input |
| AdminPanel.StripAbsoluteUrl | src/AdminPanel.jsx:44-52 | with the API base set, stripping `${API}/${p}` gives `p` back |
| AdminPanel.StripWithoutBase | src/AdminPanel.jsx:46 | with no API base nothing is stripped |
| AdminPanel.FromServer | src/AdminPanel.jsx:59-71 | a listed edition keeps the server's id, title and flag, carries the normalised date, has one absolute URL per page that strips back to the server's path, and has a PDF exactly when the server sent one |
| AdminPanel.SpecialRoundTrip | src/AdminPanel.jsx:97 | the server reads the flag text the form sends as the form's flag |
| AdminPanel.InsertSubmission | src/AdminPanel.jsx:87-103 | an insert is refused exactly when the date is empty or no PDF file is picked, and is never a `PUT` |
| AdminPanel.InsertFiles | src/AdminPanel.jsx:100-103 | an insert sends the PDF first, then every page file, and sends only picked files |
| AdminPanel.UpdateOutcomes | src/AdminPanel.jsx:157-165 | no date refuses, no id falls back to insert, otherwise the request goes to the form's id |
| AdminPanel.SplitCovers | src/AdminPanel.jsx:175-180 | every existing page lands in exactly one of the keep and delete lists |
| AdminPanel.SplitMembers | src/AdminPanel.jsx:175-197 | the keep list holds the stripped URLs of exactly the kept pages, the delete list those of exactly the removed ones, and only new pages with a file send files |
| AdminPanel.UpdatePdfPart | src/AdminPanel.jsx:199-207 | a removed existing PDF sets `removePdf` and names itself for deletion; a new PDF with a file is sent after the page files; otherwise nothing about the PDF is sent |
| AdminPanel.Panel.SubmitUpdate | src/AdminPanel.jsx:157-207 | the steps of `handleUpdate` build the request `UpdateSubmission` |
| AdminPanel.Panel.SubmitInsert | src/AdminPanel.jsx:87-103 | the steps of `handleInsert` build the request `InsertSubmission` |
| AdminPanel.AppendFiles | src/AdminPanel.jsx:101-103 | the `forEach` appends the files of the selected pages, in page order, after those already there |
| AdminPanel.ToggleTwice | src/AdminPanel.jsx:337-342 | flipping the same entry twice restores the pages, and an out-of-range index changes nothing |
| AdminPanel.ToggleMovesPage | src/AdminPanel.jsx:337-342 | flipping an existing page moves its URL between the keep and delete lists at its place, and the files sent stay the same |
| AdminPanel.Panel.MarkExistingPageRemoved | src/AdminPanel.jsx:337-342 | only the `removed` flag of that entry flips; the rest of the form and the editions are unchanged |
| AdminPanel.NewPagesAppended | src/AdminPanel.jsx:344-347 | appended new pages leave both lists alone and send exactly the picked files after the others |
| AdminPanel.NewEntriesSent | src/AdminPanel.jsx:345 | entries made from picked files send exactly those files |
| AdminPanel.Panel.AddNewPages | src/AdminPanel.jsx:344-347 | one new, not-removed entry per file is appended after the unchanged pages |
| AdminPanel.RemovedAt | src/AdminPanel.jsx:349-359 | an existing entry keeps the length; a new entry is spliced out, one shorter |
| AdminPanel.RemoveNewPage | src/AdminPanel.jsx:355-357 | splicing out a new page keeps the others in order, leaves both lists alone and drops only that page's file |
| AdminPanel.RemoveExistingPage | src/AdminPanel.jsx:353-354 | an existing page stays in place, leaves the keep list and is sent for deletion at its place; no file changes |
| AdminPanel.Panel.RemoveNewPageAt | src/AdminPanel.jsx:349-359 | only the pages of the form change, to `RemovedAt` |
| AdminPanel.ChangeEffect | src/AdminPanel.jsx:361-365 | a page whose file is replaced leaves both lists, and its new file is sent at its place among the new pages |
| AdminPanel.Panel.ChangePage | src/AdminPanel.jsx:361-365 | the entry at the index becomes a new page holding the file; one past the end appends |
| AdminPanel.Panel.MarkPdfRemoved | src/AdminPanel.jsx:367-370 | without a PDF nothing changes; otherwise only its `removed` flag flips |
| AdminPanel.Panel.ChangePdf | src/AdminPanel.jsx:372-374 | the PDF becomes a new entry holding the picked file |
| AdminPanel.PrefillPages | src/AdminPanel.jsx:133-152 | the first edition of that day fills the form with every page in order, existing and kept; without one the form has no id, pages or PDF |
| AdminPanel.Prefill | src/AdminPanel.jsx:133-152 | the form's date is the normalised chosen date; the first edition of that day gives the form its id (when it has one), title, flag and existing, kept PDF; without such an edition the form is blank but for the date |
| AdminPanel.ListedPagesKept | src/AdminPanel.jsx:175-180 | untouched listed pages are all kept under their server paths, in order; none is deleted and no file is sent |
| AdminPanel.UntouchedUpdate | src/AdminPanel.jsx:157-207 | an unchanged form sends back the edition's pages to keep and nothing else about pages or the PDF |
| AdminPanel.Panel.SelectDateForUpdate | src/AdminPanel.jsx:133-153 | the form becomes `Prefill` of the listed editions; the list is unchanged |
| AdminPanel.OtherDatesSpec | src/AdminPanel.jsx:321 | the local delete drops every edition of that date, keeps all others, and shrinks the list when one was listed |
| AdminPanel.Panel.DeleteEdition | src/AdminPanel.jsx:316-334 | an unlisted date changes nothing; a cancel changes nothing; otherwise every edition of the date goes and only the first one's id is sent |
| EditionsPager.PrevOf | src/Editions.jsx:38-40 | the page moves at most one back, never from page 1 to below it, and stays put exactly on page 1 or below |
| EditionsPager.NextOf | src/Editions.jsx:42-46 | the page moves at most one on, only to a page the loaded edition has, and always when the edition has a later page |
| EditionsPager.PressInRange | src/Editions.jsx:38-46 | each button keeps the page between 1 and the last page |
| EditionsPager.PagesStayInRange | src/Editions.jsx:12-46 | from any page in range, and so from page 1, no sequence of presses leaves `[1, max(1, pages.length)]` |
| EditionsPager.PrevUndoesNext | src/Editions.jsx:38-46 | a step on that moved is undone by a step back, and a step back that moved is undone by a step on |
| EditionsPager.ImageSource | src/Editions.jsx:79 | the image address starts with the API base; on a page in range the rest is one of the edition's pages, and on an edition without pages it is the word `undefined` |
| EditionsPager.ImageOfPageInRange | src/Editions.jsx:79 | within range, the image shown is the API base followed by the shown page, counting from 1 |
| EditionsPager.Pager.constructor | src/Editions.jsx:11-12 | the slider starts at page 1 with no edition |
| EditionsPager.Pager.PrevPage | src/Editions.jsx:38-40 | the page becomes `PrevOf`, the edition stays, and the range invariant is kept |
| EditionsPager.Pager.NextPage | src/Editions.jsx:42-46 | the page becomes `NextOf`, the edition stays, and the range invariant is kept |
| EditionsPager.Pager.FetchCompleted | src/Editions.jsx:23-31 | a non-empty result loads its first edition at page 1; an empty or failed fetch unloads the edition and keeps the page; the range invariant is kept |
| Articles.Dedup | src/Articles.jsx:30 | the result has no duplicates and holds exactly the values of the input |
| Articles.DedupFirstAppearance | src/Articles.jsx:30 | the values are listed in order of their first appearance |
| Articles.CategoriesListed | src/Articles.jsx:30 | the categories are listed once each and are exactly the categories of the articles |
| Articles.SectionsNotEmpty | src/Articles.jsx:30-45 | every listed category has at least one article in its section |
| Articles.EmptyMessage | src/Articles.jsx:36 | the "no articles" message shows exactly when no article was fetched |
| Articles.Section | src/Articles.jsx:43-45 | a section holds exactly the articles of that category |
| Articles.SectionAppend | src/Articles.jsx:43-45 | filtering distributes over concatenation, so a section keeps the fetched order |
| Articles.SectionsPartition | src/Articles.jsx:38-45 | the sections of distinct categories that cover every article hold each article once between them |
| Articles.SectionsCoverArticles | src/Articles.jsx:30-45 | the sections shown together hold exactly as many cards as there are articles |
| JsString.IndexOf | controllers/media-controller.js:14 | `-1` exactly when the pattern does not occur, otherwise its first occurrence |
| JsString.ReplaceBackslashes | controllers/media-controller.js:10 | every backslash becomes a slash and every other character stays |
| JsString.Trim | controllers/media-controller.js:10 | the result is the input with its white space at both ends removed: a piece of the input between two runs of white space, itself neither starting nor ending with white space |
| JsString.ExtnameShape | controllers/media-controller.js:59 | an extension is empty or starts with a dot and holds no slash |
| JsString.NumberOfDigits | controllers/media-controller.js:143 | a digit string is read as its decimal value |
| JsString.SplitAt | controllers/media-controller.js:143 | splitting at the first separator gives the part before it, then the split of the rest |
| JsString.PadStart2 | src/AdminPanel.jsx:35-36 | the result is at least two long, ends with the input and is `0` in front of it |

Members without a row are the specification functions these rows are
stated against (for example `CreateEdition.Classify`, `MediaStore.WithUploads`,
`MediaStore.UpdatedEdition`, `AdminPanel.KeepList`, `AdminPanel.DeleteList`,
`AdminPanel.NewPageFiles`) and helper lemmas of the proofs (for example
`AdminPanel.DroppedInPlace`, `AdminPanel.UploadsUnchanged`). A few lemmas
evaluate the model on concrete values as sanity checks and state nothing
beyond the rows above: `JsString.ExtnameExamples` and
`MediaQuery.CalendarExamples`.

## Left out

- Dates are not modelled as JavaScript `Date` values. Parsing, local time, time zones and `new Date()` are parameters. A day range is given by its start text `YYYY-MM-DDT00:00:00.000Z`. Its end (`setDate(getDate() + 1)`, in local time) is not computed.
- `MediaQuery.FullYear` models only the two-digit year rule of `new Date(y, m, 1)`. Other `Date` limits are not modelled.
- The database calls are not modelled: `find`, `findById`, `save`, `findByIdAndDelete` and the `sort({ date: -1 })` of the result lists. Records are a map from ids, and failures of `save` or of the connection (`next(err)`) are not modelled.
- The route handler `getAllMedia` is not modelled. Only the mapping of each record through `PublicView` is.
- The file system is not modelled. `path.join(__dirname, "..", key)` is the key itself. A failing `unlinkSync` is a key in the `locked` set.
- Upload transport and storage naming are not modelled. Uploaded files are already on disk when a handler runs, and a rejected create or update leaves them there.
- `model/upload-model.js` is not part of this model. Its schema is taken as the `Edition` record.
- Query parameters given as arrays are not modelled. Each parameter is a string or absent.
- JsString.ToLowerAscii: lower-cases ASCII letters only. The extensions compared are ASCII, and no other character lower-cases to one of their letters.
- JsString.JsNumber: reads `Number` for the empty string, white space and signed or unsigned decimal digits only. Every other text counts as `NaN`.
- AdminPanel.StripApiPrefix: treats the API base as literal text. In the source it is put into a regular expression, where metacharacters such as `.` match more.
- Strings are sequences of characters, not UTF-16 code units.
- HTTP is left out:
  - the axios requests and responses;
  - the `PUT` → `POST` method-override fallback of `handleUpdate`;
  - the local edits the panel applies when both fail (src/AdminPanel.jsx:295-308);
  - replacing list entries with the server's answer after an insert or an update;
  - re-fetching.
  Submissions end at the request they send.
- The panel's messages, timers, tabs, processing flag and rendering are left out. So are the editions view's date formatting and its fetch URL.
- Responses that arrive in a different order from their requests are not modelled.
- AdminPanel.Panel.RemoveNewPageAt: requires an index inside the page list. In the source an index outside it throws when `p.existing` is read.
- AdminPanel.Panel.ChangePage: requires an index no further than one past the end. In the source a larger index leaves holes in the array.
- AdminPanel.SplitMembers: states disjointness on the page entries: each existing entry lands in exactly one list. Two entries with the same URL can put that string in both lists.
- The articles view's polling interval, its modal and its language headings are left out. So are the article router's queries.
