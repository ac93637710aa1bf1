/**
 * The reader's page slider: two cells of state, the page shown (counted
 * from 1) and the edition loaded for the selected day, changed by the
 * previous/next buttons and by the arrival of a fetch result.
 */
module EditionsPager {
  import opened Wrappers
  import opened EditionRecord

  /** The last page the slider can reach on an edition; an edition without pages still shows page 1. */
  function LastPage(e: Edition): (n: int)
    ensures n >= 1 && n >= |e.pages|
  {
    if |e.pages| > 1 then |e.pages| else 1
  }

  /** `handlePrevPage`: one page back, never below page 1. */
  function PrevOf(page: int): (p: int)
    ensures page - 1 <= p <= page
    ensures page >= 1 ==> p >= 1
    ensures p == page <==> page <= 1
  {
    if page > 1 then page - 1 else page
  }

  /** `handleNextPage`: one page on, only while an edition is loaded and a later page exists. */
  function NextOf(page: int, edition: Option<Edition>): (p: int)
    ensures page <= p <= page + 1
    ensures p != page ==> edition.Some? && p <= |edition.value.pages|
    ensures edition.Some? && page < |edition.value.pages| ==> p != page
  {
    if edition.Some? && page < |edition.value.pages| then page + 1 else page
  }

  /** A press of one of the two slider buttons. */
  datatype Press = Prev | Next

  /** The page after pressing the buttons in order, with the edition left as it is. */
  function PageAfter(page: int, edition: Option<Edition>, presses: seq<Press>): int
    decreases |presses|
  {
    if presses == [] then page
    else
      var p := if presses[0].Prev? then PrevOf(page) else NextOf(page, edition);
      PageAfter(p, edition, presses[1..])
  }

  /** The slider's invariant: the page is at least 1 and, with an edition loaded, at most its last page. */
  predicate InRange(page: int, edition: Option<Edition>) {
    page >= 1 && (edition.Some? ==> page <= LastPage(edition.value))
  }

  /** Each button keeps the page within range. */
  lemma PressInRange(page: int, edition: Option<Edition>)
    requires InRange(page, edition)
    ensures InRange(PrevOf(page), edition) && InRange(NextOf(page, edition), edition)
  {
  }

  /**
   * Starting from any page in range, and in particular from page 1, no
   * sequence of presses leaves the range `[1, max(1, pages.length)]`.
   */
  lemma {:induction false} PagesStayInRange(page: int, edition: Option<Edition>, presses: seq<Press>)
    requires InRange(page, edition)
    ensures InRange(PageAfter(page, edition, presses), edition)
    decreases |presses|
  {
    if presses != [] {
      PressInRange(page, edition);
      var p := if presses[0].Prev? then PrevOf(page) else NextOf(page, edition);
      PagesStayInRange(p, edition, presses[1..]);
    }
  }

  /** A step forward that moved is undone by a step back, and a step back that moved is undone by a step forward. */
  lemma PrevUndoesNext(page: int, edition: Option<Edition>)
    requires InRange(page, edition)
    ensures NextOf(page, edition) != page ==> PrevOf(NextOf(page, edition)) == page
    ensures edition.Some? && PrevOf(page) != page ==> NextOf(PrevOf(page), edition) == page
  {
  }

  /**
   * The `src` of the page image: the API base followed by the public path of
   * the page shown. Past the last page (only possible on an edition without
   * pages) JavaScript reads `undefined` and writes that word.
   */
  function ImageSource(api: string, e: Edition, page: int): (src: string)
    ensures |api| <= |src| && src[..|api|] == api
    ensures 1 <= page <= |e.pages| ==> src[|api|..] in e.pages
    ensures e.pages == [] ==> src[|api|..] == "undefined"
  {
    if 1 <= page <= |e.pages| then api + e.pages[page - 1] else api + "undefined"
  }

  /** In range, the image shown is always one of the edition's pages, unless it has none. */
  lemma ImageOfPageInRange(api: string, e: Edition, page: int)
    requires InRange(page, Some(e)) && e.pages != []
    ensures ImageSource(api, e, page)[|api|..] in e.pages
    ensures ImageSource(api, e, page) == api + e.pages[page - 1]
  {
  }

  class Pager {
    /** `currentPage` */
    var page: int
    /** `currentEdition`; `None` is `null` */
    var edition: Option<Edition>

    predicate Valid()
      reads this
    {
      InRange(page, edition)
    }

    /** The initial state: page 1 and no edition. */
    constructor()
      ensures page == 1 && edition == None
      ensures Valid()
    {
      page := 1;
      edition := None;
    }

    /** `handlePrevPage` */
    method PrevPage()
      modifies this
      ensures page == PrevOf(old(page)) && edition == old(edition)
      ensures old(Valid()) ==> Valid()
    {
      if page > 1 {
        page := page - 1;
      }
    }

    /** `handleNextPage` */
    method NextPage()
      modifies this
      ensures page == NextOf(old(page), old(edition)) && edition == old(edition)
      ensures old(Valid()) ==> Valid()
    {
      if edition.Some? && page < |edition.value.pages| {
        page := page + 1;
      }
    }

    /**
     * The end of the fetch for the selected day: `result` is the `data` list
     * of the response, `None` when the request failed or the response holds
     * no list. A non-empty list loads its first edition and goes back to
     * page 1; anything else unloads the edition and leaves the page number
     * as it was.
     */
    method FetchCompleted(result: Option<seq<Edition>>)
      modifies this
      ensures result.Some? && result.value != [] ==> edition == Some(result.value[0]) && page == 1
      ensures result.None? || result.value == [] ==> edition == None && page == old(page)
      ensures old(Valid()) ==> Valid()
    {
      if result.Some? && |result.value| > 0 {
        edition := Some(result.value[0]);
        page := 1;
      } else {
        edition := None;
      }
    }
  }
}
