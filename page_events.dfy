/**
 * The click handlers of the user pages that change the client's paging and rating
 * state (Server/extra_files/www/User/js/event.js): the pager of the home page, the
 * star rating of the game-detail page, and the load-more button of the game list.
 * The state lives in two fields of the client model, currentPagination and
 * reviewRating (Server/extra_files/FE/User/js/model.js). The stored game list is a
 * parameter; rendering is replaced by what each handler hands to the view.
 */
module PageEvents {
  import opened Games
  import Pagination

  /** Games per page of the home-page pager. */
  const HomePerPage: nat := 10

  /** Games per click of the load-more button. */
  const LoadMorePerPage: nat := 6

  /** parseInt of a button's data-page text: the whole part of the number. */
  function ParsePage(x: real): int
  {
    if x >= 0.0 then x.Floor else -((-x).Floor)
  }

  /** The page after a pager click, with `pages` pages in all. */
  function PagerTransition(current: int, btn: Pagination.Button, pages: nat): int
  {
    match btn
    case Page(x, _) => ParsePage(x)
    case Prev(_) => if current > 1 then current - 1 else current
    case Next(_) => if current < pages then current + 1 else current
  }

  /** Whether a click moves the pager and makes it re-render. */
  predicate PagerRenders(current: int, btn: Pagination.Button, pages: nat)
  {
    btn.Page? || (btn.Prev? && current > 1) || (btn.Next? && current < pages)
  }

  /** The rating after a click on star `value`: the same star again clears it. */
  function Toggle(rating: int, value: int): int
  {
    if rating == value then 0 else value
  }

  /** The page the load-more button shows next: an unset page counts as 1, then it moves one on. */
  function LoadMorePage(current: int): int
  {
    (if current == 0 then 1 else current) + 1
  }

  class ClientState {
    /** The current page of the home pager and of the load-more list. */
    var currentPagination: int
    /** The rating chosen with the stars, 0 for none. */
    var reviewRating: int

    /** The client model's initial state. */
    constructor ()
      ensures currentPagination == 1 && reviewRating == 0
    {
      currentPagination := 1;
      reviewRating := 0;
    }

    /**
     * A click on the pager with `gameData` stored: a numbered button jumps to its
     * page, Prev and Next move one page when there is one to move to. When the page
     * changes, the handler shows that page and re-renders the pager with the page
     * count rounded up.
     */
    method PagerClick(btn: Pagination.Button, gameData: seq<Game>)
      returns (rendered: bool, items: seq<Game>, pager: seq<Pagination.Button>)
      modifies this
      ensures reviewRating == old(reviewRating)
      ensures currentPagination == PagerTransition(old(currentPagination), btn, PageCount(|gameData|, HomePerPage))
      ensures rendered == PagerRenders(old(currentPagination), btn, PageCount(|gameData|, HomePerPage))
      ensures rendered ==> items == GetGamePagination(gameData, currentPagination, HomePerPage)
      ensures rendered ==> pager == Pagination.Buttons(currentPagination, PageCount(|gameData|, HomePerPage) as real)
      ensures !rendered ==> items == [] && pager == []
    {
      var numberPage := PageCount(|gameData|, HomePerPage);
      rendered, items, pager := false, [], [];
      match btn {
        case Page(x, _) =>
          currentPagination := ParsePage(x);
          rendered := true;
        case Prev(_) =>
          if currentPagination > 1 {
            currentPagination := currentPagination - 1;
            rendered := true;
          }
        case Next(_) =>
          if currentPagination < numberPage {
            currentPagination := currentPagination + 1;
            rendered := true;
          }
      }
      if rendered {
        items := GetGamePagination(gameData, currentPagination, HomePerPage);
        pager := Pagination.UpdatePaginationUI(currentPagination, numberPage as real);
      }
    }

    /** A click on star `value` (1 to 10). */
    method StarClick(value: int)
      requires 1 <= value <= 10
      modifies this
      ensures reviewRating == Toggle(old(reviewRating), value)
      ensures currentPagination == old(currentPagination)
    {
      if reviewRating == value {
        reviewRating := 0;
      } else {
        reviewRating := value;
      }
    }

    /**
     * A click on the load-more button with `gameData` stored: move to the next page
     * of six and show it; an empty page disables the button instead.
     */
    method LoadMore(gameData: seq<Game>) returns (newGames: seq<Game>, disabled: bool)
      modifies this
      ensures currentPagination == LoadMorePage(old(currentPagination))
      ensures reviewRating == old(reviewRating)
      ensures newGames == GetGamePagination(gameData, currentPagination, LoadMorePerPage)
      ensures disabled <==> newGames == []
    {
      currentPagination := if currentPagination == 0 then 1 else currentPagination;
      currentPagination := currentPagination + 1;
      var startIndex := (currentPagination - 1) * LoadMorePerPage;
      var endIndex := currentPagination * LoadMorePerPage;
      newGames := JsSlice(gameData, startIndex, endIndex);
      disabled := newGames == [];
    }
  }

  /** Prev never leads below page 1 and Next never past the last page. */
  lemma PrevNextStayInRange(current: int, btn: Pagination.Button, pages: nat)
    requires !btn.Page?
    requires 1 <= current
    ensures 1 <= PagerTransition(current, btn, pages)
    ensures current <= pages ==> PagerTransition(current, btn, pages) <= pages
    ensures btn.Prev? ==> PagerTransition(current, btn, pages) == (if current > 1 then current - 1 else current)
    ensures btn.Next? ==> PagerTransition(current, btn, pages) == (if current < pages then current + 1 else current)
  {
  }

  /**
   * Starting from a page within 1 .. pages, any click on a button the pager shows
   * for that page leaves the page within 1 .. pages, and a click on a numbered
   * button goes to exactly that page.
   */
  lemma ClickStaysInRange(current: int, btn: Pagination.Button, pages: nat)
    requires 1 <= current <= pages
    requires btn in Pagination.Buttons(current, pages as real)
    ensures 1 <= PagerTransition(current, btn, pages) <= pages
    ensures btn.Page? ==> PagerTransition(current, btn, pages) as real == btn.number
  {
    Pagination.CurrentShown(current, pages);
    if btn.Page? {
      Pagination.PageButtonShown(current, pages as real, btn);
      WholePage(btn.number);
    }
  }

  /** The whole number a page button carries reads back as itself. */
  lemma WholePage(x: real)
    requires 1.0 <= x && x == x.Floor as real
    ensures ParsePage(x) as real == x
  {
  }

  /** The rating stays a star value or 0; it is 0 after a click exactly when the clicked star was the rating. */
  lemma ToggleMeaning(rating: int, value: int)
    requires 0 <= rating <= 10 && 1 <= value <= 10
    ensures 0 <= Toggle(rating, value) <= 10
    ensures Toggle(rating, value) == 0 <==> rating == value
    ensures rating == 0 || rating == value ==> Toggle(Toggle(rating, value), value) == rating
  {
  }

  /** The first load-more click from the initial page shows the seventh to the twelfth game. */
  lemma FirstLoadMoreSkipsFirstSix(gameData: seq<Game>)
    ensures LoadMorePage(1) == 2
    ensures GetGamePagination(gameData, LoadMorePage(1), LoadMorePerPage) == gameData[Min(6, |gameData|)..Min(12, |gameData|)]
  {
    PageBounds(gameData, 2, LoadMorePerPage);
  }

  /** Successive load-more clicks from page p show pages p + 1 and p + 2 one after the other, with nothing skipped. */
  lemma LoadMoreContiguous(gameData: seq<Game>, p: int)
    requires p >= 1
    ensures GetGamePagination(gameData, LoadMorePage(p), LoadMorePerPage)
            + GetGamePagination(gameData, LoadMorePage(LoadMorePage(p)), LoadMorePerPage)
            == gameData[Min(p * 6, |gameData|)..Min((p + 2) * 6, |gameData|)]
  {
    PageBounds(gameData, p + 1, LoadMorePerPage);
    PageBounds(gameData, p + 2, LoadMorePerPage);
    var a, b, c := Min(p * 6, |gameData|), Min((p + 1) * 6, |gameData|), Min((p + 2) * 6, |gameData|);
    assert gameData[a..b] + gameData[b..c] == gameData[a..c];
  }
}
