/**
 * The game lists of the front-end controller (Server/extra_files/FE/User/js/controller.js):
 * the two top-10 lists, page slicing, and the loads of the home page and of the
 * game list. A game is the record the game API returns, reduced to the fields
 * these operations read. Local storage and the game API are parameters: what
 * storage holds under 'gameData', and what the fetch of the first 200 games
 * returned (None when the response was not ok). Rendering is left out; each
 * operation returns what it would hand to the view.
 */
module Games {
  import opened Wrappers
  import Pagination

  datatype Game = Game(id: int, numberReview: int, avgRating: real)

  /** The property a top-10 list is ordered by: NumberReview or AvgRating. */
  datatype Criterion = ByReviews | ByRating

  function Key(g: Game, c: Criterion): real
  {
    match c
    case ByReviews => g.numberReview as real
    case ByRating => g.avgRating
  }

  predicate Descending(s: seq<Game>, c: Criterion)
  {
    forall i, j :: 0 <= i < j < |s| ==> Key(s[i], c) >= Key(s[j], c)
  }

  function Min(a: int, b: int): int
  {
    if a <= b then a else b
  }

  // ---------------------------------------------------------------- Array.prototype.slice

  /** A slice bound: a negative one counts from the end, and both are clipped to 0 .. n. */
  function Clip(i: int, n: nat): (r: nat)
    ensures r <= n
    ensures 0 <= i ==> r == Min(i, n)
  {
    if i < 0 then (if n + i < 0 then 0 else n + i) else if i > n then n else i
  }

  /** Array.prototype.slice(from, to). */
  function JsSlice(s: seq<Game>, from: int, to: int): (r: seq<Game>)
    ensures 0 <= from <= to ==> r == s[Min(from, |s|)..Min(to, |s|)]
  {
    var a, b := Clip(from, |s|), Clip(to, |s|);
    if a < b then s[a..b] else []
  }

  // ---------------------------------------------------------------- sorting

  /**
   * Insert `g` into `t` after every game whose key is at least as large: the
   * comparator `b.key - a.key` orders by descending key, and the sort is stable.
   */
  function Insert(t: seq<Game>, g: Game, c: Criterion): seq<Game>
  {
    if t == [] || Key(t[|t| - 1], c) >= Key(g, c) then t + [g]
    else Insert(t[..|t| - 1], g, c) + [t[|t| - 1]]
  }

  /** Inserting adds exactly the one game. */
  lemma {:induction false} InsertMultiset(t: seq<Game>, g: Game, c: Criterion)
    ensures multiset(Insert(t, g, c)) == multiset(t) + multiset{g}
  {
    if t != [] && Key(t[|t| - 1], c) < Key(g, c) {
      InsertMultiset(t[..|t| - 1], g, c);
      assert t == t[..|t| - 1] + [t[|t| - 1]];
    }
  }

  /** A list in descending order stays so when a game no larger than all of it is appended. */
  lemma DescendingAppend(r: seq<Game>, last: Game, c: Criterion)
    requires Descending(r, c)
    requires forall x :: x in r ==> Key(x, c) >= Key(last, c)
    ensures Descending(r + [last], c)
  {
    forall i, j | 0 <= i < j < |r + [last]|
      ensures Key((r + [last])[i], c) >= Key((r + [last])[j], c)
    {
      assert (r + [last])[i] == r[i];
      if j < |r| {
        assert (r + [last])[j] == r[j];
      }
    }
  }

  /**
   * When `g` goes before the last game of a descending `t`, that last game is no
   * larger than anything the insertion into the rest produces.
   */
  lemma LastIsLeast(t: seq<Game>, g: Game, c: Criterion)
    requires t != [] && Descending(t, c) && Key(t[|t| - 1], c) < Key(g, c)
    ensures forall x :: x in Insert(t[..|t| - 1], g, c) ==> Key(x, c) >= Key(t[|t| - 1], c)
  {
    var init, last := t[..|t| - 1], t[|t| - 1];
    var r := Insert(init, g, c);
    InsertMultiset(init, g, c);
    forall x | x in r
      ensures Key(x, c) >= Key(last, c)
    {
      assert x in multiset(r);
      if x != g {
        assert x in multiset(init);
        var i :| 0 <= i < |init| && init[i] == x;
        assert t[i] == x;
      }
    }
  }

  lemma {:induction false} InsertMeaning(t: seq<Game>, g: Game, c: Criterion)
    requires Descending(t, c)
    ensures multiset(Insert(t, g, c)) == multiset(t) + multiset{g}
    ensures Descending(Insert(t, g, c), c)
  {
    InsertMultiset(t, g, c);
    if t != [] && Key(t[|t| - 1], c) < Key(g, c) {
      var init := t[..|t| - 1];
      assert Descending(init, c);
      InsertMeaning(init, g, c);
      LastIsLeast(t, g, c);
      DescendingAppend(Insert(init, g, c), t[|t| - 1], c);
    } else {
      DescendingAppend(t, g, c);
    }
  }

  /** Array.prototype.sort with the comparator `(a, b) => b.key - a.key`, on a copy. */
  function SortDescending(s: seq<Game>, c: Criterion): seq<Game>
  {
    if s == [] then [] else Insert(SortDescending(s[..|s| - 1], c), s[|s| - 1], c)
  }

  /** The sorted copy is ordered by descending key and holds the same games. */
  lemma {:induction false} SortMeaning(s: seq<Game>, c: Criterion)
    ensures Descending(SortDescending(s, c), c)
    ensures multiset(SortDescending(s, c)) == multiset(s)
  {
    if s != [] {
      SortMeaning(s[..|s| - 1], c);
      InsertMeaning(SortDescending(s[..|s| - 1], c), s[|s| - 1], c);
      assert s == s[..|s| - 1] + [s[|s| - 1]];
    }
  }

  /** The ten games first in descending key order: sort a copy, then slice(0, 10). */
  function TopTen(s: seq<Game>, c: Criterion): seq<Game>
  {
    JsSlice(SortDescending(s, c), 0, 10)
  }

  /** GetGamePopular: the ten games with the most reviews. */
  function GetGamePopular(gameData: seq<Game>): seq<Game>
  {
    TopTen(gameData, ByReviews)
  }

  /** GetGameBest: the ten games with the best average rating. */
  function GetGameBest(gameData: seq<Game>): seq<Game>
  {
    TopTen(gameData, ByRating)
  }

  /**
   * A top-10 list holds min(10, |s|) of the games of `s`, in descending key order,
   * and no game left out has a larger key than a game listed.
   */
  lemma TopTenMeaning(s: seq<Game>, c: Criterion)
    ensures |TopTen(s, c)| == Min(10, |s|)
    ensures Descending(TopTen(s, c), c)
    ensures multiset(TopTen(s, c)) <= multiset(s)
    ensures forall x, y :: x in multiset(s) - multiset(TopTen(s, c)) && y in TopTen(s, c) ==> Key(x, c) <= Key(y, c)
  {
    TopTenIsPrefix(s, c);
    PrefixOfSorted(SortDescending(s, c), Min(10, |s|), c);
  }

  /** The top ten are the first min(10, |s|) games of the sorted copy, which is a descending permutation of `s`. */
  lemma TopTenIsPrefix(s: seq<Game>, c: Criterion)
    ensures Descending(SortDescending(s, c), c) && multiset(SortDescending(s, c)) == multiset(s)
    ensures |SortDescending(s, c)| == |s|
    ensures TopTen(s, c) == SortDescending(s, c)[..Min(10, |s|)]
  {
    SortMeaning(s, c);
    assert |multiset(SortDescending(s, c))| == |multiset(s)|;
  }

  /** The first `m` games of a list in descending order come before the rest, none of which has a larger key. */
  lemma PrefixOfSorted(t: seq<Game>, m: int, c: Criterion)
    requires Descending(t, c) && 0 <= m <= |t|
    ensures Descending(t[..m], c)
    ensures multiset(t[..m]) <= multiset(t)
    ensures multiset(t) - multiset(t[..m]) == multiset(t[m..])
    ensures forall x, y :: x in multiset(t) - multiset(t[..m]) && y in t[..m] ==> Key(x, c) <= Key(y, c)
  {
    PrefixMultiset(t, m);
    TailBelowHead(t, m, c);
  }

  /** In a list in descending order, no game after position `m` has a larger key than one before it. */
  lemma TailBelowHead(t: seq<Game>, m: int, c: Criterion)
    requires Descending(t, c) && 0 <= m <= |t|
    ensures forall x, y :: x in t[m..] && y in t[..m] ==> Key(x, c) <= Key(y, c)
  {
    forall x, y | x in t[m..] && y in t[..m]
      ensures Key(x, c) <= Key(y, c)
    {
      var i :| 0 <= i < |t| - m && t[m..][i] == x;
      var j :| 0 <= j < m && t[..m][j] == y;
      assert t[j] == y && t[m + i] == x;
    }
  }

  /** A prefix and the rest of a list split its multiset of games between them. */
  lemma PrefixMultiset(t: seq<Game>, m: int)
    requires 0 <= m <= |t|
    ensures multiset(t) == multiset(t[..m]) + multiset(t[m..])
    ensures multiset(t[..m]) <= multiset(t)
    ensures multiset(t) - multiset(t[..m]) == multiset(t[m..])
  {
    assert t == t[..m] + t[m..];
  }

  lemma PopularIsTopTen(gameData: seq<Game>)
    ensures |GetGamePopular(gameData)| == Min(10, |gameData|)
    ensures Descending(GetGamePopular(gameData), ByReviews)
    ensures multiset(GetGamePopular(gameData)) <= multiset(gameData)
    ensures forall x, y :: x in multiset(gameData) - multiset(GetGamePopular(gameData)) && y in GetGamePopular(gameData) ==>
              x.numberReview <= y.numberReview
  {
    var top := GetGamePopular(gameData);
    TopTenMeaning(gameData, ByReviews);
    forall x, y | x in multiset(gameData) - multiset(top) && y in top
      ensures x.numberReview <= y.numberReview
    {
      assert Key(x, ByReviews) <= Key(y, ByReviews);
    }
  }

  lemma BestIsTopTen(gameData: seq<Game>)
    ensures |GetGameBest(gameData)| == Min(10, |gameData|)
    ensures Descending(GetGameBest(gameData), ByRating)
    ensures multiset(GetGameBest(gameData)) <= multiset(gameData)
    ensures forall x, y :: x in multiset(gameData) - multiset(GetGameBest(gameData)) && y in GetGameBest(gameData) ==>
              x.avgRating <= y.avgRating
  {
    var top := GetGameBest(gameData);
    TopTenMeaning(gameData, ByRating);
    forall x, y | x in multiset(gameData) - multiset(top) && y in top
      ensures x.avgRating <= y.avgRating
    {
      assert Key(x, ByRating) <= Key(y, ByRating);
    }
  }

  // ---------------------------------------------------------------- pages

  /** GetGamePagination: the slice [(page - 1) * limit, page * limit). */
  function GetGamePagination(gameData: seq<Game>, page: int, limit: int): seq<Game>
  {
    JsSlice(gameData, (page - 1) * limit, page * limit)
  }

  /** From page 1 on, a page is the part of the list from (page - 1) * limit to page * limit, clipped to its length. */
  lemma PageBounds(gameData: seq<Game>, page: int, limit: nat)
    requires page >= 1
    ensures GetGamePagination(gameData, page, limit) ==
              gameData[Min((page - 1) * limit, |gameData|)..Min(page * limit, |gameData|)]
    ensures |GetGamePagination(gameData, page, limit)| <= limit
  {
    assert (page - 1) * limit <= page * limit;
  }

  /** The pages 1 .. k, one after the other. */
  function FirstPages(gameData: seq<Game>, k: nat, limit: nat): seq<Game>
  {
    if k == 0 then [] else FirstPages(gameData, k - 1, limit) + GetGamePagination(gameData, k, limit)
  }

  /** Consecutive pages follow each other without gap or overlap: pages 1 .. k are the first k * limit games. */
  lemma {:induction false} PagesInOrder(gameData: seq<Game>, k: nat, limit: nat)
    ensures FirstPages(gameData, k, limit) == gameData[..Min(k * limit, |gameData|)]
  {
    if k > 0 {
      PagesInOrder(gameData, k - 1, limit);
      PageBounds(gameData, k, limit);
      MulStep(k, limit);
      SliceJoin(gameData, Min((k - 1) * limit, |gameData|), Min(k * limit, |gameData|));
    }
  }

  lemma MulStep(k: nat, limit: nat)
    requires k > 0
    ensures 0 <= (k - 1) * limit <= k * limit
  {
    assert k * limit == (k - 1) * limit + limit;
  }

  lemma SliceJoin(s: seq<Game>, a: nat, b: nat)
    requires a <= b <= |s|
    ensures s[..a] + s[a..b] == s[..b]
  {
  }

  /** What storage gives, or what the fetch returned when storage holds fewer than ten games; None when that fetch failed. */
  function GameData(stored: Option<seq<Game>>, fetched: Option<seq<Game>>): (r: Option<seq<Game>>)
    ensures stored.Some? && |stored.value| >= 10 ==> r == stored
    ensures (stored.None? || |stored.value| < 10) ==> r == fetched
  {
    if stored.None? || |stored.value| < 10 then fetched else stored
  }

  /** The outcome of a page load: its return value, the games shown and what storage then holds. */
  datatype GamesLoad = GamesLoad(ok: bool, shown: seq<Game>, storage: Option<seq<Game>>)

  /** LoadGamesContent: the requested page of the game list; false when the data could not be fetched or the page is empty. */
  function LoadGamesContent(page: int, limit: int, stored: Option<seq<Game>>, fetched: Option<seq<Game>>): GamesLoad
  {
    match GameData(stored, fetched)
    case None => GamesLoad(false, [], stored)
    case Some(data) =>
      var items := JsSlice(data, (page - 1) * limit, page * limit);
      if items == [] then GamesLoad(false, [], Some(data)) else GamesLoad(true, items, Some(data))
  }

  /** The list load succeeds exactly when there is data and the page holds a game; it then shows that page and keeps the data in storage. */
  lemma LoadGamesMeaning(page: int, limit: int, stored: Option<seq<Game>>, fetched: Option<seq<Game>>)
    ensures var r := LoadGamesContent(page, limit, stored, fetched);
            && (r.ok <==> GameData(stored, fetched).Some? && GetGamePagination(GameData(stored, fetched).value, page, limit) != [])
            && (r.ok ==> r.shown == GetGamePagination(GameData(stored, fetched).value, page, limit))
            && (GameData(stored, fetched).Some? ==> r.storage == GameData(stored, fetched))
            && (GameData(stored, fetched).None? ==> r.storage == stored)
  {
  }

  /** The page count LoadHomeContent hands to the pager: the length divided by ten, not rounded. */
  function HomePageCount(n: nat): real
  {
    n as real / 10.0
  }

  /** The page count the pager clicks use: the length divided by `per`, rounded up. */
  function PageCount(n: nat, per: nat): (r: nat)
    requires per > 0
    ensures (r - 1) * per < n <= r * per || (n == 0 && r == 0)
  {
    (n + per - 1) / per
  }

  /** What the home page shows: the two top-10 lists, the page, and the pager buttons; `failed` when the fetch failed. */
  datatype Home = Home(failed: bool, popular: seq<Game>, best: seq<Game>, items: seq<Game>, pager: seq<Pagination.Button>)

  /** LoadHomeContent, as written: the pager gets length / 10 unrounded as its page count. */
  function LoadHomeContent(page: int, limit: int, stored: Option<seq<Game>>, fetched: Option<seq<Game>>): Home
  {
    match GameData(stored, fetched)
    case None => Home(true, [], [], [], [])
    case Some(data) =>
      Home(false, GetGamePopular(data), GetGameBest(data), GetGamePagination(data, page, limit),
           Pagination.Buttons(page, HomePageCount(|data|)))
  }

  /** LoadHomeContent with the page count rounded up, as the pager clicks compute it. */
  function LoadHomeContentCeil(page: int, limit: int, stored: Option<seq<Game>>, fetched: Option<seq<Game>>): Home
  {
    match GameData(stored, fetched)
    case None => Home(true, [], [], [], [])
    case Some(data) =>
      Home(false, GetGamePopular(data), GetGameBest(data), GetGamePagination(data, page, limit),
           Pagination.Buttons(page, PageCount(|data|, 10) as real))
  }

  /** A list of 25 stored games. */
  function TwentyFive(): (s: seq<Game>)
    ensures |s| == 25
  {
    seq(25, i => Game(i, 0, 0.0))
  }

  /**
   * With 25 games the unrounded count is 2.5: on page 1 the pager numbers only
   * pages 1 and 2, so page 3 has no button; on page 3 the current page is not
   * numbered at all.
   */
  lemma FractionalCountHidesLastPage()
    ensures Pagination.Shown(1, HomePageCount(|TwentyFive()|)) == [1.0, 2.0]
    ensures LoadHomeContent(3, 10, Some(TwentyFive()), None).pager ==
              [Pagination.Prev(2), Pagination.Page(1.0, false), Pagination.Page(2.0, false)]
  {
    var t := HomePageCount(|TwentyFive()|);
    assert t == 2.5;
    assert Pagination.Window(1, t) == (1.0, 2.5);
    assert Pagination.Numbers(1.0, 2.5) == [1.0, 2.0];
    assert Pagination.Window(3, t) == (1.0, 2.5);
    assert Pagination.PageButtons([1.0, 2.0], 3) == [Pagination.Page(1.0, false), Pagination.Page(2.0, false)];
  }

  /** With the count rounded up, every page from 1 to the last is numbered and marked active when it is the current one. */
  lemma CeilCountShowsEveryPage(page: int, limit: int, stored: Option<seq<Game>>, fetched: Option<seq<Game>>)
    requires GameData(stored, fetched).Some?
    requires 1 <= page <= PageCount(|GameData(stored, fetched).value|, 10)
    ensures Pagination.Page(page as real, true) in LoadHomeContentCeil(page, limit, stored, fetched).pager
    ensures forall b :: b in LoadHomeContentCeil(page, limit, stored, fetched).pager && b.Page? ==>
              1.0 <= b.number <= PageCount(|GameData(stored, fetched).value|, 10) as real
  {
    var n := PageCount(|GameData(stored, fetched).value|, 10);
    Pagination.CurrentShown(page, n);
    var bs := Pagination.Buttons(page, n as real);
    var prev: seq<Pagination.Button> := if page > 1 then [Pagination.Prev(page - 1)] else [];
    var next: seq<Pagination.Button> := if (page as real) < n as real then [Pagination.Next(page + 1)] else [];
    var pages := Pagination.PageButtons(Pagination.Shown(page, n as real), page);
    assert bs == prev + pages + next;
    forall b | b in bs && b.Page?
      ensures 1.0 <= b.number <= n as real
    {
      assert b in pages;
      var k :| 0 <= k < |pages| && pages[k] == b;
      assert b.number == Pagination.Shown(page, n as real)[k];
    }
  }
}
