/**
 * The page window of the home-page pager (Server/extra_files/www/User/js/view.js,
 * updatePaginationUI): at most three numbered buttons around the current page,
 * shifted left near the end, with a Prev and a Next button when there is a page
 * to go to. The page count is a JavaScript number and may be fractional, so the
 * window's bounds and the numbered buttons are reals; the current page is always
 * an integer. The DOM writes are replaced by the list of buttons appended.
 */
module Pagination {

  /** How many numbered buttons the window shows at most. */
  const MaxVisible: int := 3

  /** A button of the pager: the page it leads to, and for a numbered one whether it is marked active. */
  datatype Button = Prev(target: int) | Page(number: real, active: bool) | Next(target: int)

  function Max(a: real, b: real): real
  {
    if a >= b then a else b
  }

  /** The first and the last page number of the window, as (start, end). */
  function Window(current: int, total: real): (real, real)
  {
    var start := Max(1.0, (current - MaxVisible / 2) as real);
    var end := start + (MaxVisible - 1) as real;
    if end > total then (Max(1.0, total - (MaxVisible - 1) as real), total) else (start, end)
  }

  /** The numbers start, start + 1, ... up to end, which the loop over the window visits. */
  function Numbers(start: real, end: real): (ns: seq<real>)
    ensures forall k :: 0 <= k < |ns| ==> ns[k] == start + k as real && ns[k] <= end
    ensures |ns| > 0 ==> end < ns[|ns| - 1] + 1.0
    ensures ns == [] <==> end < start
  {
    if start > end then [] else seq((end - start).Floor + 1, k => start + k as real)
  }

  /** The numbered buttons for `ns`, the one equal to `current` marked active. */
  function PageButtons(ns: seq<real>, current: int): (bs: seq<Button>)
    ensures |bs| == |ns|
    ensures forall k :: 0 <= k < |ns| ==> bs[k] == Page(ns[k], ns[k] == current as real)
  {
    seq(|ns|, k requires 0 <= k < |ns| => Page(ns[k], ns[k] == current as real))
  }

  /** The page numbers the window shows. */
  function Shown(current: int, total: real): seq<real>
  {
    Numbers(Window(current, total).0, Window(current, total).1)
  }

  /** The buttons of the pager, in the order they are appended. */
  function Buttons(current: int, total: real): seq<Button>
  {
    (if current > 1 then [Prev(current - 1)] else [])
    + PageButtons(Shown(current, total), current)
    + (if (current as real) < total then [Next(current + 1)] else [])
  }

  /** updatePaginationUI: the window bounds, then the loop appending one button per page. */
  method UpdatePaginationUI(currentPage: int, totalPages: real) returns (buttons: seq<Button>)
    ensures buttons == Buttons(currentPage, totalPages)
  {
    var start := Max(1.0, (currentPage - MaxVisible / 2) as real);
    var end := start + (MaxVisible - 1) as real;
    if end > totalPages {
      end := totalPages;
      start := Max(1.0, end - (MaxVisible - 1) as real);
    }
    assert (start, end) == Window(currentPage, totalPages);
    var prev: seq<Button> := if currentPage > 1 then [Prev(currentPage - 1)] else [];
    buttons := AppendPages(prev, start, end, currentPage);
    if (currentPage as real) < totalPages {
      buttons := buttons + [Next(currentPage + 1)];
    }
  }

  /** The loop of updatePaginationUI: one numbered button for each of start, start + 1, ... up to end. */
  method AppendPages(prev: seq<Button>, start: real, end: real, currentPage: int) returns (buttons: seq<Button>)
    ensures buttons == prev + PageButtons(Numbers(start, end), currentPage)
  {
    buttons := prev;
    ghost var ns := Numbers(start, end);
    var i := start;
    ghost var k := 0;
    while i <= end
      invariant 0 <= k <= |ns| && i == start + k as real
      invariant k < |ns| ==> i <= end
      invariant buttons == prev + PageButtons(ns[..k], currentPage)
      decreases (end - i).Floor + 1
    {
      PageButtonsPush(ns, k, currentPage);
      buttons := buttons + [Page(i, i == currentPage as real)];
      i := i + 1.0;
      k := k + 1;
    }
    assert ns[..k] == ns;
  }

  /** One more number gives one more button, for that number. */
  lemma PageButtonsPush(ns: seq<real>, k: nat, current: int)
    requires k < |ns|
    ensures PageButtons(ns[..k + 1], current) == PageButtons(ns[..k], current) + [Page(ns[k], ns[k] == current as real)]
  {
    assert ns[..k + 1] == ns[..k] + [ns[k]];
  }

  /** At most three numbered buttons, for consecutive pages. */
  lemma AtMostThree(current: int, total: real)
    ensures |Shown(current, total)| <= MaxVisible
    ensures forall k :: 0 <= k < |Shown(current, total)| ==> Shown(current, total)[k] == Shown(current, total)[0] + k as real
  {
    var (s, e) := Window(current, total);
    assert e - s <= 2.0;
  }

  /** The window over whole numbers, as updatePaginationUI computes it when the page count is whole. */
  function WholeWindow(current: int, total: int): (int, int)
  {
    var start := if current - 1 >= 1 then current - 1 else 1;
    if start + 2 > total then (if total - 2 >= 1 then total - 2 else 1, total) else (start, start + 2)
  }

  lemma WindowIsWhole(current: int, total: int)
    ensures Window(current, total as real) == (WholeWindow(current, total).0 as real, WholeWindow(current, total).1 as real)
  {
  }

  /** Between whole bounds the loop visits b - a + 1 numbers. */
  lemma WholeNumbers(a: int, b: int)
    requires a <= b
    ensures |Numbers(a as real, b as real)| == b - a + 1
  {
    assert (b as real - a as real).Floor == b - a;
  }

  /**
   * With a whole page count and the current page among the pages, the numbered
   * buttons stay within 1 .. total, are whole numbers, and the current page is
   * among them, marked active; no other button is active.
   */
  lemma CurrentShown(current: int, total: int)
    requires 1 <= current <= total
    ensures forall x :: x in Shown(current, total as real) ==> 1.0 <= x <= total as real && x == x.Floor as real
    ensures (current as real) in Shown(current, total as real)
    ensures Page(current as real, true) in Buttons(current, total as real)
    ensures forall b :: b in Buttons(current, total as real) && b.Page? && b.active ==> b.number == current as real
  {
    var (a, b) := WholeWindow(current, total);
    assert 1 <= a <= current <= b <= total;
    WindowIsWhole(current, total);
    WholeNumbers(a, b);
    var ns := Shown(current, total as real);
    assert ns == Numbers(a as real, b as real);
    forall x | x in ns
      ensures 1.0 <= x <= total as real && x == x.Floor as real
    {
      var k :| 0 <= k < |ns| && ns[k] == x;
      assert x == (a + k) as real;
    }
    assert ns[current - a] == current as real;
    CurrentPageButton(current, total as real, current - a);
  }

  /** A numbered button of the pager carries one of the numbers the window shows. */
  lemma PageButtonShown(current: int, total: real, btn: Button)
    requires btn in Buttons(current, total) && btn.Page?
    ensures btn.number in Shown(current, total)
  {
    var prev: seq<Button> := if current > 1 then [Prev(current - 1)] else [];
    var next: seq<Button> := if (current as real) < total then [Next(current + 1)] else [];
    var shown := PageButtons(Shown(current, total), current);
    assert Buttons(current, total) == prev + shown + next;
    assert btn in shown;
    var k :| 0 <= k < |shown| && shown[k] == btn;
  }

  /** The numbered button at the current page's place is that page, marked active, and is a button of the pager. */
  lemma CurrentPageButton(current: int, total: real, k: int)
    requires 0 <= k < |Shown(current, total)| && Shown(current, total)[k] == current as real
    ensures Page(current as real, true) in Buttons(current, total)
    ensures forall b :: b in Buttons(current, total) && b.Page? && b.active ==> b.number == current as real
  {
    var pages := PageButtons(Shown(current, total), current);
    assert pages[k] == Page(current as real, true);
    var prev: seq<Button> := if current > 1 then [Prev(current - 1)] else [];
    var next: seq<Button> := if (current as real) < total then [Next(current + 1)] else [];
    assert Buttons(current, total) == prev + pages + next;
  }

  /** Away from both ends the window is the current page and its two neighbours. */
  lemma MiddleWindow(current: int, total: real)
    requires 2 <= current && (current + 1) as real <= total
    ensures Shown(current, total) == [(current - 1) as real, current as real, (current + 1) as real]
  {
  }

  /** Near the end the window shifts left so that it finishes at the last page. */
  lemma ShiftedAtEnd(current: int, total: int)
    requires 1 <= total && Max(1.0, (current - 1) as real) + 2.0 > total as real
    ensures Shown(current, total as real) == Numbers(Max(1.0, (total - 2) as real), total as real)
    ensures |Shown(current, total as real)| > 0 && Shown(current, total as real)[|Shown(current, total as real)| - 1] == total as real
  {
    var ns := Shown(current, total as real);
    assert Window(current, total as real) == (Max(1.0, (total - 2) as real), total as real);
    var last := (total as real - Max(1.0, (total - 2) as real)).Floor;
    assert |ns| == last + 1;
  }

  /** A Prev button comes first exactly when the current page is past the first, and leads one page back. */
  lemma PrevButton(current: int, total: real)
    ensures Prev(current - 1) in Buttons(current, total) <==> current > 1
    ensures current > 1 ==> Buttons(current, total)[0] == Prev(current - 1)
  {
    var bs := Buttons(current, total);
    var pages := PageButtons(Shown(current, total), current);
    var next: seq<Button> := if (current as real) < total then [Next(current + 1)] else [];
    if current <= 1 {
      assert bs == pages + next;
      assert forall b :: b in pages ==> b.Page?;
    }
  }

  /** A Next button comes last exactly when the current page is before the count, and leads one page on. */
  lemma NextButton(current: int, total: real)
    ensures Next(current + 1) in Buttons(current, total) <==> (current as real) < total
    ensures (current as real) < total ==> Buttons(current, total)[|Buttons(current, total)| - 1] == Next(current + 1)
  {
    var bs := Buttons(current, total);
    var prev: seq<Button> := if current > 1 then [Prev(current - 1)] else [];
    var pages := PageButtons(Shown(current, total), current);
    if (current as real) >= total {
      assert bs == prev + pages;
      assert forall b :: b in prev ==> b.Prev?;
      assert forall b :: b in pages ==> b.Page?;
    }
  }

  /** A page count below one, zero included, gives no numbered button. */
  lemma NoPagesBelowOne(current: int, total: real)
    requires total < 1.0
    ensures Shown(current, total) == []
    ensures forall b :: b in Buttons(current, total) ==> !b.Page?
  {
    var prev: seq<Button> := if current > 1 then [Prev(current - 1)] else [];
    var next: seq<Button> := if (current as real) < total then [Next(current + 1)] else [];
    assert Buttons(current, total) == prev + [] + next;
  }
}
