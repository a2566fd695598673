/** The Pagination component of the follow lists: the window of page
    buttons around the current page, the "Showing a-b of n" range, and
    which controls it draws. */
module Pagination {
  import opened Common
  import opened Query

  /** At most this many numbered pages in the window. */
  const MaxVisible := 5

  function Max(a: int, b: int): int { if a >= b then a else b }
  function Min(a: int, b: int): int { if a <= b then a else b }

  /** `x` moved into `[lo, hi]` (with `lo <= hi`). */
  function Clamp(x: int, lo: int, hi: int): (r: int)
    requires lo <= hi
    ensures lo <= r <= hi
    ensures lo <= x <= hi ==> r == x
  {
    Min(Max(x, lo), hi)
  }

  /** `n` consecutive page numbers starting at `lo`. */
  function Span(lo: int, n: nat): (r: seq<int>)
    ensures |r| == n && forall k :: 0 <= k < n ==> r[k] == lo + k
  {
    seq(n, k requires 0 <= k < n => lo + k)
  }

  /** Consecutive page numbers, each one more than the one before. */
  predicate Consecutive(pages: seq<int>)
  {
    forall k :: 0 < k < |pages| ==> pages[k] == pages[k - 1] + 1
  }

  /** getPageNumbers: every page when there are at most five, otherwise the
      five pages centred on the current one and slid to fit in 1..totalPages. */
  method GetPageNumbers(currentPage: int, totalPages: int) returns (pages: seq<int>)
    ensures totalPages <= MaxVisible ==> pages == Span(1, Max(totalPages, 0))
    ensures totalPages > MaxVisible ==>
      pages == Span(Clamp(currentPage - 2, 1, totalPages - MaxVisible + 1), MaxVisible)
    ensures Consecutive(pages)
    ensures forall p :: p in pages ==> 1 <= p <= totalPages
    ensures 1 <= currentPage <= totalPages ==> currentPage in pages
  {
    pages := [];
    if totalPages <= MaxVisible {
      var i := 1;
      while i <= totalPages
        invariant 1 <= i <= Max(totalPages, 0) + 1
        invariant pages == Span(1, i - 1)
      {
        pages := pages + [i];
        i := i + 1;
      }
      if 1 <= currentPage <= totalPages {
        assert pages[currentPage - 1] == currentPage;
      }
    } else {
      var startPage := Max(1, currentPage - 2);
      var endPage := Min(totalPages, currentPage + 2);
      if currentPage <= 3 {
        endPage := Min(5, totalPages);
      } else if currentPage >= totalPages - 2 {
        startPage := Max(1, totalPages - 4);
      }
      assert startPage == Clamp(currentPage - 2, 1, totalPages - MaxVisible + 1);
      assert endPage == startPage + MaxVisible - 1;
      var i := startPage;
      while i <= endPage
        invariant startPage <= i <= endPage + 1
        invariant pages == Span(startPage, i - startPage)
      {
        pages := pages + [i];
        i := i + 1;
      }
      if 1 <= currentPage <= totalPages {
        assert pages[currentPage - startPage] == currentPage;
      }
    }
  }

  /** The first item on the page, counted from 1: `(currentPage || 1)` and
      `(itemsPerPage || 5)` default a zero prop. */
  function StartItem(currentPage: int, itemsPerPage: int): (r: int)
    ensures r >= 1
    ensures currentPage >= 1 && itemsPerPage >= 1 ==> r == (currentPage - 1) * itemsPerPage + 1
  {
    var page := OrDefault(Some(currentPage), 1);
    var per := OrDefault(Some(itemsPerPage), 5);
    Max(1, (page - 1) * per + 1)
  }

  /** The last item on the page, never past the total. */
  function EndItem(currentPage: int, itemsPerPage: int, totalItems: int): (r: int)
    ensures r <= totalItems
    ensures currentPage >= 1 && itemsPerPage >= 1 ==> r == Min(currentPage * itemsPerPage, totalItems)
  {
    var page := OrDefault(Some(currentPage), 1);
    var per := OrDefault(Some(itemsPerPage), 5);
    Min(page * per, OrDefault(Some(totalItems), 0))
  }

  /** "Showing a-b" names exactly the items of the page the backend sends:
      the page's first item is item a, and there are b - a + 1 of them. */
  lemma ShowingMatchesPage<T>(items: seq<T>, currentPage: int, itemsPerPage: int)
    requires currentPage >= 1 && itemsPerPage >= 1
    requires (currentPage - 1) * itemsPerPage < |items|
    ensures var offset := (currentPage - 1) * itemsPerPage;
      && offset >= 0
      && StartItem(currentPage, itemsPerPage) == offset + 1
      && EndItem(currentPage, itemsPerPage, |items|) - StartItem(currentPage, itemsPerPage) + 1
         == |Page(items, offset, itemsPerPage)|
  {
    var offset := (currentPage - 1) * itemsPerPage;
    MulMono(itemsPerPage, 0, currentPage - 1);
    assert currentPage * itemsPerPage == offset + itemsPerPage;
  }

  /** A page past the last item shows an empty range (its end comes before its start). */
  lemma PastTheEnd(currentPage: int, itemsPerPage: int, totalItems: int)
    requires currentPage >= 1 && itemsPerPage >= 1 && totalItems >= 0
    requires (currentPage - 1) * itemsPerPage >= totalItems
    ensures EndItem(currentPage, itemsPerPage, totalItems) < StartItem(currentPage, itemsPerPage)
  {
  }

  /** What the component draws. `buttons` are the page buttons left to
      right: the window, with a button for page 1 before it and one for the
      last page after it when the window leaves them out; `gapBefore` and
      `gapAfter` are the two "..." marks. */
  datatype View = View(
    startItem: int, endItem: int, totalItems: int,
    buttons: seq<int>, gapBefore: bool, gapAfter: bool,
    prevDisabled: bool, nextDisabled: bool)

  /** Pages strictly increasing from left to right. */
  predicate Increasing(pages: seq<int>)
  {
    forall i, j :: 0 <= i < j < |pages| ==> pages[i] < pages[j]
  }

  /** Consecutive pages are the span from the first of them. */
  lemma {:induction false} ConsecutiveIsSpan(pages: seq<int>)
    requires Consecutive(pages)
    ensures forall k :: 0 <= k < |pages| ==> pages[k] == pages[0] + k
  {
    if |pages| > 1 {
      var front := pages[..|pages| - 1];
      assert Consecutive(front) by {
        forall k | 0 < k < |front| ensures front[k] == front[k - 1] + 1 {
          assert front[k] == pages[k] && front[k - 1] == pages[k - 1];
        }
      }
      ConsecutiveIsSpan(front);
      assert forall k :: 0 <= k < |front| ==> pages[k] == front[k];
      assert pages[|pages| - 1] == pages[|pages| - 2] + 1;
    }
  }

  /** 1 when the window leaves out page 1 and a button for it goes first. */
  function Lead(window: seq<int>): nat
    requires window != []
  {
    if window[0] > 1 then 1 else 0
  }

  /** The page buttons around a window of consecutive pages within
      1..totalPages: a button for page 1 when the window leaves it out, the
      window, and a button for the last page when the window leaves it out. */
  function Buttons(window: seq<int>, totalPages: int): (r: seq<int>)
    requires window != [] && Consecutive(window)
    requires forall p :: p in window ==> 1 <= p <= totalPages
    ensures |r| == Lead(window) + |window| + (if window[|window| - 1] < totalPages then 1 else 0)
    ensures forall i :: 0 <= i < |r| ==>
      r[i] ==
      (if i < Lead(window) then 1
       else if i < Lead(window) + |window| then window[0] + (i - Lead(window))
       else totalPages)
  {
    ConsecutiveIsSpan(window);
    var first := if window[0] > 1 then [1] else [];
    var last := if window[|window| - 1] < totalPages then [totalPages] else [];
    first + window + last
  }

  /** The buttons run from page 1 to the last page, in increasing order. */
  lemma ButtonsSpanAllPages(window: seq<int>, totalPages: int)
    requires window != [] && Consecutive(window)
    requires forall p :: p in window ==> 1 <= p <= totalPages
    ensures var r := Buttons(window, totalPages);
      && r[0] == 1 && r[|r| - 1] == totalPages && Increasing(r)
      && (forall p :: p in r ==> 1 <= p <= totalPages)
      && forall p :: p in window ==> p in r
  {
    var r := Buttons(window, totalPages);
    var n := |window|;
    assert window[0] in window && window[n - 1] in window;
    ConsecutiveIsSpan(window);
    forall p | p in window ensures p in r {
      var k :| 0 <= k < n && window[k] == p;
      assert r[Lead(window) + k] == p;
    }
  }

  /** Buttons skip pages only right after the first one and right before
      the last one, and they do so exactly when the window leaves out more
      than page 1, or more than the last page. */
  lemma ButtonsSkipOnlyAtEnds(window: seq<int>, totalPages: int)
    requires |window| >= 2 && Consecutive(window)
    requires forall p :: p in window ==> 1 <= p <= totalPages
    ensures var r := Buttons(window, totalPages);
      && (r[1] > r[0] + 1 <==> window[0] > 2)
      && (r[|r| - 1] > r[|r| - 2] + 1 <==> window[|window| - 1] < totalPages - 1)
      && forall k :: 1 <= k < |r| - 2 ==> r[k + 1] == r[k] + 1
  {
    var n := |window|;
    assert window[0] in window && window[n - 1] in window;
    ConsecutiveIsSpan(window);
  }

  /** How the page buttons and the two "..." marks are laid out: page 1
      first and the last page last, in increasing order, the current page
      among them, consecutive except right after the first and right before
      the last, and a "..." exactly where pages are skipped. */
  predicate WellLaidOut(b: seq<int>, gapBefore: bool, gapAfter: bool, currentPage: int, totalPages: int)
  {
    && |b| >= 2 && b[0] == 1 && b[|b| - 1] == totalPages && Increasing(b)
    && (forall p :: p in b ==> 1 <= p <= totalPages)
    && (1 <= currentPage <= totalPages ==> currentPage in b)
    && (gapBefore <==> b[1] > b[0] + 1)
    && (gapAfter <==> b[|b| - 1] > b[|b| - 2] + 1)
    && (forall k :: 1 <= k < |b| - 2 ==> b[k + 1] == b[k] + 1)
  }

  /** The buttons around any window of two or more consecutive pages that
      holds the current page are well laid out, with a "..." after page 1
      when the window starts past page 2 and one before the last page when
      it ends before the page next to last. */
  lemma LaidOut(window: seq<int>, currentPage: int, totalPages: int)
    requires |window| >= 2 && Consecutive(window)
    requires forall p :: p in window ==> 1 <= p <= totalPages
    requires 1 <= currentPage <= totalPages ==> currentPage in window
    ensures WellLaidOut(Buttons(window, totalPages),
      window[0] > 1 && window[0] > 2,
      window[|window| - 1] < totalPages && window[|window| - 1] < totalPages - 1,
      currentPage, totalPages)
  {
    ButtonsSpanAllPages(window, totalPages);
    ButtonsSkipOnlyAtEnds(window, totalPages);
  }

  /** The markup returned for more than one page, around the window of
      page numbers: the range, the buttons with their "..." marks (the first
      button and its mark only when the window starts past page 1, the last
      ones only when it ends before the last page), and the two arrows. */
  function Controls(window: seq<int>, currentPage: int, totalPages: int,
                    startItem: int, endItem: int, totalItems: int, isLoading: bool): (v: View)
    requires |window| >= 2 && Consecutive(window)
    requires forall p :: p in window ==> 1 <= p <= totalPages
    requires 1 <= currentPage <= totalPages ==> currentPage in window
    ensures v.startItem == startItem && v.endItem == endItem && v.totalItems == totalItems
    ensures WellLaidOut(v.buttons, v.gapBefore, v.gapAfter, currentPage, totalPages)
    ensures v.prevDisabled <==> currentPage == 1 || isLoading
    ensures v.nextDisabled <==> currentPage == totalPages || isLoading
  {
    LaidOut(window, currentPage, totalPages);
    View(startItem, endItem, totalItems, Buttons(window, totalPages),
      window[0] > 1 && window[0] > 2,
      window[|window| - 1] < totalPages && window[|window| - 1] < totalPages - 1,
      currentPage == 1 || isLoading, currentPage == totalPages || isLoading)
  }

  /** The component: nothing at all for a single page (or none), otherwise
      the range, the page buttons and the two arrows. */
  method Render(currentPage: int, totalPages: int, totalItems: int, itemsPerPage: int, isLoading: bool)
    returns (v: Option<View>)
    ensures v.None? <==> totalPages <= 1
    ensures v.Some? ==>
      && v.value.startItem == StartItem(currentPage, itemsPerPage)
      && v.value.endItem == EndItem(currentPage, itemsPerPage, totalItems)
      && v.value.totalItems == totalItems
    ensures v.Some? ==>
      WellLaidOut(v.value.buttons, v.value.gapBefore, v.value.gapAfter, currentPage, totalPages)
    ensures v.Some? && totalPages <= MaxVisible ==> v.value.buttons == Buttons(Span(1, totalPages), totalPages)
    ensures v.Some? && totalPages > MaxVisible ==>
      v.value.buttons == Buttons(Span(Clamp(currentPage - 2, 1, totalPages - MaxVisible + 1), MaxVisible), totalPages)
    ensures v.Some? ==>
      && (v.value.prevDisabled <==> currentPage == 1 || isLoading)
      && (v.value.nextDisabled <==> currentPage == totalPages || isLoading)
  {
    var pageNumbers := GetPageNumbers(currentPage, totalPages);
    var startItem := StartItem(currentPage, itemsPerPage);
    var endItem := EndItem(currentPage, itemsPerPage, totalItems);
    if totalPages <= 1 {
      return None;
    }
    assert |pageNumbers| >= 2;
    v := Some(Controls(pageNumbers, currentPage, totalPages, startItem, endItem, totalItems, isLoading));
  }
}
