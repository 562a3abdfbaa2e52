/** The pagination engine of the search page (the `usePagination` hook).

    From the item count, the page size and the offset of the first item on
    screen it derives the current page, the page count, the two navigation
    flags and the sliding window of page numbers; its navigation helpers turn
    a page request into the offset handed to the page-change callback, or into
    no call at all when the page is out of range. */
module Pagination {
  import opened Options

  /** Page sizes are positive; the hook divides by them. */
  type Positive = n: int | n > 0 witness 1

  /** At most this many numbered buttons are shown at once. */
  const MaxVisiblePages: nat := 10

  /** The three inputs of the hook. */
  datatype PageRequest = PageRequest(total: nat, limit: Positive, offset: nat)

  /** Everything the hook returns apart from the navigation callbacks. */
  datatype PageInfo = PageInfo(
    currentPage: int,
    totalPages: nat,
    hasNextPage: bool,
    hasPrevPage: bool,
    pageNumbers: seq<int>)

  function Min(a: int, b: int): int { if a <= b then a else b }
  function Max(a: int, b: int): int { if a >= b then a else b }

  /** The integers lo, lo+1, ..., hi in ascending order (empty when hi < lo). */
  function Range(lo: int, hi: int): seq<int>
  {
    seq(if lo <= hi then hi - lo + 1 else 0, i => lo + i)
  }

  /** Multiplying by a page size preserves order. */
  lemma MulMonotonic(a: int, b: int, limit: Positive)
    requires a <= b
    ensures a * limit <= b * limit
  {
    assert b * limit - a * limit == (b - a) * limit;
  }

  /** Dividing a whole number of pages by the page size gives back the page count. */
  lemma DivMulCancel(k: int, limit: Positive)
    ensures (k * limit) / limit == k
    ensures (k * limit) % limit == 0
  {
    var q, m := (k * limit) / limit, (k * limit) % limit;
    assert (k - q) * limit == m;
    if k - q >= 1 {
      MulMonotonic(1, k - q, limit);
    } else if k - q <= -1 {
      MulMonotonic(k - q, -1, limit);
    }
  }

  lemma RangeMembership(lo: int, hi: int, x: int)
    ensures x in Range(lo, hi) <==> lo <= x <= hi
  {
    if lo <= x <= hi {
      assert Range(lo, hi)[x - lo] == x;
    }
  }

  /** The page holding item `offset`: floor(offset / limit) + 1. */
  function CurrentPage(limit: Positive, offset: nat): (page: int)
    ensures page >= 1
    ensures (page - 1) * limit <= offset < page * limit
  {
    offset / limit + 1
  }

  /** ceil(total / limit): the fewest pages of `limit` items that hold `total` items. */
  function TotalPages(total: nat, limit: Positive): (pages: nat)
    ensures pages * limit >= total
    ensures pages > 0 ==> (pages - 1) * limit < total
    ensures pages == 0 <==> total == 0
  {
    if total % limit == 0 then total / limit else total / limit + 1
  }

  predicate HasNextPage(r: PageRequest)
  {
    CurrentPage(r.limit, r.offset) < TotalPages(r.total, r.limit)
  }

  predicate HasPrevPage(r: PageRequest)
  {
    CurrentPage(r.limit, r.offset) > 1
  }

  /** First and last page of the window: centred start clamped to 1, end
      clamped to the page count, then the start re-anchored so that the
      window is as wide as the page count allows. */
  function WindowBounds(currentPage: int, totalPages: nat): (int, int)
  {
    var start := Max(1, currentPage - MaxVisiblePages / 2);
    var end := Min(totalPages, start + MaxVisiblePages - 1);
    if end - start + 1 < MaxVisiblePages then
      (Max(1, end - MaxVisiblePages + 1), end)
    else
      (start, end)
  }

  /** The sliding window of page numbers to show as buttons. */
  function PageNumbers(currentPage: int, totalPages: nat): (pages: seq<int>)
    ensures |pages| == Min(totalPages, MaxVisiblePages)
    ensures forall i :: 0 <= i < |pages| ==> 1 <= pages[i] <= totalPages
    ensures forall i :: 0 < i < |pages| ==> pages[i] == pages[i - 1] + 1
    ensures 1 <= currentPage <= totalPages ==> currentPage in pages
  {
    var (start, end) := WindowBounds(currentPage, totalPages);
    RangeMembership(start, end, currentPage);
    Range(start, end)
  }

  /** The hook's derived values for one input triple. */
  function Paginate(r: PageRequest): (info: PageInfo)
    ensures info.currentPage >= 1
    ensures info.currentPage == CurrentPage(r.limit, r.offset)
    ensures info.totalPages == TotalPages(r.total, r.limit)
    ensures info.totalPages == 0 <==> r.total == 0
    ensures info.hasNextPage <==> info.currentPage < info.totalPages
    ensures info.hasPrevPage <==> info.currentPage > 1
    ensures info.pageNumbers == PageNumbers(info.currentPage, info.totalPages)
  {
    var current := CurrentPage(r.limit, r.offset);
    var pages := TotalPages(r.total, r.limit);
    PageInfo(current, pages, HasNextPage(r), HasPrevPage(r), PageNumbers(current, pages))
  }

  /** A next page exists exactly when some item lies past the current page. */
  lemma HasNextPageMeansMoreItems(r: PageRequest)
    ensures HasNextPage(r) <==> CurrentPage(r.limit, r.offset) * r.limit < r.total
  {
    var current, pages := CurrentPage(r.limit, r.offset), TotalPages(r.total, r.limit);
    if current < pages {
      MulMonotonic(current, pages - 1, r.limit);
    } else {
      MulMonotonic(pages, current, r.limit);
    }
  }

  /** A previous page exists exactly when the offset is at least one page in. */
  lemma HasPrevPageMeansOffsetPastFirstPage(r: PageRequest)
    ensures HasPrevPage(r) <==> r.offset >= r.limit
  {
  }

  /** Navigation to page `page`: the offset of its first item, or no callback
      when the page lies outside 1..totalPages. */
  function GoToPage(r: PageRequest, page: int): (offset: Option<nat>)
    ensures offset.Some? <==> 1 <= page <= TotalPages(r.total, r.limit)
    ensures offset.Some? ==> offset.value % r.limit == 0
    ensures offset.Some? ==> offset.value < r.total
    ensures offset.Some? ==> CurrentPage(r.limit, offset.value) == page
  {
    if 1 <= page <= TotalPages(r.total, r.limit) then
      DivMulCancel(page - 1, r.limit);
      MulMonotonic(page - 1, TotalPages(r.total, r.limit) - 1, r.limit);
      Some((page - 1) * r.limit)
    else
      None
  }

  /** An aligned offset is the first item of the page it lies on. */
  lemma AlignedOffsetIsPageStart(limit: Positive, offset: nat, page: int)
    requires offset % limit == 0
    requires CurrentPage(limit, offset) == page
    ensures offset == (page - 1) * limit
  {
  }

  function GoToNextPage(r: PageRequest): (offset: Option<nat>)
    ensures offset.Some? <==> HasNextPage(r)
    ensures offset.Some? ==> CurrentPage(r.limit, offset.value) == CurrentPage(r.limit, r.offset) + 1
    ensures offset.Some? ==> offset.value == CurrentPage(r.limit, r.offset) * r.limit
  {
    if HasNextPage(r) then
      var offset := GoToPage(r, CurrentPage(r.limit, r.offset) + 1);
      AlignedOffsetIsPageStart(r.limit, offset.value, CurrentPage(r.limit, r.offset) + 1);
      offset
    else
      None
  }

  /** Previous-page navigation. Besides the `hasPrevPage` guard it inherits
      the range check of `GoToPage`, so from an offset two or more pages past
      the last page it emits nothing even though a previous page is reported. */
  function GoToPrevPage(r: PageRequest): (offset: Option<nat>)
    ensures offset.Some? <==> HasPrevPage(r) && CurrentPage(r.limit, r.offset) - 1 <= TotalPages(r.total, r.limit)
    ensures offset.Some? ==> CurrentPage(r.limit, offset.value) == CurrentPage(r.limit, r.offset) - 1
    ensures offset.Some? ==> offset.value == (CurrentPage(r.limit, r.offset) - 2) * r.limit
  {
    if HasPrevPage(r) then
      var offset := GoToPage(r, CurrentPage(r.limit, r.offset) - 1);
      if offset.Some? then
        AlignedOffsetIsPageStart(r.limit, offset.value, CurrentPage(r.limit, r.offset) - 1);
        offset
      else
        offset
    else
      None
  }

  function GoToFirstPage(r: PageRequest): (offset: Option<nat>)
    ensures offset.Some? <==> r.total > 0
    ensures offset.Some? ==> offset.value == 0
  {
    GoToPage(r, 1)
  }

  /** Navigation to the last page: the offset of the page that holds the last item. */
  function GoToLastPage(r: PageRequest): (offset: Option<nat>)
    ensures offset.Some? <==> r.total > 0
    ensures offset.Some? ==> offset.value % r.limit == 0
    ensures offset.Some? ==> offset.value < r.total <= offset.value + r.limit
  {
    GoToPage(r, TotalPages(r.total, r.limit))
  }

  /** An independent description of the window: the ten pages centred on the
      current one (five before it, four after), slid right or left just far
      enough to fit inside 1..totalPages, and cut short only when fewer than
      ten pages exist. */
  lemma WindowIsShiftedCentre(currentPage: int, totalPages: nat)
    ensures var start := Min(Max(1, currentPage - 5), Max(1, totalPages - 9));
            PageNumbers(currentPage, totalPages) == Range(start, Min(totalPages, start + 9))
  {
    var start := Min(Max(1, currentPage - 5), Max(1, totalPages - 9));
    var (s, e) := WindowBounds(currentPage, totalPages);
    assert s == start && e == Min(totalPages, start + 9);
  }

  /** Away from both ends the window is exactly the current page with five
      pages before it and four after it. */
  lemma CentredAwayFromEnds(currentPage: int, totalPages: nat)
    requires 6 <= currentPage <= totalPages - 4
    ensures PageNumbers(currentPage, totalPages) == Range(currentPage - 5, currentPage + 4)
  {
    WindowIsShiftedCentre(currentPage, totalPages);
  }

  /** Going to the page that holds an aligned offset gives that offset back. */
  lemma OffsetPageRoundTrip(r: PageRequest)
    requires r.offset < r.total
    requires r.offset % r.limit == 0
    ensures GoToPage(r, CurrentPage(r.limit, r.offset)) == Some(r.offset)
  {
    var current, pages := CurrentPage(r.limit, r.offset), TotalPages(r.total, r.limit);
    if current > pages {
      MulMonotonic(pages, current - 1, r.limit);
    }
    assert (current - 1) * r.limit == r.offset;
  }

  /** Next then previous, from a page that has a successor, lands on the first
      item of the page one started on. */
  lemma NextThenPrev(r: PageRequest)
    requires HasNextPage(r)
    ensures var next := GoToNextPage(r).value;
            GoToPrevPage(r.(offset := next)) == GoToPage(r, CurrentPage(r.limit, r.offset))
  {
  }

  /** Previous then next, from a page inside 1..totalPages that has a
      predecessor, lands on the first item of the page one started on. */
  lemma PrevThenNext(r: PageRequest)
    requires HasPrevPage(r)
    requires CurrentPage(r.limit, r.offset) <= TotalPages(r.total, r.limit)
    ensures var prev := GoToPrevPage(r).value;
            GoToNextPage(r.(offset := prev)) == GoToPage(r, CurrentPage(r.limit, r.offset))
  {
  }

  /** With an offset beyond the last page a previous page is reported, yet
      previous-page navigation calls nothing: 95 items of 20 per page at
      offset 200 put the current page at 11 of 5. */
  lemma PrevInertPastLastPage()
    ensures var r := PageRequest(95, 20, 200);
            HasPrevPage(r) && GoToPrevPage(r) == None
  {
  }

  /** Worked examples of the derived values. */
  lemma Examples()
    ensures Paginate(PageRequest(95, 20, 0)) == PageInfo(1, 5, true, false, [1, 2, 3, 4, 5])
    ensures Paginate(PageRequest(95, 20, 40)) == PageInfo(3, 5, true, true, [1, 2, 3, 4, 5])
    ensures Paginate(PageRequest(0, 20, 0)) == PageInfo(1, 0, false, false, [])
    ensures Paginate(PageRequest(500, 20, 240)).pageNumbers == Range(8, 17)
  {
    FivePages(0, 1);
    FivePages(40, 3);
    assert Paginate(PageRequest(0, 20, 0)).pageNumbers == Range(1, 0) == [];
    assert CurrentPage(20, 240) == 13 && TotalPages(500, 20) == 25;
  }

  /** 95 items at 20 per page make five pages, all of them in the window. */
  lemma FivePages(offset: nat, page: int)
    requires (page - 1) * 20 <= offset < page * 20 <= 100
    ensures Paginate(PageRequest(95, 20, offset)) == PageInfo(page, 5, page < 5, page > 1, [1, 2, 3, 4, 5])
  {
    assert CurrentPage(20, offset) == page && TotalPages(95, 20) == 5;
    assert WindowBounds(page, 5) == (1, 5);
    assert Range(1, 5) == [1, 2, 3, 4, 5];
  }
}
