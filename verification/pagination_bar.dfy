/** The pagination bar of the result list (`renderPagination` in the search
    results component): the order of the Previous/Next buttons, the numbered
    buttons of the window, the shortcuts to the first and last page and the
    ellipses between them, plus the conditions under which the bar is drawn. */
module PaginationBar {
  import opened Options
  import opened Pagination

  /** One element of the bar, in left-to-right order. The shortcut buttons to
      the first and last page are page buttons that are never marked active. */
  datatype Token = Previous | PageButton(page: int, active: bool) | Ellipsis | Next

  /** The two fields of a search response the pagination reads. */
  datatype SearchSummary = SearchSummary(total: nat, limit: Positive)

  /** Page size used while no response has arrived. */
  const DefaultLimit: Positive := 20

  /** The pagination inputs: the response's count and page size with the
      current offset, or an empty first page of the default size. */
  function PaginationInput(response: Option<SearchSummary>, offset: nat): (r: PageRequest)
    ensures response.None? ==> r.total == 0 && r.limit == DefaultLimit && r.offset == 0
    ensures response.Some? ==> r.total == response.value.total && r.limit == response.value.limit && r.offset == offset
  {
    match response
    case None => PageRequest(0, DefaultLimit, 0)
    case Some(s) => PageRequest(s.total, s.limit, offset)
  }

  /** Without a response the engine sits on page 1 of 0 with nothing to
      navigate and no page numbers. */
  lemma DefaultPagination(offset: nat)
    ensures var info := Paginate(PaginationInput(None, offset));
            info.currentPage == 1 && info.totalPages == 0 && !info.hasNextPage && !info.hasPrevPage && info.pageNumbers == []
  {
  }

  /** Shortcut to page 1, followed by an ellipsis when page 2 is hidden too. */
  function LeadingTokens(window: seq<int>): seq<Token>
  {
    if |window| > 0 && window[0] > 1 then
      [PageButton(1, false)] + (if window[0] > 2 then [Ellipsis] else [])
    else
      []
  }

  /** One button per window page, the current page marked active. */
  function WindowTokens(window: seq<int>, currentPage: int): seq<Token>
  {
    seq(|window|, i requires 0 <= i < |window| => PageButton(window[i], window[i] == currentPage))
  }

  /** Ellipsis when the page before the last is hidden, then the shortcut to
      the last page. */
  function TrailingTokens(window: seq<int>, totalPages: nat): seq<Token>
  {
    if |window| > 0 && window[|window| - 1] < totalPages then
      (if window[|window| - 1] < totalPages - 1 then [Ellipsis] else []) + [PageButton(totalPages, false)]
    else
      []
  }

  /** The bar between the optional Previous and Next buttons. */
  function PageStrip(window: seq<int>, currentPage: int, totalPages: nat): seq<Token>
  {
    LeadingTokens(window) + WindowTokens(window, currentPage) + TrailingTokens(window, totalPages)
  }

  /** The whole bar: nothing when every item fits on one page. */
  function RenderPagination(r: PageRequest): (tokens: seq<Token>)
    ensures tokens == [] <==> r.total <= r.limit
  {
    if r.total <= r.limit then
      []
    else
      var info := Paginate(r);
      (if info.hasPrevPage then [Previous] else [])
        + PageStrip(info.pageNumbers, info.currentPage, info.totalPages)
        + (if info.hasNextPage then [Next] else [])
  }

  /** The pagination block of the results view: absent while loading, when
      there is no response, or when the response counts no items. */
  function PaginationBlock(isLoading: bool, response: Option<SearchSummary>, offset: nat): (block: Option<seq<Token>>)
    ensures block.Some? <==> !isLoading && response.Some? && response.value.total > 0
    ensures block.Some? ==> block.value == RenderPagination(PaginationInput(response, offset))
  {
    if isLoading || response.None? || response.value.total == 0 then
      None
    else
      Some(RenderPagination(PaginationInput(response, offset)))
  }

  /** Page buttons carry the active mark exactly when they show `page`. */
  ghost predicate ActiveMarks(tokens: seq<Token>, page: int)
  {
    forall i :: 0 <= i < |tokens| && tokens[i].PageButton? ==> (tokens[i].active <==> tokens[i].page == page)
  }

  /** Page buttons show strictly increasing numbers from left to right. */
  ghost predicate PagesAscending(tokens: seq<Token>)
  {
    forall i, j :: 0 <= i < j < |tokens| && tokens[i].PageButton? && tokens[j].PageButton? ==> tokens[i].page < tokens[j].page
  }

  /** Every ellipsis sits between two page buttons that skip at least one
      page, and two adjacent page buttons show consecutive pages. */
  ghost predicate EllipsesMarkGaps(tokens: seq<Token>)
  {
    && (forall i :: 0 <= i < |tokens| && tokens[i] == Ellipsis ==>
          && 0 < i < |tokens| - 1
          && tokens[i - 1].PageButton? && tokens[i + 1].PageButton?
          && tokens[i - 1].page + 1 < tokens[i + 1].page)
    && (forall i :: 0 <= i < |tokens| - 1 && tokens[i].PageButton? && tokens[i + 1].PageButton? ==>
          tokens[i + 1].page == tokens[i].page + 1)
  }

  /** The page numbers that have a button. */
  ghost function ShownPages(tokens: seq<Token>): set<int>
  {
    set i | 0 <= i < |tokens| && tokens[i].PageButton? :: tokens[i].page
  }

  function CountPageButtons(tokens: seq<Token>): nat
  {
    if tokens == [] then 0 else (if tokens[0].PageButton? then 1 else 0) + CountPageButtons(tokens[1..])
  }

  function CountEllipses(tokens: seq<Token>): nat
  {
    if tokens == [] then 0 else (if tokens[0] == Ellipsis then 1 else 0) + CountEllipses(tokens[1..])
  }

  function Indicator(b: bool): nat { if b then 1 else 0 }

  /** Element `i` of the strip for the window s..e, written out by position:
      the leading shortcut and ellipsis, the window, the trailing ellipsis
      and shortcut. */
  function StripToken(s: int, e: int, totalPages: nat, currentPage: int, i: int): Token
  {
    var lead := Indicator(s > 1) + Indicator(s > 2);
    var n := e - s + 1;
    var trail := Indicator(e < totalPages) + Indicator(e < totalPages - 1);
    if i < lead then
      (if i == 0 then PageButton(1, false) else Ellipsis)
    else if i < lead + n then
      PageButton(s + i - lead, s + i - lead == currentPage)
    else if i == lead + n + trail - 1 then
      PageButton(totalPages, false)
    else
      Ellipsis
  }

  lemma StripByPosition(s: int, e: int, totalPages: nat, currentPage: int)
    requires 1 <= s <= e <= totalPages
    ensures var strip := PageStrip(Range(s, e), currentPage, totalPages);
            && |strip| == Indicator(s > 1) + Indicator(s > 2) + (e - s + 1) + Indicator(e < totalPages) + Indicator(e < totalPages - 1)
            && forall i :: 0 <= i < |strip| ==> strip[i] == StripToken(s, e, totalPages, currentPage, i)
  {
    var w := Range(s, e);
    assert w[0] == s && w[|w| - 1] == e;
    var lead, mid, trail := LeadingTokens(w), WindowTokens(w, currentPage), TrailingTokens(w, totalPages);
    var strip := lead + mid + trail;
    forall i | 0 <= i < |strip|
      ensures strip[i] == StripToken(s, e, totalPages, currentPage, i)
    {
      if i < |lead| {
        assert strip[i] == lead[i];
      } else if i < |lead| + |mid| {
        assert strip[i] == mid[i - |lead|];
      } else {
        assert strip[i] == trail[i - |lead| - |mid|];
      }
    }
  }

  /** Count of ellipses distributes over concatenation. */
  lemma {:induction false} CountEllipsesAppend(a: seq<Token>, b: seq<Token>)
    ensures CountEllipses(a + b) == CountEllipses(a) + CountEllipses(b)
  {
    if a == [] {
      assert a + b == b;
    } else {
      assert (a + b)[0] == a[0];
      assert (a + b)[1..] == a[1..] + b;
      CountEllipsesAppend(a[1..], b);
    }
  }

  lemma {:induction false} CountPageButtonsAppend(a: seq<Token>, b: seq<Token>)
    ensures CountPageButtons(a + b) == CountPageButtons(a) + CountPageButtons(b)
  {
    if a == [] {
      assert a + b == b;
    } else {
      assert (a + b)[0] == a[0];
      assert (a + b)[1..] == a[1..] + b;
      CountPageButtonsAppend(a[1..], b);
    }
  }

  /** A run made only of page buttons has one button per element and no ellipsis. */
  lemma {:induction false} CountAllPageButtons(tokens: seq<Token>)
    requires forall i :: 0 <= i < |tokens| ==> tokens[i].PageButton?
    ensures CountPageButtons(tokens) == |tokens|
    ensures CountEllipses(tokens) == 0
  {
    if tokens != [] {
      CountAllPageButtons(tokens[1..]);
    }
  }

  /** The hypotheses shared by the strip lemmas: a window s..e inside
      1..totalPages that holds the current page whenever that page exists. */
  ghost predicate WindowFits(s: int, e: int, totalPages: nat, currentPage: int)
  {
    && 1 <= s < e <= totalPages
    && (currentPage <= totalPages ==> s <= currentPage <= e)
  }

  lemma StripEnds(s: int, e: int, totalPages: nat, currentPage: int)
    requires WindowFits(s, e, totalPages, currentPage)
    ensures var strip := PageStrip(Range(s, e), currentPage, totalPages);
            && |strip| >= 2
            && strip[0] == PageButton(1, currentPage == 1)
            && strip[|strip| - 1] == PageButton(totalPages, currentPage == totalPages)
            && (strip[1] == Ellipsis <==> s > 2)
            && (strip[|strip| - 2] == Ellipsis <==> e < totalPages - 1)
  {
    var strip := PageStrip(Range(s, e), currentPage, totalPages);
    StripByPosition(s, e, totalPages, currentPage);
    assert strip[1] == StripToken(s, e, totalPages, currentPage, 1);
    assert strip[|strip| - 2] == StripToken(s, e, totalPages, currentPage, |strip| - 2);
  }

  lemma StripIsShaped(s: int, e: int, totalPages: nat, currentPage: int)
    requires WindowFits(s, e, totalPages, currentPage)
    ensures StripShaped(PageStrip(Range(s, e), currentPage, totalPages))
  {
    StripEnds(s, e, totalPages, currentPage);
    StripByPosition(s, e, totalPages, currentPage);
  }

  lemma StripActive(s: int, e: int, totalPages: nat, currentPage: int)
    requires WindowFits(s, e, totalPages, currentPage)
    ensures ActiveMarks(PageStrip(Range(s, e), currentPage, totalPages), currentPage)
  {
    StripByPosition(s, e, totalPages, currentPage);
  }

  lemma StripAscending(s: int, e: int, totalPages: nat, currentPage: int)
    requires WindowFits(s, e, totalPages, currentPage)
    ensures PagesAscending(PageStrip(Range(s, e), currentPage, totalPages))
  {
    StripByPosition(s, e, totalPages, currentPage);
  }

  lemma StripGaps(s: int, e: int, totalPages: nat, currentPage: int)
    requires WindowFits(s, e, totalPages, currentPage)
    ensures EllipsesMarkGaps(PageStrip(Range(s, e), currentPage, totalPages))
  {
    StripEllipsesSkip(s, e, totalPages, currentPage);
    StripNeighboursConsecutive(s, e, totalPages, currentPage);
  }

  lemma StripEllipsesSkip(s: int, e: int, totalPages: nat, currentPage: int)
    requires WindowFits(s, e, totalPages, currentPage)
    ensures var strip := PageStrip(Range(s, e), currentPage, totalPages);
            forall i :: 0 <= i < |strip| && strip[i] == Ellipsis ==>
              && 0 < i < |strip| - 1
              && strip[i - 1].PageButton? && strip[i + 1].PageButton?
              && strip[i - 1].page + 1 < strip[i + 1].page
  {
    var strip := PageStrip(Range(s, e), currentPage, totalPages);
    StripByPosition(s, e, totalPages, currentPage);
    forall i | 0 <= i < |strip| && strip[i] == Ellipsis
      ensures 0 < i < |strip| - 1
      ensures strip[i - 1].PageButton? && strip[i + 1].PageButton?
      ensures strip[i - 1].page + 1 < strip[i + 1].page
    {
      assert strip[i] == StripToken(s, e, totalPages, currentPage, i);
      assert strip[i - 1] == StripToken(s, e, totalPages, currentPage, i - 1);
      assert strip[i + 1] == StripToken(s, e, totalPages, currentPage, i + 1);
    }
  }

  lemma StripNeighboursConsecutive(s: int, e: int, totalPages: nat, currentPage: int)
    requires WindowFits(s, e, totalPages, currentPage)
    ensures var strip := PageStrip(Range(s, e), currentPage, totalPages);
            forall i :: 0 <= i < |strip| - 1 && strip[i].PageButton? && strip[i + 1].PageButton? ==>
              strip[i + 1].page == strip[i].page + 1
  {
    var strip := PageStrip(Range(s, e), currentPage, totalPages);
    StripByPosition(s, e, totalPages, currentPage);
    forall i | 0 <= i < |strip| - 1 && strip[i].PageButton? && strip[i + 1].PageButton?
      ensures strip[i + 1].page == strip[i].page + 1
    {
      assert strip[i] == StripToken(s, e, totalPages, currentPage, i);
      assert strip[i + 1] == StripToken(s, e, totalPages, currentPage, i + 1);
    }
  }

  lemma StripShown(s: int, e: int, totalPages: nat, currentPage: int)
    requires WindowFits(s, e, totalPages, currentPage)
    ensures ShownPages(PageStrip(Range(s, e), currentPage, totalPages)) == {1, totalPages} + (set p | p in Range(s, e))
  {
    StripShowsAll(s, e, totalPages, currentPage);
    StripShowsOnly(s, e, totalPages, currentPage);
  }

  lemma StripShowsAll(s: int, e: int, totalPages: nat, currentPage: int)
    requires WindowFits(s, e, totalPages, currentPage)
    ensures {1, totalPages} + (set p | p in Range(s, e)) <= ShownPages(PageStrip(Range(s, e), currentPage, totalPages))
  {
    var strip := PageStrip(Range(s, e), currentPage, totalPages);
    StripByPosition(s, e, totalPages, currentPage);
    var lead := Indicator(s > 1) + Indicator(s > 2);
    forall p | p in {1, totalPages} + (set p | p in Range(s, e))
      ensures p in ShownPages(strip)
    {
      RangeMembership(s, e, p);
      var i := if p == 1 then 0 else if p == totalPages then |strip| - 1 else lead + p - s;
      assert strip[i] == StripToken(s, e, totalPages, currentPage, i);
      assert strip[i].page == p;
    }
  }

  lemma StripShowsOnly(s: int, e: int, totalPages: nat, currentPage: int)
    requires WindowFits(s, e, totalPages, currentPage)
    ensures ShownPages(PageStrip(Range(s, e), currentPage, totalPages)) <= {1, totalPages} + (set p | p in Range(s, e))
  {
    var strip := PageStrip(Range(s, e), currentPage, totalPages);
    StripByPosition(s, e, totalPages, currentPage);
    forall p | p in ShownPages(strip)
      ensures p in {1, totalPages} + (set p | p in Range(s, e))
    {
      var i :| 0 <= i < |strip| && strip[i].PageButton? && strip[i].page == p;
      assert strip[i] == StripToken(s, e, totalPages, currentPage, i);
      RangeMembership(s, e, p);
    }
  }

  lemma StripCounts(s: int, e: int, totalPages: nat, currentPage: int)
    requires WindowFits(s, e, totalPages, currentPage)
    ensures var strip := PageStrip(Range(s, e), currentPage, totalPages);
            && CountPageButtons(strip) == (e - s + 1) + Indicator(s > 1) + Indicator(e < totalPages)
            && CountEllipses(strip) == Indicator(s > 2) + Indicator(e < totalPages - 1)
  {
    var w := Range(s, e);
    var lead, mid, trail := LeadingTokens(w), WindowTokens(w, currentPage), TrailingTokens(w, totalPages);
    assert w[0] == s && w[|w| - 1] == e;
    assert CountEllipses(lead) == Indicator(s > 2) && CountPageButtons(lead) == Indicator(s > 1) by {
      if s > 2 {
        assert lead == [PageButton(1, false), Ellipsis];
        assert lead[1..] == [Ellipsis] && lead[1..][1..] == [];
        assert CountEllipses(lead[1..]) == 1 && CountPageButtons(lead[1..]) == 0;
      } else if s > 1 {
        assert lead == [PageButton(1, false)];
        assert lead[1..] == [];
      } else {
        assert lead == [];
      }
    }
    assert CountEllipses(trail) == Indicator(e < totalPages - 1) && CountPageButtons(trail) == Indicator(e < totalPages) by {
      if e < totalPages - 1 {
        assert trail[1..] == [PageButton(totalPages, false)] && trail[1..][1..] == [];
        assert CountEllipses(trail[1..]) == 0 && CountPageButtons(trail[1..]) == 1;
      } else if e < totalPages {
        assert trail[1..] == [];
      }
    }
    CountAllPageButtons(mid);
    CountEllipsesAppend(lead, mid);
    CountEllipsesAppend(lead + mid, trail);
    CountPageButtonsAppend(lead, mid);
    CountPageButtonsAppend(lead + mid, trail);
  }

  /** Tokens that are neither page buttons nor ellipses. */
  predicate IsArrow(t: Token)
  {
    t == Previous || t == Next
  }

  /** A strip as drawn: page buttons and ellipses only, a page button at each end. */
  ghost predicate StripShaped(strip: seq<Token>)
  {
    && |strip| >= 2
    && strip[0].PageButton? && strip[|strip| - 1].PageButton?
    && forall i :: 0 <= i < |strip| ==> strip[i].PageButton? || strip[i] == Ellipsis
  }

  /** Inside `pre + strip + post` the strip sits at offset `|pre|`, and
      everything around it is an arrow. */
  lemma WrapPositions(pre: seq<Token>, strip: seq<Token>, post: seq<Token>)
    requires pre == [] || pre == [Previous]
    requires post == [] || post == [Next]
    ensures var tokens := pre + strip + post;
            && (forall i :: |pre| <= i < |pre| + |strip| ==> tokens[i] == strip[i - |pre|])
            && (forall i :: 0 <= i < |tokens| && !(|pre| <= i < |pre| + |strip|) ==> IsArrow(tokens[i]))
  {
  }

  lemma WrapKeepsAscending(pre: seq<Token>, strip: seq<Token>, post: seq<Token>)
    requires pre == [] || pre == [Previous]
    requires post == [] || post == [Next]
    requires PagesAscending(strip)
    ensures PagesAscending(pre + strip + post)
  {
    var tokens := pre + strip + post;
    var k := |pre|;
    WrapPositions(pre, strip, post);
    forall i, j | 0 <= i < j < |tokens| && tokens[i].PageButton? && tokens[j].PageButton?
      ensures tokens[i].page < tokens[j].page
    {
      assert strip[i - k] == tokens[i] && strip[j - k] == tokens[j];
    }
  }

  lemma WrapKeepsShown(pre: seq<Token>, strip: seq<Token>, post: seq<Token>)
    requires pre == [] || pre == [Previous]
    requires post == [] || post == [Next]
    ensures ShownPages(pre + strip + post) == ShownPages(strip)
  {
    var tokens := pre + strip + post;
    var k := |pre|;
    WrapPositions(pre, strip, post);
    forall p | p in ShownPages(tokens)
      ensures p in ShownPages(strip)
    {
      var i :| 0 <= i < |tokens| && tokens[i].PageButton? && tokens[i].page == p;
      assert strip[i - k] == tokens[i];
    }
    forall p | p in ShownPages(strip)
      ensures p in ShownPages(tokens)
    {
      var i :| 0 <= i < |strip| && strip[i].PageButton? && strip[i].page == p;
      assert tokens[i + k] == strip[i];
    }
  }

  lemma WrapKeepsCounts(pre: seq<Token>, strip: seq<Token>, post: seq<Token>)
    requires pre == [] || pre == [Previous]
    requires post == [] || post == [Next]
    ensures CountPageButtons(pre + strip + post) == CountPageButtons(strip)
    ensures CountEllipses(pre + strip + post) == CountEllipses(strip)
  {
    CountPageButtonsAppend(pre, strip);
    CountPageButtonsAppend(pre + strip, post);
    CountEllipsesAppend(pre, strip);
    CountEllipsesAppend(pre + strip, post);
    assert CountPageButtons(pre) == 0 && CountEllipses(pre) == 0 by {
      if pre != [] { assert pre[1..] == []; }
    }
    assert CountPageButtons(post) == 0 && CountEllipses(post) == 0 by {
      if post != [] { assert post[1..] == []; }
    }
  }

  /** Adding optional Previous/Next buttons at the ends of a strip does not
      disturb the page buttons or the ellipses. */
  lemma WrapKeepsPages(pre: seq<Token>, strip: seq<Token>, post: seq<Token>, currentPage: int)
    requires pre == [] || pre == [Previous]
    requires post == [] || post == [Next]
    requires StripShaped(strip)
    ensures var tokens := pre + strip + post;
            && (ActiveMarks(strip, currentPage) ==> ActiveMarks(tokens, currentPage))
            && (PagesAscending(strip) ==> PagesAscending(tokens))
            && ShownPages(tokens) == ShownPages(strip)
            && CountPageButtons(tokens) == CountPageButtons(strip)
            && CountEllipses(tokens) == CountEllipses(strip)
  {
    WrapPositions(pre, strip, post);
    if PagesAscending(strip) {
      WrapKeepsAscending(pre, strip, post);
    }
    WrapKeepsShown(pre, strip, post);
    WrapKeepsCounts(pre, strip, post);
  }

  lemma WrapKeepsGaps(pre: seq<Token>, strip: seq<Token>, post: seq<Token>)
    requires pre == [] || pre == [Previous]
    requires post == [] || post == [Next]
    requires StripShaped(strip)
    requires EllipsesMarkGaps(strip)
    ensures EllipsesMarkGaps(pre + strip + post)
  {
    WrapKeepsEllipses(pre, strip, post);
    WrapKeepsNeighbours(pre, strip, post);
  }

  lemma WrapKeepsEllipses(pre: seq<Token>, strip: seq<Token>, post: seq<Token>)
    requires pre == [] || pre == [Previous]
    requires post == [] || post == [Next]
    requires StripShaped(strip)
    requires EllipsesMarkGaps(strip)
    ensures var tokens := pre + strip + post;
            forall i :: 0 <= i < |tokens| && tokens[i] == Ellipsis ==>
              && 0 < i < |tokens| - 1
              && tokens[i - 1].PageButton? && tokens[i + 1].PageButton?
              && tokens[i - 1].page + 1 < tokens[i + 1].page
  {
    var tokens := pre + strip + post;
    var k := |pre|;
    WrapPositions(pre, strip, post);
    forall i | 0 <= i < |tokens| && tokens[i] == Ellipsis
      ensures 0 < i < |tokens| - 1
      ensures tokens[i - 1].PageButton? && tokens[i + 1].PageButton?
      ensures tokens[i - 1].page + 1 < tokens[i + 1].page
    {
      assert strip[i - k] == Ellipsis;
      assert tokens[i - 1] == strip[i - k - 1] && tokens[i + 1] == strip[i - k + 1];
    }
  }

  lemma WrapKeepsNeighbours(pre: seq<Token>, strip: seq<Token>, post: seq<Token>)
    requires pre == [] || pre == [Previous]
    requires post == [] || post == [Next]
    requires EllipsesMarkGaps(strip)
    ensures var tokens := pre + strip + post;
            forall i :: 0 <= i < |tokens| - 1 && tokens[i].PageButton? && tokens[i + 1].PageButton? ==>
              tokens[i + 1].page == tokens[i].page + 1
  {
    var tokens := pre + strip + post;
    var k := |pre|;
    WrapPositions(pre, strip, post);
    forall i | 0 <= i < |tokens| - 1 && tokens[i].PageButton? && tokens[i + 1].PageButton?
      ensures tokens[i + 1].page == tokens[i].page + 1
    {
      assert tokens[i] == strip[i - k] && tokens[i + 1] == strip[i + 1 - k];
    }
  }

  /** When the items do not fit on one page there are at least two pages and
      the engine's window is a run s..e of at least two pages that holds the
      current page whenever that page exists. */
  lemma EngineWindowFits(r: PageRequest)
    requires r.total > r.limit
    ensures var info := Paginate(r);
            var w := info.pageNumbers;
            && info.totalPages >= 2
            && |w| >= 2
            && w == Range(w[0], w[|w| - 1])
            && WindowFits(w[0], w[|w| - 1], info.totalPages, info.currentPage)
  {
    var info := Paginate(r);
    if info.totalPages < 2 {
      MulMonotonic(info.totalPages, 1, r.limit);
    }
    var (s, e) := WindowBounds(info.currentPage, info.totalPages);
    assert info.pageNumbers == Range(s, e);
  }

  /** Previous opens the bar exactly when a previous page exists and Next
      closes it exactly when a next page exists; neither appears anywhere else. */
  lemma ArrowPlacement(r: PageRequest)
    requires r.total > r.limit
    ensures var tokens := RenderPagination(r);
            var info := Paginate(r);
            && (tokens[0] == Previous <==> info.hasPrevPage)
            && (tokens[|tokens| - 1] == Next <==> info.hasNextPage)
            && (forall i :: 0 < i < |tokens| ==> tokens[i] != Previous)
            && (forall i :: 0 <= i < |tokens| - 1 ==> tokens[i] != Next)
  {
    var info := Paginate(r);
    EngineWindowFits(r);
    var w := info.pageNumbers;
    StripIsShaped(w[0], w[|w| - 1], info.totalPages, info.currentPage);
    var pre := if info.hasPrevPage then [Previous] else [];
    var strip := PageStrip(w, info.currentPage, info.totalPages);
    var post := if info.hasNextPage then [Next] else [];
    WrapArrows(pre, strip, post);
    assert RenderPagination(r) == pre + strip + post;
  }

  lemma WrapArrows(pre: seq<Token>, strip: seq<Token>, post: seq<Token>)
    requires pre == [] || pre == [Previous]
    requires post == [] || post == [Next]
    requires StripShaped(strip)
    ensures var tokens := pre + strip + post;
            && (tokens[0] == Previous <==> pre != [])
            && (tokens[|tokens| - 1] == Next <==> post != [])
            && (forall i :: 0 < i < |tokens| ==> tokens[i] != Previous)
            && (forall i :: 0 <= i < |tokens| - 1 ==> tokens[i] != Next)
  {
    var tokens := pre + strip + post;
    var k := |pre|;
    assert tokens[k] == strip[0];
    assert tokens[k + |strip| - 1] == strip[|strip| - 1];
    forall i | 0 <= i < |tokens|
      ensures 0 < i ==> tokens[i] != Previous
      ensures i < |tokens| - 1 ==> tokens[i] != Next
    {
      if k <= i < k + |strip| {
        assert tokens[i] == strip[i - k];
      }
    }
  }

  /** The numbered buttons of the bar: strictly increasing, the current page
      (and only it) marked active, exactly page 1, the last page and the
      window's pages shown, an ellipsis standing for every run of skipped
      pages and nowhere else. */
  lemma PageButtonsLayout(r: PageRequest)
    requires r.total > r.limit
    ensures var tokens := RenderPagination(r);
            var info := Paginate(r);
            && ActiveMarks(tokens, info.currentPage)
            && PagesAscending(tokens)
            && EllipsesMarkGaps(tokens)
            && ShownPages(tokens) == {1, info.totalPages} + (set p | p in info.pageNumbers)
  {
    var info := Paginate(r);
    EngineWindowFits(r);
    var w := info.pageNumbers;
    var s, e := w[0], w[|w| - 1];
    StripIsShaped(s, e, info.totalPages, info.currentPage);
    StripActive(s, e, info.totalPages, info.currentPage);
    StripAscending(s, e, info.totalPages, info.currentPage);
    StripGaps(s, e, info.totalPages, info.currentPage);
    StripShown(s, e, info.totalPages, info.currentPage);
    var pre := if info.hasPrevPage then [Previous] else [];
    var strip := PageStrip(w, info.currentPage, info.totalPages);
    var post := if info.hasNextPage then [Next] else [];
    WrapKeepsPages(pre, strip, post, info.currentPage);
    WrapKeepsGaps(pre, strip, post);
    assert RenderPagination(r) == pre + strip + post;
  }

  /** Where the shortcuts and the ellipses next to them sit in a bar that
      opens with Previous when `hasPrev` and closes with Next when `hasNext`. */
  ghost predicate ShortcutsPlaced(tokens: seq<Token>, hasPrev: bool, hasNext: bool, window: seq<int>, currentPage: int, totalPages: nat)
  {
    var first := Indicator(hasPrev);
    var last := |tokens| - 1 - Indicator(hasNext);
    && |window| > 0
    && 0 <= first < last < |tokens|
    && tokens[first] == PageButton(1, currentPage == 1)
    && (tokens[first + 1] == Ellipsis <==> window[0] > 2)
    && tokens[last] == PageButton(totalPages, currentPage == totalPages)
    && (tokens[last - 1] == Ellipsis <==> window[|window| - 1] < totalPages - 1)
  }

  /** The shortcuts of a strip keep their places once the optional arrows wrap it. */
  lemma WrapPlacesShortcuts(pre: seq<Token>, strip: seq<Token>, post: seq<Token>, hasPrev: bool, hasNext: bool, window: seq<int>, currentPage: int, totalPages: nat)
    requires pre == (if hasPrev then [Previous] else [])
    requires post == (if hasNext then [Next] else [])
    requires |window| > 0 && |strip| >= 2
    requires strip[0] == PageButton(1, currentPage == 1)
    requires strip[|strip| - 1] == PageButton(totalPages, currentPage == totalPages)
    requires strip[1] == Ellipsis <==> window[0] > 2
    requires strip[|strip| - 2] == Ellipsis <==> window[|window| - 1] < totalPages - 1
    ensures ShortcutsPlaced(pre + strip + post, hasPrev, hasNext, window, currentPage, totalPages)
  {
    WrapEnds(pre, strip, post);
    assert Indicator(hasPrev) == |pre| && Indicator(hasNext) == |post|;
  }

  lemma WrappedShortcuts(s: int, e: int, totalPages: nat, currentPage: int, hasPrev: bool, hasNext: bool)
    requires WindowFits(s, e, totalPages, currentPage)
    ensures var pre := if hasPrev then [Previous] else [];
            var post := if hasNext then [Next] else [];
            ShortcutsPlaced(pre + PageStrip(Range(s, e), currentPage, totalPages) + post, hasPrev, hasNext, Range(s, e), currentPage, totalPages)
  {
    var w := Range(s, e);
    assert w[0] == s && w[|w| - 1] == e;
    StripEnds(s, e, totalPages, currentPage);
    WrapPlacesShortcuts(if hasPrev then [Previous] else [], PageStrip(w, currentPage, totalPages), if hasNext then [Next] else [],
                        hasPrev, hasNext, w, currentPage, totalPages);
  }

  /** The shortcut to page 1 and the leading ellipsis, the trailing ellipsis
      and the shortcut to the last page appear exactly when the window leaves
      room for them: page 1 always follows the optional Previous button and an
      ellipsis follows it exactly when the window starts above page 2; the last
      page always precedes the optional Next button and an ellipsis precedes it
      exactly when the window ends below the page before the last. */
  lemma ShortcutsLayout(r: PageRequest)
    requires r.total > r.limit
    ensures var info := Paginate(r);
            ShortcutsPlaced(RenderPagination(r), info.hasPrevPage, info.hasNextPage, info.pageNumbers, info.currentPage, info.totalPages)
  {
    var info := Paginate(r);
    EngineWindowFits(r);
    var w := info.pageNumbers;
    WrappedShortcuts(w[0], w[|w| - 1], info.totalPages, info.currentPage, info.hasPrevPage, info.hasNextPage);
  }

  lemma WrapEnds(pre: seq<Token>, strip: seq<Token>, post: seq<Token>)
    requires |pre| <= 1 && |post| <= 1 && |strip| >= 2
    ensures var tokens := pre + strip + post;
            var last := |tokens| - 1 - |post|;
            && tokens[|pre|] == strip[0] && tokens[|pre| + 1] == strip[1]
            && last == |pre| + |strip| - 1
            && tokens[last] == strip[|strip| - 1] && tokens[last - 1] == strip[|strip| - 2]
  {
  }

  /** Counted over the whole bar: one button per window page plus one per
      shortcut, and one ellipsis per side on which pages are skipped. */
  lemma ButtonCounts(r: PageRequest)
    requires r.total > r.limit
    ensures var tokens := RenderPagination(r);
            var info := Paginate(r);
            var w := info.pageNumbers;
            && CountPageButtons(tokens) == |w| + Indicator(w[0] > 1) + Indicator(w[|w| - 1] < info.totalPages)
            && CountEllipses(tokens) == Indicator(w[0] > 2) + Indicator(w[|w| - 1] < info.totalPages - 1)
  {
    var info := Paginate(r);
    EngineWindowFits(r);
    var w := info.pageNumbers;
    var s, e := w[0], w[|w| - 1];
    StripIsShaped(s, e, info.totalPages, info.currentPage);
    StripCounts(s, e, info.totalPages, info.currentPage);
    var pre := if info.hasPrevPage then [Previous] else [];
    var strip := PageStrip(w, info.currentPage, info.totalPages);
    var post := if info.hasNextPage then [Next] else [];
    WrapKeepsPages(pre, strip, post, info.currentPage);
    assert RenderPagination(r) == pre + strip + post;
  }

  /** The navigation a click on a bar element performs: the arrows call the
      previous/next helpers, a page button (shortcuts included) goes to its
      page, and an ellipsis is not clickable. */
  function Click(r: PageRequest, t: Token): Option<nat>
  {
    match t
    case Previous => GoToPrevPage(r)
    case Next => GoToNextPage(r)
    case PageButton(page, _) => GoToPage(r, page)
    case Ellipsis => None
  }

  /** Every page button and the Next button navigate when clicked; the
      Previous button does too unless the offset lies beyond the page after
      the last one. */
  ghost predicate ButtonsLive(r: PageRequest, tokens: seq<Token>)
  {
    && (forall i :: 0 <= i < |tokens| && (tokens[i].PageButton? || tokens[i] == Next) ==> Click(r, tokens[i]).Some?)
    && (forall i :: 0 <= i < |tokens| && tokens[i] == Previous ==>
          (Click(r, tokens[i]).Some? <==> CurrentPage(r.limit, r.offset) - 1 <= TotalPages(r.total, r.limit)))
  }

  lemma LiveWhenInRange(r: PageRequest, tokens: seq<Token>, window: seq<int>)
    requires forall i :: 0 <= i < |window| ==> 1 <= window[i] <= TotalPages(r.total, r.limit)
    requires 1 <= TotalPages(r.total, r.limit)
    requires ShownPages(tokens) == {1, TotalPages(r.total, r.limit)} + (set p | p in window)
    requires forall i :: 0 <= i < |tokens| && tokens[i] == Next ==> HasNextPage(r)
    requires forall i :: 0 <= i < |tokens| && tokens[i] == Previous ==> HasPrevPage(r)
    ensures ButtonsLive(r, tokens)
  {
    forall i | 0 <= i < |tokens| && tokens[i].PageButton?
      ensures Click(r, tokens[i]).Some?
    {
      assert tokens[i].page in ShownPages(tokens);
    }
  }

  lemma ButtonsNavigate(r: PageRequest)
    requires r.total > r.limit
    ensures ButtonsLive(r, RenderPagination(r))
  {
    var tokens := RenderPagination(r);
    var info := Paginate(r);
    EngineWindowFits(r);
    PageButtonsLayout(r);
    ArrowPlacement(r);
    LiveWhenInRange(r, tokens, info.pageNumbers);
  }
}
