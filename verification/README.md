# Search UI core, modelled in Dafny

A model of the small pieces of real logic inside a React search front-end for
academic publications. Ranking and classification run on remote services; what
the page itself computes is:

- the **pagination engine** (`usePagination`): current page, page count,
  previous/next flags, a sliding window of at most ten page numbers, and the
  navigation helpers that turn a page request into an offset for the
  page-change callback (or into no call);
- the **pagination bar** of the results view (`renderPagination`): Previous,
  an optional shortcut to page 1 and an ellipsis, the window with the current
  page marked active, an optional ellipsis and shortcut to the last page, Next;
  and the conditions under which the bar is drawn at all;
- the **search bar**: the recent-searches list (move to front, de-duplicate,
  keep ten), the dropdown's keyboard highlight, and the guard that ignores a
  blank query;
- the **publication card**: the cleaned-up author line and the colour band of
  the relevance score.

Everything is pure: inputs are values, results are values, and each React
handler becomes a function from the old state to the new one. The page-change
and search callbacks become `Option` results (`None` = not called).

Files (one module each):

| file | module | models |
|---|---|---|
| `options.dfy` | `Options` | the `Option` datatype |
| `pagination.dfy` | `Pagination` | `src/hooks/usePagination.ts` |
| `pagination_bar.dfy` | `PaginationBar` | `renderPagination`, the `total > 0` gate and the defaults of `src/components/SearchResults.tsx` |
| `js_strings.dfy` | `JsStrings` | JavaScript `trim`, `includes`, `indexOf`, `replace` with a string pattern |
| `search_history.dfy` | `SearchHistory` | `addToSearchHistory` in `src/components/SearchBar.tsx` |
| `search_bar.dfy` | `SearchBar` | the event handlers of `src/components/SearchBar.tsx` |
| `publication_card.dfy` | `PublicationCard` | `formatAuthors` and `getRelevanceColor` of `src/components/PublicationCard.tsx` |

Modelling choices:

- Counts and offsets are `nat`. The page size is the subset type `Positive`
  (`limit > 0`). This is the engine's one caller obligation: the hook divides
  by the limit. For a positive divisor, JavaScript's `Math.floor(a / b)` equals
  Dafny's Euclidean `a / b`. `Math.ceil(total / limit)` is the integer ceiling.
- The bar is a sequence of tokens
  `Previous | PageButton(page, active) | Ellipsis | Next`. The shortcuts to the
  first and last page are page buttons that are never marked active, because
  the source draws them without the `active` class.
- The search-bar state is `BarState(query, history, showHistory, selectedIndex)`.
  Some elements exist only while the dropdown is drawn: the history entries
  (hover and click) and its Clear button. The clear-query button exists only
  while the query is non-empty. An event on any of these elements has no
  effect when the element is not on screen.
- `trim` strips the ECMAScript whitespace and line-terminator code points
  listed in `JsStrings.IsWhitespace`.
- Relevance scores are Dafny `real`s, so they are exact.

## Model

| member | source | states |
|---|---|---|
| `Pagination.CurrentPage` | src/hooks/usePagination.ts:29 | the current page is at least 1 and is the page whose item range `[(p-1)*limit, p*limit)` holds the offset |
| `Pagination.TotalPages` | src/hooks/usePagination.ts:30 | the page count is the fewest pages of `limit` items that hold all items (ceiling), and it is 0 exactly when there are no items |
| `Pagination.HasNextPageMeansMoreItems` | src/hooks/usePagination.ts:32 | a next page is reported exactly when some item lies beyond the current page |
| `Pagination.HasPrevPageMeansOffsetPastFirstPage` | src/hooks/usePagination.ts:33 | a previous page is reported exactly when the offset is at least one page size |
| `Pagination.Paginate` | src/hooks/usePagination.ts:29-33 | the hook's record: the page holding the offset and the ceiling page count (as characterised by `CurrentPage` and `TotalPages`), zero pages exactly for zero items, flags equivalent to `currentPage < totalPages` and `currentPage > 1`, and the window for those two values |
| `Pagination.PageNumbers` | src/hooks/usePagination.ts:65-80 | the window is ascending and contiguous, lies inside 1..totalPages, has exactly `min(totalPages, 10)` pages (so it is empty for no items and clamped when the offset is past the end), and holds the current page whenever that page exists |
| `Pagination.WindowIsShiftedCentre` | src/hooks/usePagination.ts:65-80 | the window equals an independent description: the ten pages around the current one, slid just enough to fit inside 1..totalPages |
| `Pagination.CentredAwayFromEnds` | src/hooks/usePagination.ts:66-72 | away from both ends the window is the current page with five pages before and four after |
| `Pagination.GoToPage` | src/hooks/usePagination.ts:35-43 | an offset is emitted exactly for pages 1..totalPages; it is a multiple of the page size, below the item count, and maps back to the requested page |
| `Pagination.OffsetPageRoundTrip` | src/hooks/usePagination.ts:29-43 | going to the page of an aligned in-range offset emits that same offset |
| `Pagination.GoToNextPage` | src/hooks/usePagination.ts:45-49 | emits exactly when a next page exists, and then the first item `currentPage * limit` of the following page |
| `Pagination.GoToPrevPage` | src/hooks/usePagination.ts:51-55 | emits exactly when a previous page exists and that page is at most the page count, and then the first item `(currentPage - 2) * limit` of the preceding page |
| `Pagination.GoToFirstPage` | src/hooks/usePagination.ts:57-59 | emits offset 0 exactly when there are items |
| `Pagination.GoToLastPage` | src/hooks/usePagination.ts:61-63 | emits exactly when there are items, and then the aligned offset of the page that holds the last item |
| `Pagination.NextThenPrev` | src/hooks/usePagination.ts:45-55 | next then previous returns to the first item of the starting page |
| `Pagination.PrevThenNext` | src/hooks/usePagination.ts:45-55 | previous then next, from a page inside the page count, returns to the first item of the starting page |
| `Pagination.PrevInertPastLastPage` | src/hooks/usePagination.ts:51-55 | with 95 items, 20 per page and offset 200, a previous page is reported but previous-page navigation calls nothing |
| `Pagination.Examples` | src/hooks/usePagination.ts:29-80 | worked values: 95/20/0, 95/20/40, 0/20/0, and a centred window 8..17 for 500/20/240 |
| `PaginationBar.PaginationInput` | src/components/SearchResults.tsx:21-31 | with no response the engine runs on 0 items at offset 0 with the default page size 20; otherwise on the response's count and page size and the current offset |
| `PaginationBar.DefaultPagination` | src/components/SearchResults.tsx:21-31 | with no response the engine reports page 1 of 0, no navigation, an empty window |
| `PaginationBar.RenderPagination` | src/components/SearchResults.tsx:63-148 | the bar has no tokens exactly when all items fit on one page |
| `PaginationBar.PaginationBlock` | src/components/SearchResults.tsx:46-167 | the pagination block exists exactly when not loading, a response exists and it counts at least one item |
| `PaginationBar.ArrowPlacement` | src/components/SearchResults.tsx:69-145 | Previous is the first token exactly when a previous page exists, Next is the last exactly when a next page exists, and neither appears elsewhere |
| `PaginationBar.PageButtonsLayout` | src/components/SearchResults.tsx:82-132 | page buttons strictly increase (no duplicates); exactly the current page is marked active; the shown pages are page 1, the last page and the window; every ellipsis sits between buttons that skip pages, and adjacent buttons are consecutive |
| `PaginationBar.ShortcutsLayout` | src/components/SearchResults.tsx:82-132 | page 1 follows the optional Previous, with an ellipsis after it exactly when the window starts above 2; the last page precedes the optional Next, with an ellipsis before it exactly when the window ends below totalPages-1 |
| `PaginationBar.ButtonCounts` | src/components/SearchResults.tsx:82-132 | the number of page buttons is the window size plus one per shortcut (start above 1, end below totalPages); the number of ellipses is one per side that skips pages |
| `PaginationBar.ButtonsNavigate` | src/components/SearchResults.tsx:69-145 | every page button and Next navigate when clicked; Previous navigates exactly when the preceding page is within the page count |
| `JsStrings.Trim` | src/components/SearchBar.tsx:43 | the trimmed text is a slice of the input with only whitespace cut from both ends; it neither starts nor ends with whitespace, and it is empty exactly when the input is blank |
| `JsStrings.TrimIdempotent` | src/components/SearchBar.tsx:43-45 | trimming a trimmed text changes nothing |
| `JsStrings.IndexOf` | src/components/PublicationCard.tsx:15 | the result is an occurrence of the pattern with none earlier, or there is no occurrence at all |
| `JsStrings.RemoveFirst` | src/components/PublicationCard.tsx:16 | with an occurrence, the result is the text with its first occurrence cut out (putting the pattern back at that position gives the input); without one, the input |
| `SearchHistory.Without` | src/components/SearchBar.tsx:88 | filtering holds exactly the entries other than the term, every copy of each (equal multisets after dropping the term), in their original order, and keeps a duplicate-free list duplicate-free |
| `SearchHistory.AddToHistory` | src/components/SearchBar.tsx:86-91 | the term is first and appears once; the length is `min(10, 1 + remaining entries)`; the rest is a prefix of the filtered old list |
| `SearchHistory.AddKeepsOrder` | src/components/SearchBar.tsx:88-89 | at most ten entries; the term heads the list once; the other entries are old entries in their old order |
| `SearchHistory.AddKeepsNoDuplicates` | src/components/SearchBar.tsx:88-89 | a duplicate-free history stays duplicate-free |
| `SearchHistory.AddKeepsEverythingWhileRoom` | src/components/SearchBar.tsx:88-89 | while fewer than ten other entries exist, the new list holds exactly the term and the old entries |
| `SearchHistory.AddIdempotent` | src/components/SearchBar.tsx:86-91 | adding the same term twice in a row gives the list that adding it once gives |
| `SearchBar.SubmitQuery` | src/components/SearchBar.tsx:41-58 | a blank query changes nothing and searches nothing; otherwise the trimmed query is searched and recorded, the dropdown closes and the highlight is cleared; a searched text is never empty or untrimmed |
| `SearchBar.KeyDownStep` | src/components/SearchBar.tsx:60-84 | no change while the dropdown is hidden or the history empty; ArrowDown moves the highlight down, stopping at the last entry; ArrowUp moves it up, down to -1; Escape and Tab close and clear; the highlight stays in range |
| `SearchBar.InputChangeStep` | src/components/SearchBar.tsx:122-130 | typing clears the highlight and opens the dropdown exactly when the new text is non-empty and the history is not |
| `SearchBar.ClearHistoryStep` | src/components/SearchBar.tsx:109-114 | clearing empties the history and the highlight, after which the dropdown is not visible |
| `SearchBar.PickEntry` | src/components/SearchBar.tsx:93-107 | picking an entry searches it untrimmed, puts it in the query, moves it to the front and closes the dropdown |
| `SearchBar.Handle` | src/components/SearchBar.tsx:41-139 | only submission, Enter and a click on an entry search; keyboard navigation, typing, focus, hover, clearing the query and clicking outside leave the history alone |
| `SearchBar.InitialReachable` | src/components/SearchBar.tsx:14-20 | the state on mount with an empty stored history is well formed |
| `SearchBar.HandleKeepsSelectionInRange` | src/components/SearchBar.tsx:41-139 | every event keeps the highlight at -1 or on an existing entry, whatever history was stored |
| `SearchBar.HandlePreservesReachable` | src/components/SearchBar.tsx:41-139 | every event keeps the highlight in range, the history at most ten entries and free of duplicates |
| `SearchBar.EnterIgnoresHighlight` | src/components/SearchBar.tsx:51-84 | what Enter searches does not depend on the highlighted entry |
| `SearchBar.EnterThenSubmit` | src/components/SearchBar.tsx:41-58 | Enter followed by form submission searches the same text twice and leaves the state a single Enter leaves |
| `PublicationCard.FormatAuthors` | src/components/PublicationCard.tsx:10-25 | empty authors give the placeholder; the result is never blank; with the title present it is the trimmed text without the title's first occurrence, or the placeholder; without it, the authors unchanged unless blank |
| `PublicationCard.AuthorsAroundTitle` | src/components/PublicationCard.tsx:15-17 | with the title present the line is the text before plus the text after its first occurrence, trimmed, or the placeholder when that is blank |
| `PublicationCard.EmptyTitleTrims` | src/components/PublicationCard.tsx:15-17 | an empty title matches at position 0, so non-blank authors come back trimmed |
| `PublicationCard.RelevanceBand` | src/components/PublicationCard.tsx:27-31 | high exactly from 8, medium exactly from 6 below 8, low exactly below 6 |
| `PublicationCard.RelevanceColor` | src/components/PublicationCard.tsx:27-31 | green from 8, yellow from 6 below 8, red below 6 |
| `PublicationCard.BandMonotone` | src/components/PublicationCard.tsx:27-31 | a higher score never falls into a lower band |

## Behaviours worth knowing

These follow from the code as written. They are stated as lemmas above and are
not treated as defects:

- With an offset beyond the last page, `hasPrevPage` is true, so the bar shows
  Previous. Clicking it can still do nothing, because the target page is
  beyond the page count (`Pagination.PrevInertPastLastPage`,
  `PaginationBar.ButtonsNavigate`).
- Enter in the input searches through `handleKeyPress` without calling
  `preventDefault`. If the browser then also submits the form, before the
  loading state has disabled the submit button, the same query is searched a
  second time. The history update is idempotent, so the state
  ends up as after one search (`SearchBar.EnterThenSubmit`).
- The arrow keys move a highlight, but Enter searches the typed query, not the
  highlighted entry (`SearchBar.EnterIgnoresHighlight`).
- Clearing the history leaves the open flag set; the dropdown vanishes only
  because it is drawn while the history is non-empty.
- Only the inserted term is de-duplicated. A history loaded from storage that
  already holds duplicates or more than ten entries keeps its duplicates until
  they are evicted. The bar's invariant (`SearchBar.Reachable`) holds for
  histories built by the bar itself.

## Left out

- Fetching, JSON decoding, loading and error flags, and the race between a
  stale response and a newer one (`src/hooks/useSearch.ts`,
  `src/hooks/useClassification.ts`). This is network and concurrency plumbing.
- `src/App.tsx`: component wiring. Its only check ignores page changes when
  there is no current query.
- `src/components/DocumentClassification.tsx` and `src/components/TabHeader.tsx`:
  presentational. `formatConfidence` relies on floating-point `toFixed`.
- `useLocalStorage`, `useDebounce` and `useClickOutside` are not part of this
  model. The stored history becomes the parameter of `SearchBar.Initial`, and
  writing it back to storage is not modelled. A click outside is the
  `ClickOutside` event. The debounced auto-search has no effect in the source,
  because its call is commented out.
- JSX, CSS classes, SVGs, focusing and blurring the input, the focus
  `setTimeout`, and React memoisation. React's batching of the state setters
  in one handler is modelled as one atomic transition.
- The `isLoading` flag is not modelled. While a search is loading, the input,
  the submit button and the clear-query button are disabled, and the dropdown
  with its entry and Clear buttons is not on screen. The model assumes no events
  arrive during that time. Whether the form submission that follows Enter
  still fires depends on whether the re-render that disables the submit button
  comes first. That is a matter of render timing, which the model cannot
  express, so `SearchBar.EnterThenSubmit` states only what happens if the
  submission fires.
- SearchBar.Handle: after the clear-query button empties the query, the
  source puts focus back on the input. If the click had taken focus to the
  button, that refocus runs the input's focus handler in the same batch. With
  a non-empty history this reopens the dropdown. The model's `ClearQuery`
  closes the dropdown and does not model the refocus; a following
  `InputFocus` event gives the reopened state.
- SearchBar.KeyDownStep: the effect of ArrowDown is stated only for a
  highlight at -1 or on an existing entry. `SearchBar.HandleKeepsSelectionInRange`
  shows that no other highlight is reachable.
- Pagination.CurrentPage: JavaScript numbers are 64-bit floats. Non-integer,
  negative, or larger than 2^53 counts and offsets are not modelled. A zero or
  negative page size is excluded by the `Positive` type; the hook would
  produce `Infinity` or `NaN` for it.
- PublicationCard.RelevanceBand: a `NaN` score, which the source would colour
  red, has no counterpart among Dafny reals.
- JsStrings.IndexOf: strings are sequences of Unicode scalar values, not UTF-16
  code units. Matching a title that splits a surrogate pair is not modelled.
  Every code point that `trim` strips lies in the Basic Multilingual Plane, so
  trimming is unaffected.
