/** The search box with its recent-searches dropdown (the `SearchBar`
    component), as a state record and one transition per event handler.
    The search callback becomes an optional output of each transition. */
module SearchBar {
  import opened Options
  import opened JsStrings
  import opened SearchHistory

  /** The keys the handlers look at; every other key is `OtherKey`. */
  datatype Key = Enter | ArrowDown | ArrowUp | Escape | Tab | OtherKey

  /** The component's state: the typed query, the stored history, whether
      the dropdown is open and which history entry is highlighted (-1: none). */
  datatype BarState = BarState(query: string, history: seq<string>, showHistory: bool, selectedIndex: int)

  /** What the user can do. Events on elements that exist only while the
      dropdown is drawn (hovering or clicking an entry, the Clear button) and
      on the clear-query button, which exists only while there is a query,
      carry no effect when that element is not on screen. */
  datatype Event =
    | Submit
    | KeyPress(key: Key)
    | KeyDown(key: Key)
    | InputChange(value: string)
    | InputFocus
    | HoverItem(index: int)
    | HistoryItemClick(index: int)
    | ClearHistory
    | ClearQuery
    | ClickOutside

  /** The state after an event and the query handed to the search callback, if any. */
  datatype Step = Step(state: BarState, search: Option<string>)

  /** The state on mount: empty query, dropdown closed, nothing highlighted,
      the history as loaded from storage. */
  function Initial(stored: seq<string>): BarState
  {
    BarState("", stored, false, -1)
  }

  /** The dropdown is on screen. */
  predicate DropdownVisible(s: BarState)
  {
    s.showHistory && |s.history| > 0
  }

  /** The highlight is either absent or on an existing entry. */
  predicate SelectionInRange(s: BarState)
  {
    -1 <= s.selectedIndex < |s.history|
  }

  /** Search for the trimmed query, record it, close the dropdown; nothing
      at all for a blank query. Shared by form submission and Enter. */
  function SubmitQuery(s: BarState): (step: Step)
    ensures IsBlank(s.query) ==> step == Step(s, None)
    ensures !IsBlank(s.query) ==>
              && step.search == Some(Trim(s.query))
              && step.state == BarState(s.query, AddToHistory(s.history, Trim(s.query)), false, -1)
    ensures step.search.Some? ==> step.search.value != [] && Trim(step.search.value) == step.search.value
  {
    var term := Trim(s.query);
    if term != [] then
      TrimIdempotent(s.query);
      Step(BarState(s.query, AddToHistory(s.history, term), false, -1), Some(term))
    else
      Step(s, None)
  }

  /** Dropdown keyboard navigation. */
  function KeyDownStep(s: BarState, key: Key): (t: BarState)
    ensures t.query == s.query && t.history == s.history
    ensures !DropdownVisible(s) ==> t == s
    ensures key in {Enter, OtherKey} ==> t == s
    ensures DropdownVisible(s) && key == ArrowDown && SelectionInRange(s) ==>
              t == s.(selectedIndex := if s.selectedIndex + 1 < |s.history| then s.selectedIndex + 1 else |s.history| - 1)
    ensures DropdownVisible(s) && key == ArrowUp ==>
              t == s.(selectedIndex := if s.selectedIndex - 1 > -1 then s.selectedIndex - 1 else -1)
    ensures DropdownVisible(s) && key in {Escape, Tab} ==> !t.showHistory && t.selectedIndex == -1
    ensures SelectionInRange(s) ==> SelectionInRange(t)
  {
    if !DropdownVisible(s) then
      s
    else
      match key
      case ArrowDown =>
        s.(selectedIndex := if s.selectedIndex < |s.history| - 1 then s.selectedIndex + 1 else s.selectedIndex)
      case ArrowUp =>
        s.(selectedIndex := if s.selectedIndex > 0 then s.selectedIndex - 1 else -1)
      case Escape => s.(showHistory := false, selectedIndex := -1)
      case Tab => s.(showHistory := false, selectedIndex := -1)
      case _ => s
  }

  /** Typing: the highlight is dropped and the dropdown is open exactly when
      the new text is non-empty and there is history to show. */
  function InputChangeStep(s: BarState, value: string): (t: BarState)
    ensures t.query == value && t.history == s.history && t.selectedIndex == -1
    ensures t.showHistory <==> value != [] && s.history != []
  {
    BarState(value, s.history, value != [] && |s.history| > 0, -1)
  }

  /** The Clear button of the dropdown: empty history, no highlight. The
      open flag is left as it is; the dropdown disappears because it is only
      drawn while the history is non-empty. */
  function ClearHistoryStep(s: BarState): (t: BarState)
    ensures t.history == [] && t.selectedIndex == -1
    ensures t.query == s.query && t.showHistory == s.showHistory
    ensures !DropdownVisible(t)
  {
    s.(history := [], selectedIndex := -1)
  }

  /** Picking a history entry: search it as stored (no trimming), move it to
      the front and close the dropdown. */
  function PickEntry(s: BarState, index: int): (step: Step)
    requires 0 <= index < |s.history|
    ensures step.search == Some(s.history[index])
    ensures step.state.query == s.history[index]
    ensures step.state.history == AddToHistory(s.history, s.history[index])
    ensures !step.state.showHistory && step.state.selectedIndex == -1
  {
    var item := s.history[index];
    Step(BarState(item, AddToHistory(s.history, item), false, -1), Some(item))
  }

  /** One event. */
  function Handle(s: BarState, e: Event): (step: Step)
    ensures step.search.Some? ==> e == Submit || e == KeyPress(Enter) || e.HistoryItemClick?
    ensures e.KeyDown? || e.InputChange? || e == InputFocus || e.HoverItem? || e == ClearQuery || e == ClickOutside ==>
              step.state.history == s.history
  {
    match e
    case Submit => SubmitQuery(s)
    case KeyPress(key) => if key == Enter then SubmitQuery(s) else Step(s, None)
    case KeyDown(key) => Step(KeyDownStep(s, key), None)
    case InputChange(value) => Step(InputChangeStep(s, value), None)
    case InputFocus => Step(if |s.history| > 0 then s.(showHistory := true) else s, None)
    case HoverItem(index) =>
      Step(if DropdownVisible(s) && 0 <= index < |s.history| then s.(selectedIndex := index) else s, None)
    case HistoryItemClick(index) =>
      if DropdownVisible(s) && 0 <= index < |s.history| then PickEntry(s, index) else Step(s, None)
    case ClearHistory => Step(if DropdownVisible(s) then ClearHistoryStep(s) else s, None)
    case ClearQuery =>
      Step(if s.query != [] then s.(query := [], selectedIndex := -1, showHistory := false) else s, None)
    case ClickOutside => Step(s.(showHistory := false, selectedIndex := -1), None)
  }

  /** The states the component can reach from an empty history keep the
      highlight in range and the history short and free of duplicates. */
  ghost predicate Reachable(s: BarState)
  {
    && SelectionInRange(s)
    && |s.history| <= MaxHistory
    && NoDuplicates(s.history)
  }

  lemma InitialReachable()
    ensures Reachable(Initial([]))
  {
  }

  /** Every event keeps the highlight on an existing entry or on none,
      whatever history was loaded from storage. */
  lemma HandleKeepsSelectionInRange(s: BarState, e: Event)
    requires SelectionInRange(s)
    ensures SelectionInRange(Handle(s, e).state)
  {
  }

  /** Every event keeps a well-formed state well-formed. */
  lemma HandlePreservesReachable(s: BarState, e: Event)
    requires Reachable(s)
    ensures Reachable(Handle(s, e).state)
  {
    match e
    case Submit =>
      AddKeepsNoDuplicates(s.history, Trim(s.query));
    case KeyPress(_) =>
      AddKeepsNoDuplicates(s.history, Trim(s.query));
    case HistoryItemClick(index) =>
      if DropdownVisible(s) && 0 <= index < |s.history| {
        AddKeepsNoDuplicates(s.history, s.history[index]);
      }
    case _ =>
  }

  /** Enter searches the typed query, never the highlighted entry: the
      highlight has no influence on what is searched. */
  lemma EnterIgnoresHighlight(s: BarState, index: int)
    ensures Handle(s, KeyPress(Enter)).search == Handle(s.(selectedIndex := index), KeyPress(Enter)).search
  {
  }

  /** When Enter is followed by the browser's own form submission, the query
      is searched a second time but the state is the one a single Enter leaves. */
  lemma EnterThenSubmit(s: BarState)
    requires !IsBlank(s.query)
    ensures var first := Handle(s, KeyPress(Enter));
            var second := Handle(first.state, Submit);
            && second.state == first.state
            && second.search == first.search
  {
    var first := Handle(s, KeyPress(Enter));
    AddIdempotent(s.history, Trim(s.query));
  }
}
