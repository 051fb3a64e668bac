/**
 * The keyboard navigator and dropdown visibility of GithubListing.tsx, as pure
 * transitions over the state the component keeps: `focusedIndex`,
 * `isDropdownVisible` and the current merged list `reposAndUsers`.
 *
 * The focus-reset effect (deps `[reposAndUsers, isDropdownVisible]`) is folded
 * into the transitions: it sets the focus back to -1 whenever the visibility
 * actually changes or the merged list is recomputed.
 */
module Navigator {
  import opened Wrappers
  import opened Types

  /** The `event.key` values the handler has a case for. */
  predicate IsHandledKeyName(name: string) {
    name == "ArrowUp" || name == "ArrowDown" || name == "Enter" || name == "Escape"
  }

  /** Any other `event.key` value. */
  type OtherKeyName = name: string | !IsHandledKeyName(name) witness "Tab"

  datatype Key = ArrowUp | ArrowDown | Enter | Escape | OtherKey(name: OtherKeyName)

  /** `event.key` as the `switch` in `onKeyDown` tells it apart. */
  function KeyOf(name: string): (k: Key)
    ensures k == ArrowUp <==> name == "ArrowUp"
    ensures k == ArrowDown <==> name == "ArrowDown"
    ensures k == Enter <==> name == "Enter"
    ensures k == Escape <==> name == "Escape"
    ensures k.OtherKey? <==> !IsHandledKeyName(name)
    ensures k.OtherKey? ==> k.name == name
  {
    if name == "ArrowUp" then ArrowUp
    else if name == "ArrowDown" then ArrowDown
    else if name == "Enter" then Enter
    else if name == "Escape" then Escape
    else OtherKey(name)
  }

  datatype NavState = NavState(focusedIndex: int, isDropdownVisible: bool, reposAndUsers: seq<Entry>)

  /** The events the component reacts to. `listenerHasElement` is false while the
      mouse listener was registered before the dropdown element existed. */
  datatype Event =
    | KeyPress(key: Key)
    | InputFocus
    | MouseUp(listenerHasElement: bool, clickedInside: bool)
    | ResultsChanged(merged: seq<Entry>)

  /** The state on mount. */
  const Initial := NavState(-1, false, [])

  /** `Array.prototype.at`: a negative index counts from the end; out of range is `undefined`. */
  function At(s: seq<Entry>, i: int): (r: Option<Entry>)
    ensures r.Some? <==> -|s| <= i < |s|
    ensures 0 <= i < |s| ==> r == Some(s[i])
  {
    if 0 <= i < |s| then Some(s[i])
    else if -|s| <= i < 0 then Some(s[|s| + i])
    else None
  }

  /**
   * `openLink`: the URL Enter opens in a new "_blank" context, if any. The index
   * must be non-negative, `at` must find an entry, and its `html_url` must be
   * truthy (non-empty).
   */
  function LinkToOpen(focusedIndex: int, entries: seq<Entry>): (url: Option<string>)
    ensures url.Some? <==> 0 <= focusedIndex < |entries| && HtmlUrl(entries[focusedIndex]) != ""
    ensures url.Some? ==> url.value == HtmlUrl(entries[focusedIndex])
  {
    if focusedIndex >= 0 then
      match At(entries, focusedIndex)
      case Some(e) => if HtmlUrl(e) != "" then Some(HtmlUrl(e)) else None
      case None => None
    else None
  }

  /** `setIsDropdownVisible` followed by the focus-reset effect. */
  function WithVisibility(s: NavState, visible: bool): NavState {
    if visible == s.isDropdownVisible then s
    else NavState(-1, visible, s.reposAndUsers)
  }

  /** The state after `onKeyDown`. */
  function AfterKeyDown(s: NavState, key: Key): NavState {
    if !s.isDropdownVisible then s
    else
      match key
      case ArrowUp =>
        s.(focusedIndex := if s.focusedIndex <= 0 then s.focusedIndex else s.focusedIndex - 1)
      case ArrowDown =>
        s.(focusedIndex := if s.focusedIndex >= |s.reposAndUsers| then s.focusedIndex else s.focusedIndex + 1)
      case Enter => s
      case Escape => WithVisibility(s, false)
      case OtherKey(_) => s
  }

  /** The URL `onKeyDown` opens: only Enter, and only while the dropdown is visible. */
  function KeyDownOpens(s: NavState, key: Key): Option<string> {
    if s.isDropdownVisible && key == Enter then LinkToOpen(s.focusedIndex, s.reposAndUsers) else None
  }

  /** The state after one event. */
  function Step(s: NavState, e: Event): NavState {
    match e
    case KeyPress(key) => AfterKeyDown(s, key)
    case InputFocus => WithVisibility(s, true)
    case MouseUp(hasElement, inside) => if hasElement then WithVisibility(s, inside) else s
    case ResultsChanged(merged) => NavState(-1, s.isDropdownVisible, merged)
  }

  /** The state after a sequence of events. */
  function Run(s: NavState, events: seq<Event>): NavState
    decreases |events|
  {
    if events == [] then s else Run(Step(s, events[0]), events[1..])
  }

  /**
   * The navigator's invariant: the focus lies in [-1, length] (it can be one past
   * the last row) and is -1 whenever the dropdown is hidden.
   */
  predicate Inv(s: NavState) {
    -1 <= s.focusedIndex <= |s.reposAndUsers| && (!s.isDropdownVisible ==> s.focusedIndex == -1)
  }

  lemma InitialInv()
    ensures Inv(Initial)
  {
  }

  lemma StepPreservesInv(s: NavState, e: Event)
    requires Inv(s)
    ensures Inv(Step(s, e))
  {
  }

  /** Every state reachable from the mounted component satisfies the invariant. */
  lemma {:induction false} RunPreservesInv(s: NavState, events: seq<Event>)
    requires Inv(s)
    ensures Inv(Run(s, events))
    decreases |events|
  {
    if events != [] {
      StepPreservesInv(s, events[0]);
      RunPreservesInv(Step(s, events[0]), events[1..]);
    }
  }

  /** ArrowUp leaves an index <= 0 alone and otherwise decrements it: it never moves 0 to -1
      and never goes below -1. */
  lemma ArrowUpMoves(s: NavState)
    requires Inv(s) && s.isDropdownVisible
    ensures var i := AfterKeyDown(s, ArrowUp).focusedIndex;
      (s.focusedIndex <= 0 ==> i == s.focusedIndex) && (s.focusedIndex > 0 ==> i == s.focusedIndex - 1) && i >= -1
    ensures AfterKeyDown(s, ArrowUp).reposAndUsers == s.reposAndUsers && AfterKeyDown(s, ArrowUp).isDropdownVisible
  {
  }

  /** ArrowDown increments only while the index is below the length; at the length it is a no-op. */
  lemma ArrowDownMoves(s: NavState)
    requires Inv(s) && s.isDropdownVisible
    ensures var i := AfterKeyDown(s, ArrowDown).focusedIndex;
      (s.focusedIndex < |s.reposAndUsers| ==> i == s.focusedIndex + 1)
      && (s.focusedIndex == |s.reposAndUsers| ==> AfterKeyDown(s, ArrowDown) == s)
      && i <= |s.reposAndUsers|
  {
  }

  /** Enter opens the `html_url` of the focused entry and nothing else; the state is unchanged. */
  lemma EnterOpensFocused(s: NavState)
    requires s.isDropdownVisible
    ensures AfterKeyDown(s, Enter) == s
    ensures var url := KeyDownOpens(s, Enter);
      (url.Some? <==> 0 <= s.focusedIndex < |s.reposAndUsers| && HtmlUrl(s.reposAndUsers[s.focusedIndex]) != "")
      && (url.Some? ==> url.value == HtmlUrl(s.reposAndUsers[s.focusedIndex]))
  {
  }

  /** With no focus, or focus one past the last row, Enter opens nothing. */
  lemma EnterSafeOutOfRange(s: NavState)
    requires s.focusedIndex == -1 || s.focusedIndex == |s.reposAndUsers|
    ensures KeyDownOpens(s, Enter) == None
  {
  }

  /** While the dropdown is hidden no keystroke changes anything or opens anything. */
  lemma HiddenIgnoresKeys(s: NavState, key: Key)
    requires !s.isDropdownVisible
    ensures AfterKeyDown(s, key) == s && KeyDownOpens(s, key) == None
  {
  }

  /** Unrecognised keys change nothing and open nothing. */
  lemma OtherKeysIgnored(s: NavState, name: OtherKeyName)
    ensures AfterKeyDown(s, OtherKey(name)) == s && KeyDownOpens(s, OtherKey(name)) == None
  {
  }

  /** Escape hides the dropdown, which clears the focus; the list is not touched. */
  lemma EscapeHides(s: NavState)
    requires s.isDropdownVisible
    ensures AfterKeyDown(s, Escape) == NavState(-1, false, s.reposAndUsers)
    ensures KeyDownOpens(s, Escape) == None
  {
  }

  /** Focusing the input shows the dropdown; the focus is kept if it was already shown. */
  lemma FocusShows(s: NavState)
    ensures Step(s, InputFocus).isDropdownVisible
    ensures Step(s, InputFocus).reposAndUsers == s.reposAndUsers
    ensures s.isDropdownVisible ==> Step(s, InputFocus) == s
  {
  }

  /** A mouseup sets the visibility to whether the click landed inside the dropdown's
      container; before the listener has an element it does nothing. */
  lemma MouseUpSetsVisibility(s: NavState, inside: bool)
    ensures Step(s, MouseUp(true, inside)).isDropdownVisible == inside
    ensures Step(s, MouseUp(false, inside)) == s
  {
  }

  /** A new merged list, or a change of visibility, resets the focus to -1. */
  lemma FocusResets(s: NavState, merged: seq<Entry>, visible: bool)
    ensures Step(s, ResultsChanged(merged)).focusedIndex == -1
    ensures visible != s.isDropdownVisible ==> WithVisibility(s, visible).focusedIndex == -1
  {
  }

  /**
   * The focus can reach one past the last row: with one entry, focusing the input
   * and pressing ArrowDown twice leaves the index at 1 == length, where Enter opens nothing.
   */
  lemma FocusReachesLength(e: Entry)
    ensures var s := Run(Initial, [ResultsChanged([e]), InputFocus, KeyPress(ArrowDown), KeyPress(ArrowDown)]);
      s.focusedIndex == |s.reposAndUsers| == 1 && KeyDownOpens(s, Enter) == None
  {
    var s1 := Step(Initial, ResultsChanged([e]));
    var s2 := Step(s1, InputFocus);
    var s3 := Step(s2, KeyPress(ArrowDown));
    var s4 := Step(s3, KeyPress(ArrowDown));
    assert s4 == NavState(1, true, [e]);
    var evs := [ResultsChanged([e]), InputFocus, KeyPress(ArrowDown), KeyPress(ArrowDown)];
    assert Run(s4, []) == s4;
    assert Run(s3, evs[3..]) == s4;
    assert Run(s2, evs[2..]) == s4;
    assert Run(s1, evs[1..]) == s4;
  }
}
