/**
 * The `GithubListing` component: the state it keeps between renders, one method
 * per event it handles, and what it renders for a given fetch state.
 */
module Listing {
  import opened Wrappers
  import opened Types
  import opened StableSort
  import opened Merge
  import opened Visibility
  import opened Navigator
  import opened DropdownView

  /** The props the component hands to `Dropdown`. */
  function PropsFor(s: NavState, f: FetchState): DropdownProps {
    var n := |s.reposAndUsers|;
    DropdownProps(
      IsResultsVisible(f, n),
      s.reposAndUsers,
      s.focusedIndex,
      IsNoResultsVisible(f, n),
      IsSpinnerVisible(f),
      IsErrorVisible(f),
      f.errorRepos,
      f.errorUsers)
  }

  /** The dropdown is rendered only while it is visible. */
  function RenderListing(s: NavState, f: FetchState): (v: Option<View>)
    ensures v.Some? <==> s.isDropdownVisible
  {
    if s.isDropdownVisible then Some(Dropdown(PropsFor(s, f))) else None
  }

  class GithubListing {
    var focusedIndex: int
    var isDropdownVisible: bool
    var reposAndUsers: seq<Entry>

    function State(): NavState
      reads this
    {
      NavState(focusedIndex, isDropdownVisible, reposAndUsers)
    }

    ghost predicate Valid()
      reads this
    {
      Inv(State())
    }

    constructor ()
      ensures Valid() && State() == Initial
    {
      focusedIndex := -1;
      isDropdownVisible := false;
      reposAndUsers := [];
    }

    /** `setIsDropdownVisible`, followed by the focus reset when the value changed. */
    method SetDropdownVisible(visible: bool)
      requires Valid()
      modifies this
      ensures Valid()
      ensures State() == WithVisibility(old(State()), visible)
    {
      if visible != isDropdownVisible {
        isDropdownVisible := visible;
        focusedIndex := -1;
      }
    }

    /** `onKeyDown`; returns the URL Enter opens in a new "_blank" context. */
    method OnKeyDown(key: Key) returns (url: Option<string>)
      requires Valid()
      modifies this
      ensures Valid()
      ensures State() == AfterKeyDown(old(State()), key)
      ensures url == KeyDownOpens(old(State()), key)
    {
      url := None;
      if !isDropdownVisible {
        return;
      }
      match key {
        case ArrowUp =>
          if focusedIndex > 0 {
            focusedIndex := focusedIndex - 1;
          }
        case ArrowDown =>
          if focusedIndex < |reposAndUsers| {
            focusedIndex := focusedIndex + 1;
          }
        case Enter =>
          url := LinkToOpen(focusedIndex, reposAndUsers);
        case Escape =>
          SetDropdownVisible(false);
        case OtherKey(_) =>
      }
    }

    /** `onFocus` of the input. */
    method OnFocus()
      requires Valid()
      modifies this
      ensures Valid()
      ensures State() == Step(old(State()), InputFocus)
    {
      SetDropdownVisible(true);
    }

    /** The document-level mouseup listener. */
    method OnMouseUp(listenerHasElement: bool, clickedInside: bool)
      requires Valid()
      modifies this
      ensures Valid()
      ensures State() == Step(old(State()), MouseUp(listenerHasElement, clickedInside))
    {
      if listenerHasElement {
        SetDropdownVisible(clickedInside);
      }
    }

    /** New data in either slot: the list is merged afresh and the focus is reset. */
    method OnResultsChanged(repositories: Option<RepositoryResult>, users: Option<UserResult>)
      requires Valid()
      modifies this
      ensures Valid()
      ensures State() == Step(old(State()), ResultsChanged(SortBy(SortKey, Combined(repositories, users))))
    {
      var merged := MergeResults(repositories, users);
      reposAndUsers := merged;
      focusedIndex := -1;
    }

    /**
     * What the component renders for the fetch state `f`: nothing while hidden; otherwise
     * each section under its own flag, and in the result list one row per entry with the
     * focused entry, and only it, highlighted.
     */
    function Render(f: FetchState): (v: Option<View>)
      reads this
      requires Valid()
      ensures v.Some? <==> isDropdownVisible
      ensures v.Some? ==>
        && v.value.spinner == IsSpinnerVisible(f)
        && v.value.noResults == IsNoResultsVisible(f, |reposAndUsers|)
        && (v.value.errorMessage.Shown? <==> IsErrorVisible(f))
        && (v.value.resultList.Shown? <==> IsResultsVisible(f, |reposAndUsers|))
      ensures v.Some? && v.value.resultList.Shown? ==>
        var rows := v.value.resultList.content;
        && |rows| == |reposAndUsers|
        && (forall i :: 0 <= i < |rows| ==> (rows[i].isFocused <==> i == focusedIndex))
        && (forall i, j :: 0 <= i < |rows| && 0 <= j < |rows| && rows[i].isFocused && rows[j].isFocused ==> i == j)
        && ((exists i :: 0 <= i < |rows| && rows[i].isFocused) <==> 0 <= focusedIndex < |rows|)
    {
      if isDropdownVisible && IsResultsVisible(f, |reposAndUsers|) then
        FocusedRow(PropsFor(State(), f));
        RenderListing(State(), f)
      else
        RenderListing(State(), f)
    }
  }

  /** In every state reachable from the mounted component, a rendered result list highlights
      at most one row, and it highlights a row exactly when the focus lies on one. */
  lemma RenderedFocus(events: seq<Event>, f: FetchState)
    ensures var s := Run(Initial, events);
      var v := RenderListing(s, f);
      v.Some? && v.value.resultList.Shown? ==>
        var rows := v.value.resultList.content;
        && |rows| == |s.reposAndUsers|
        && (forall i, j :: 0 <= i < |rows| && 0 <= j < |rows| && rows[i].isFocused && rows[j].isFocused ==> i == j)
        && ((exists i :: 0 <= i < |rows| && rows[i].isFocused) <==> 0 <= s.focusedIndex < |rows|)
  {
    var s := Run(Initial, events);
    InitialInv();
    RunPreservesInv(Initial, events);
    if s.isDropdownVisible && IsResultsVisible(f, |s.reposAndUsers|) {
      FocusedRow(PropsFor(s, f));
    }
  }

  /**
   * New results arrive while the dropdown is open and the queries have settled: nothing is
   * highlighted; one ArrowDown highlights exactly the first row, and Enter then opens its URL.
   */
  lemma ArrowDownThenEnter(s: NavState, merged: seq<Entry>, f: FetchState)
    requires s.isDropdownVisible && merged != [] && HtmlUrl(merged[0]) != ""
    requires IsResultsVisible(f, |merged|)
    ensures var s1 := Step(s, ResultsChanged(merged));
      var s2 := Step(s1, KeyPress(ArrowDown));
      && (forall i :: 0 <= i < |merged| ==> !RenderListing(s1, f).value.resultList.content[i].isFocused)
      && (forall i :: 0 <= i < |merged| ==> (RenderListing(s2, f).value.resultList.content[i].isFocused <==> i == 0))
      && KeyDownOpens(s2, Enter) == Some(HtmlUrl(merged[0]))
  {
    var s1 := Step(s, ResultsChanged(merged));
    var s2 := Step(s1, KeyPress(ArrowDown));
    FocusedRow(PropsFor(s1, f));
    FocusedRow(PropsFor(s2, f));
  }
}
