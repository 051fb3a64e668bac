/**
 * The fetch gate and the visibility flags of GithubListing.tsx. Each flag is its
 * own boolean expression over the fetch state; they are not a priority chain.
 */
module Visibility {
  import opened Wrappers
  import opened Types

  /** MIN_CHAR_SEARCH */
  const MinCharSearch := 3

  /**
   * What the two query slots report, plus the debounced query. Network access,
   * caching and debouncing are outside the model; these are their outputs.
   */
  datatype FetchState = FetchState(
    debouncedQuery: string,
    isFetchingRepos: bool,
    isFetchingUsers: bool,
    errorRepos: Option<Error>,
    errorUsers: Option<Error>)

  /** `shouldFetch`: both queries are enabled. */
  predicate ShouldFetch(query: string) {
    |query| >= MinCharSearch
  }

  predicate IsQueryTooShortVisible(query: string) {
    |query| < MinCharSearch
  }

  /** `mergedLength` is `reposAndUsers.length`. */
  predicate IsNoResultsVisible(f: FetchState, mergedLength: nat) {
    !IsQueryTooShortVisible(f.debouncedQuery) && !f.isFetchingRepos && f.errorRepos.None? && mergedLength == 0
  }

  predicate IsSpinnerVisible(f: FetchState) {
    f.isFetchingRepos && f.errorRepos.None?
  }

  predicate IsErrorVisible(f: FetchState) {
    (f.errorRepos.Some? || f.errorUsers.Some?) && !f.isFetchingRepos && !f.isFetchingUsers
  }

  predicate IsResultsVisible(f: FetchState, mergedLength: nat) {
    !f.isFetchingRepos && !f.isFetchingUsers && f.errorRepos.None? && f.errorUsers.None? && mergedLength > 0
  }

  /** Fetching is enabled exactly when the debounced query has at least three characters,
      and the too-short hint is its exact negation. */
  lemma FetchGate(query: string)
    ensures ShouldFetch(query) <==> |query| >= 3
    ensures IsQueryTooShortVisible(query) <==> !ShouldFetch(query)
  {
  }

  /** "results" excludes "no-results", "spinner" and "error". */
  lemma ResultsExcludesOthers(f: FetchState, mergedLength: nat)
    requires IsResultsVisible(f, mergedLength)
    ensures !IsNoResultsVisible(f, mergedLength) && !IsSpinnerVisible(f) && !IsErrorVisible(f)
  {
  }

  /** "spinner" excludes "error" and "no-results". */
  lemma SpinnerExcludesErrorAndNoResults(f: FetchState, mergedLength: nat)
    requires IsSpinnerVisible(f)
    ensures !IsErrorVisible(f) && !IsNoResultsVisible(f, mergedLength)
  {
  }

  /** "no-results" is never shown together with the too-short hint, so an empty query shows no "no-results". */
  lemma NoResultsExcludesTooShort(f: FetchState, mergedLength: nat)
    requires IsNoResultsVisible(f, mergedLength)
    ensures !IsQueryTooShortVisible(f.debouncedQuery)
  {
  }

  /**
   * "no-results" and "error" hold together exactly when the query is long enough,
   * nothing is fetching, only the users slot has an error and nothing was merged.
   */
  lemma NoResultsWithError(f: FetchState, mergedLength: nat)
    ensures IsNoResultsVisible(f, mergedLength) && IsErrorVisible(f) <==>
      && |f.debouncedQuery| >= MinCharSearch
      && !f.isFetchingRepos && !f.isFetchingUsers
      && f.errorRepos.None? && f.errorUsers.Some?
      && mergedLength == 0
  {
  }

  /** A concrete state with both "no-results" and "error" visible: the users query failed. */
  lemma UsersErrorShowsNoResultsAndError(message: string)
    ensures var f := FetchState("abc", false, false, None, Some(Error(message)));
      IsNoResultsVisible(f, 0) && IsErrorVisible(f)
  {
  }

  /**
   * The spinner, error and results expressions do not read the query: over arbitrary fetch
   * states each can hold while the too-short hint does. `TooShortHidesFetchFlags` shows that
   * the fetch states the component receives rule the first two out.
   */
  lemma TooShortCoexists()
    ensures var f := FetchState("", true, false, None, None); IsQueryTooShortVisible("") && IsSpinnerVisible(f)
    ensures var f := FetchState("", false, false, Some(Error("")), None); IsErrorVisible(f)
    ensures var f := FetchState("", false, false, None, None); IsResultsVisible(f, 1)
  {
  }

  /**
   * The fetch states the component can receive: both queries are keyed by the debounced
   * query and enabled only by `shouldFetch`, so while it is too short neither is fetching
   * and neither has failed.
   */
  predicate WellFormed(f: FetchState) {
    !ShouldFetch(f.debouncedQuery) ==>
      && !f.isFetchingRepos && !f.isFetchingUsers
      && f.errorRepos.None? && f.errorUsers.None?
  }

  /** With a well-formed fetch state, a too-short query shows neither the spinner, nor the
      error, nor "no-results"; only a non-empty list could still show results. */
  lemma TooShortHidesFetchFlags(f: FetchState, mergedLength: nat)
    requires WellFormed(f) && IsQueryTooShortVisible(f.debouncedQuery)
    ensures !IsSpinnerVisible(f) && !IsErrorVisible(f) && !IsNoResultsVisible(f, mergedLength)
    ensures IsResultsVisible(f, mergedLength) <==> mergedLength > 0
  {
  }
}
