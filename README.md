# Search widget state model (github-explorer)

A Dafny model of the search-and-autocomplete widget of github-explorer: the
`GithubListing` component, which merges the repository and user results of
two search queries into one list, derives which sections of the dropdown are
visible, and moves a keyboard focus through the list; the `Dropdown`
component that renders that state; and the `isUser` discriminator.

Modules, one per source concern:

- `Types` (types.dfy): `Repository`, `User`, the tagged `Entry`, `Error`, the
  search response `SearchResult`, and `IsUser`, decided by whether the `login`
  field is present.
- `Strings` (strings.dfy): ASCII lower-casing and JavaScript's `<` on strings,
  with the lemmas that make it a strict total order.
- `StableSort` (sort.dfy): `Array.prototype.sort` with a key-derived
  comparator. `SortBy` is a stable insertion sort written as a function.
  `SortInPlace` sorts an array in place and is proved equal to it. Further
  lemmas prove that the result is ordered, a permutation, stable, and the
  unique stable sort under that comparator.
- `Merge` (merge.dfy): `reposAndUsers`. Repositories first, then users, with
  a missing or non-array `items` treated as empty, sorted by the lower-cased
  `name` or `login`.
- `Visibility` (visibility.dfy): the fetch gate and the five visibility flags,
  each computed on its own as in the source, with the pairs that exclude each
  other and the pair that does not.
- `Navigator` (navigator.dfy): the focus/visibility state machine as pure
  transitions, its invariant over every reachable state, and the event-by-event
  properties.
- `DropdownView` (dropdown.dfy): `Dropdown` as a function from props to an
  abstract view.
- `Listing` (listing.dfy): the `GithubListing` class. It has the three state
  fields and one method per event handler. Each method is proved to perform the
  corresponding `Navigator` transition. `Render` returns what the component
  shows for a given fetch state.

## Behaviour worth noting

- ArrowDown stops at `index >= reposAndUsers.length`
  (GithubListing.tsx:181-183), so the focus can reach the length, one past the
  last row. `FocusReachesLength` shows the index reaching the length.
  `EnterSafeOutOfRange` shows that Enter opens nothing there, and `FocusedRow`
  shows that no row is highlighted there.
- The visibility flags are separate boolean expressions, not a priority chain.
  "no-results" and "error" can therefore both be true (only the users query
  failed). The spinner, error and results expressions do not read the query,
  so over arbitrary fetch states each can hold together with the too-short
  hint (`TooShortCoexists`). The component does not receive such states: both
  queries are keyed by the debounced query and enabled only by `shouldFetch`
  (GithubListing.tsx:46, 59, 68, 81). So while the query is too short, neither
  query is fetching and neither has an error. Under that well-formedness
  condition a too-short query shows neither the spinner nor the error
  (`TooShortHidesFetchFlags`).
- The test at GithubListing.test.tsx:42-43 expects "no-results" for an empty
  query. The code at GithubListing.tsx:116-121 gives false in that case, and
  `NoResultsExcludesTooShort` states the code's behaviour.

## Model

| member | source | states |
|---|---|---|
| `Types.IsUser` | src/types/utils.ts:3-5 | an entry is a user exactly when it is tagged as one, i.e. when its `login` field is defined |
| `Types.RepositoryIsNotUser` | src/types/utils.ts:4 | a repository, which has no `login`, is never classified as a user |
| `Types.EmptyLoginIsUser` | src/types/utils.ts:4 | an empty `login` still makes a user: presence is tested, not truthiness |
| `Types.IsUserDependsOnlyOnLogin` | src/types/utils.ts:4 | two entries that agree on whether `login` is present are classified alike, whatever their other fields |
| `Strings.ToLowerAsciiSpec` | src/components/GithubListing/GithubListing.tsx:101-106 | lower-casing keeps the length, turns each ASCII capital into its own small letter and changes no other character |
| `Strings.ToLowerAsciiIgnoresCase` | src/components/GithubListing/GithubListing.tsx:101-106 | two strings lower-case alike exactly when they differ at most in the case of ASCII letters |
| `Strings.LtTotal` | src/components/GithubListing/GithubListing.tsx:108-110 | any two keys are equal or ordered one way or the other by `<` |
| `Strings.LtTransitive` | src/components/GithubListing/GithubListing.tsx:108-110 | `<` on keys is transitive |
| `StableSort.CompareBy` | src/components/GithubListing/GithubListing.tsx:100-111 | the comparator returns -1, 0 or 1; negative exactly when key a < key b, positive exactly when key b < key a, zero exactly when the keys are equal |
| `StableSort.CompareAntisymmetric` | src/components/GithubListing/GithubListing.tsx:100-111 | swapping the comparator's arguments negates its result |
| `StableSort.CompareTransitive` | src/components/GithubListing/GithubListing.tsx:100-111 | "ordered no later than" is transitive, so the comparator is consistent |
| `StableSort.SortInPlace` | src/components/GithubListing/GithubListing.tsx:100 | sorting the array in place leaves exactly the stable sort of its old contents |
| `StableSort.InsertLast` | src/components/GithubListing/GithubListing.tsx:100 | one in-place step moves the next element into the sorted prefix and leaves the rest of the array alone |
| `StableSort.SortBySorted` | src/components/GithubListing/GithubListing.tsx:100-111 | the sorted list is non-decreasing under the comparator |
| `StableSort.SortByPermutes` | src/components/GithubListing/GithubListing.tsx:100-111 | the sorted list is a permutation of the input |
| `StableSort.SortByStable` | src/components/GithubListing/GithubListing.tsx:100-111 | for every key, the entries with that key appear in the same order as in the input |
| `StableSort.StableSortUnique` | src/components/GithubListing/GithubListing.tsx:100-111 | any ordered list with the input's key groups in input order is equal to `SortBy` |
| `StableSort.SortByIdempotent` | src/components/GithubListing/GithubListing.tsx:100-111 | sorting a sorted list again changes nothing |
| `Merge.ItemsOf` | src/components/GithubListing/GithubListing.tsx:96-97 | an array `items` is taken as it is; no data, a missing `items` field or a non-array one gives no items |
| `Merge.SortKeyIgnoresCase` | src/components/GithubListing/GithubListing.tsx:101-110 | two entries compare equal exactly when their `login`/`name` differ at most in ASCII case, so the order is case-insensitive |
| `Merge.Combined` | src/components/GithubListing/GithubListing.tsx:95-98 | the unsorted array holds every repository item, then every user item, in response order; its length is the sum of the two counts |
| `Merge.MergeResults` | src/components/GithubListing/GithubListing.tsx:94-114 | the merged list has as many entries as both slots together, is a permutation of repositories-then-users, is non-decreasing by lower-cased `login`/`name`, and keeps equal keys in concatenation order |
| `Merge.MergeIsTheStableSort` | src/components/GithubListing/GithubListing.tsx:100-111 | any stable sort of the combined items is the merged list, so the result does not depend on the sorting algorithm |
| `Merge.MergeIdempotent` | src/components/GithubListing/GithubListing.tsx:94-114 | re-sorting the merged list leaves it unchanged |
| `Visibility.FetchGate` | src/components/GithubListing/GithubListing.tsx:34-37 | fetching is enabled exactly when the debounced query has at least 3 characters; the too-short flag (lines 89-92) is its exact negation |
| `Visibility.ResultsExcludesOthers` | src/components/GithubListing/GithubListing.tsx:116-160 | when "results" is visible, "no-results", "spinner" and "error" are not |
| `Visibility.SpinnerExcludesErrorAndNoResults` | src/components/GithubListing/GithubListing.tsx:116-138 | when the spinner is visible, "error" and "no-results" are not |
| `Visibility.NoResultsExcludesTooShort` | src/components/GithubListing/GithubListing.tsx:116-121 | "no-results" never shows with a too-short query, an empty one included |
| `Visibility.NoResultsWithError` | src/components/GithubListing/GithubListing.tsx:116-138 | "no-results" and "error" hold together exactly when the query is long enough, nothing is fetching, only the users slot has an error and the merged list is empty |
| `Visibility.UsersErrorShowsNoResultsAndError` | src/components/GithubListing/GithubListing.tsx:116-138 | a users-only error with an empty list shows both "no-results" and "error" |
| `Visibility.TooShortCoexists` | src/components/GithubListing/GithubListing.tsx:130-160 | the spinner, error and results expressions ignore the query, so over arbitrary fetch states each can hold with a too-short query |
| `Visibility.TooShortHidesFetchFlags` | src/components/GithubListing/GithubListing.tsx:34-81 | when both queries are gated by `shouldFetch`, a too-short query shows neither the spinner, nor the error, nor "no-results", and results only for a non-empty list |
| `Navigator.At` | src/components/GithubListing/GithubListing.tsx:141 | `at` yields an entry exactly for indices in [-length, length) and the i-th entry for non-negative i |
| `Navigator.LinkToOpen` | src/components/GithubListing/GithubListing.tsx:140-147 | a URL is opened exactly when the focus is a row index and that row's `html_url` is non-empty, and it is that row's `html_url` |
| `Navigator.InitialInv` | src/components/GithubListing/GithubListing.tsx:38-39 | the mounted state (hidden, focus -1, empty list) satisfies the invariant |
| `Navigator.StepPreservesInv` | src/components/GithubListing/GithubListing.tsx:162-197 | every event keeps the focus in [-1, length] and at -1 while hidden |
| `Navigator.RunPreservesInv` | src/components/GithubListing/GithubListing.tsx:162-197 | every sequence of events keeps that invariant |
| `Navigator.ArrowUpMoves` | src/components/GithubListing/GithubListing.tsx:175-177 | ArrowUp leaves an index <= 0 unchanged and otherwise decrements it; it never moves 0 to -1 or goes below -1 |
| `Navigator.ArrowDownMoves` | src/components/GithubListing/GithubListing.tsx:179-183 | ArrowDown increments while the index is below the length, never passes the length, and is a no-op at the length |
| `Navigator.EnterOpensFocused` | src/components/GithubListing/GithubListing.tsx:185-187 | Enter changes no state and opens at most one URL: the focused row's non-empty `html_url` |
| `Navigator.EnterSafeOutOfRange` | src/components/GithubListing/GithubListing.tsx:140-147 | with focus -1 or equal to the length, Enter opens nothing |
| `Navigator.HiddenIgnoresKeys` | src/components/GithubListing/GithubListing.tsx:172 | while the dropdown is hidden no key changes the state or opens anything |
| `Navigator.KeyOf` | src/components/GithubListing/GithubListing.tsx:174-193 | each handled `event.key` name selects its own case, and exactly the other names fall to `default` |
| `Navigator.OtherKeysIgnored` | src/components/GithubListing/GithubListing.tsx:192-193 | an unrecognised key changes nothing and opens nothing |
| `Navigator.EscapeHides` | src/components/GithubListing/GithubListing.tsx:188-191 | Escape hides the dropdown and the focus goes back to -1; the list is kept |
| `Navigator.FocusShows` | src/components/GithubListing/GithubListing.tsx:162-164 | focusing the input shows the dropdown, keeps the list, and changes nothing if it was already shown |
| `Navigator.MouseUpSetsVisibility` | src/components/GithubListing/GithubListing.tsx:15-19 | a mouseup sets visibility to whether the click was inside; with no element yet it does nothing |
| `Navigator.FocusResets` | src/components/GithubListing/GithubListing.tsx:166-168 | a new merged list, or a change of visibility, resets the focus to -1 |
| `Navigator.FocusReachesLength` | src/components/GithubListing/GithubListing.tsx:179-183 | with one entry, focus plus two ArrowDowns leaves the focus at 1, the length, where Enter opens nothing |
| `DropdownView.RowForShowsEntry` | src/components/GithubListing/GithubListingDropdown.tsx:39-43 | a row renders exactly the entry it came from, as a user row exactly when `isUser` holds |
| `DropdownView.ErrorText` | src/components/GithubListing/GithubListingDropdown.tsx:64 | the error text is the repositories error message when there is one (even an empty one), otherwise the users error message, and undefined only when neither slot has an error |
| `DropdownView.Dropdown` | src/components/GithubListing/GithubListingDropdown.tsx:29-70 | the result list appears exactly when `isResultsVisible`; no-results, spinner and error each appear exactly when their own flag is set; the error section shows `ErrorText` |
| `DropdownView.RowsMatchEntries` | src/components/GithubListing/GithubListingDropdown.tsx:37-45 | the rows match `reposAndUsers` one for one in the same order, keyed by `id`, as user rows exactly when `isUser` holds |
| `DropdownView.FocusedRow` | src/components/GithubListing/GithubListingDropdown.tsx:38 | row idx is focused exactly when idx equals `focusedIndex`; at most one row is, and one is exactly when the index is a row index |
| `DropdownView.SectionsIndependent` | src/components/GithubListing/GithubListingDropdown.tsx:48-67 | with all flags set, the list, no-results, spinner and error sections all appear at once |
| `Listing.RenderListing` | src/components/GithubListing/GithubListing.tsx:215-227 | the dropdown is rendered exactly when it is visible |
| `Listing.GithubListing.constructor` | src/components/GithubListing/GithubListing.tsx:38-39 | the component starts hidden, with focus -1 and an empty list |
| `Listing.GithubListing.SetDropdownVisible` | src/components/GithubListing/GithubListing.tsx:166-168 | setting visibility to a new value resets the focus; setting the same value changes nothing |
| `Listing.GithubListing.OnKeyDown` | src/components/GithubListing/GithubListing.tsx:170-197 | the handler performs the `AfterKeyDown` transition and returns the URL `KeyDownOpens` names, keeping the invariant |
| `Listing.GithubListing.OnFocus` | src/components/GithubListing/GithubListing.tsx:162-164 | focusing the input performs the input-focus transition |
| `Listing.GithubListing.OnMouseUp` | src/components/GithubListing/GithubListing.tsx:15-19 | the mouseup listener performs the mouseup transition |
| `Listing.GithubListing.OnResultsChanged` | src/components/GithubListing/GithubListing.tsx:94-114 | new data replaces the list with the merged, stably sorted items and resets the focus to -1 |
| `Listing.GithubListing.Render` | src/components/GithubListing/GithubListing.tsx:215-227 | the dropdown renders exactly while visible; each section shows under its own flag computed from the fetch state; the list has one row per entry, the row at `focusedIndex` and only it highlighted, none when the focus is not a row index |
| `Listing.RenderedFocus` | src/components/GithubListing/GithubListingDropdown.tsx:38 | in every reachable state a rendered list has one row per entry and highlights at most one row, and one exactly when the focus is a row index |
| `Listing.ArrowDownThenEnter` | src/components/GithubListing/GithubListing.test.tsx:78-101 | after new results nothing is highlighted; one ArrowDown highlights exactly the first row and Enter then opens its URL |

## Left out

- Network fetching, JSON decoding, react-query caching, `staleTime` and
  query-key deduplication: the slots' `isFetching`, `error` and `data` are
  inputs (`FetchState`, the arguments of `OnResultsChanged`).
- The 500 ms debounce: the debounced query is an input string.
- Listener registration and removal, `element.contains`, `inputRef.blur()`,
  `preventDefault`, `window.open`'s return value and `win.focus()`: only the
  boolean "clicked inside", whether the listener has an element yet, and the
  URL that would be opened remain.
- React's render and effect scheduling: each event is applied together with
  the focus-reset effect it triggers, one event at a time.
- `useResponsiveHeight`, the `scrollIntoView` effect of `SearchEntry`, and the
  markup of `RepositoryEntry`, `UserEntry`, `Spinner` and `App`: DOM geometry
  and presentation.
- The `isQueryTooShortVisible` prop passed to `Dropdown`: the component does
  not declare or render it, so it has no effect on the view.
- `Strings.ToLowerAscii`: only ASCII capitals are lower-cased, not full
  Unicode `toLowerCase` with its locale rules.
- `Strings.Lt`: compares Dafny characters (Unicode scalar values), not UTF-16
  code units, and string lengths count scalar values. The two differ only for
  characters outside the Basic Multilingual Plane.
