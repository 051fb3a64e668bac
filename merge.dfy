/**
 * The result merger of GithubListing.tsx (`reposAndUsers`): the repository items,
 * then the user items, sorted stably by the lower-cased `name` or `login`.
 */
module Merge {
  import opened Wrappers
  import opened Types
  import opened Strings
  import opened StableSort

  /** The text an entry is sorted by: the `login` of a user, the `name` of a repository. */
  function SortName(e: Entry): string {
    if IsUser(e) then e.user.login else e.repository.name
  }

  /** The sort key: the lower-cased `SortName`. */
  function SortKey(e: Entry): string {
    ToLowerAscii(SortName(e))
  }

  /** The order is case-insensitive: two entries compare equal exactly when their names
      differ at most in the case of ASCII letters, whether they are users or repositories. */
  lemma SortKeyIgnoresCase(a: Entry, b: Entry)
    ensures CompareBy(SortKey, a, b) == 0 <==> SameIgnoringAsciiCase(SortName(a), SortName(b))
  {
    ToLowerAsciiIgnoresCase(SortName(a), SortName(b));
  }

  /** The items of a slot; no data, a missing `items` field or a non-array one all give none. */
  function ItemsOf<T>(result: Option<SearchResult<T>>): (items: seq<T>)
    ensures result.None? ==> items == []
    ensures result.Some? && result.value.items.None? ==> items == []
    ensures result.Some? && result.value.items.Some? ==> items == result.value.items.value
  {
    if result.Some? && result.value.items.Some? then result.value.items.value else []
  }

  /** The array built before sorting: every repository item, then every user item. */
  function Combined(repositories: Option<RepositoryResult>, users: Option<UserResult>): (c: seq<Entry>)
    ensures |c| == |ItemsOf(repositories)| + |ItemsOf(users)|
    ensures forall i :: 0 <= i < |ItemsOf(repositories)| ==> c[i] == RepositoryEntry(ItemsOf(repositories)[i])
    ensures forall j :: 0 <= j < |ItemsOf(users)| ==>
      c[|ItemsOf(repositories)| + j] == UserEntry(ItemsOf(users)[j])
  {
    var rs := ItemsOf(repositories);
    var us := ItemsOf(users);
    seq(|rs|, i requires 0 <= i < |rs| => RepositoryEntry(rs[i]))
      + seq(|us|, i requires 0 <= i < |us| => UserEntry(us[i]))
  }

  /** `reposAndUsers`: copies both slots into a fresh array and sorts it in place. */
  method MergeResults(repositories: Option<RepositoryResult>, users: Option<UserResult>)
    returns (merged: seq<Entry>)
    ensures merged == SortBy(SortKey, Combined(repositories, users))
    ensures |merged| == |ItemsOf(repositories)| + |ItemsOf(users)|
    ensures multiset(merged) == multiset(Combined(repositories, users))
    ensures SortedBy(SortKey, merged)
    ensures forall k :: WithKey(SortKey, merged, k) == WithKey(SortKey, Combined(repositories, users), k)
  {
    var combined := Combined(repositories, users);
    var a := new Entry[|combined|](i requires 0 <= i < |combined| => combined[i]);
    assert a[..] == combined;
    SortInPlace(SortKey, a);
    merged := a[..];
    SortByPermutes(SortKey, combined);
    SortByIsStableSort(SortKey, combined);
  }

  /** The merged list is the one any stable sort of the combined items produces. */
  lemma MergeIsTheStableSort(repositories: Option<RepositoryResult>, users: Option<UserResult>, r: seq<Entry>)
    requires IsStableSortOf(SortKey, r, Combined(repositories, users))
    ensures r == SortBy(SortKey, Combined(repositories, users))
  {
    StableSortUnique(SortKey, r, Combined(repositories, users));
  }

  /** Merging is idempotent: re-sorting the merged list leaves it unchanged. */
  lemma MergeIdempotent(repositories: Option<RepositoryResult>, users: Option<UserResult>)
    ensures var m := SortBy(SortKey, Combined(repositories, users)); SortBy(SortKey, m) == m
  {
    SortByIdempotent(SortKey, Combined(repositories, users));
  }
}
