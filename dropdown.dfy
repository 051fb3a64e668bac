/**
 * The `Dropdown` component of GithubListingDropdown.tsx as a function from its
 * props to an abstract view: which sections appear, the rows in order, which
 * row is focused, and the error text.
 */
module DropdownView {
  import opened Wrappers
  import opened Types

  datatype DropdownProps = DropdownProps(
    isResultsVisible: bool,
    reposAndUsers: seq<Entry>,
    focusedIndex: int,
    isNoResultsVisible: bool,
    isSpinnerVisible: bool,
    isErrorVisible: bool,
    errorRepos: Option<Error>,
    errorUsers: Option<Error>)

  /** What a row renders: a user entry or a repository entry. */
  datatype RowContent = UserRow(user: User) | RepositoryRow(repository: Repository)

  /** A `SearchEntry` row: its React key, whether it is highlighted, and its content. */
  datatype Row = Row(key: int, isFocused: bool, content: RowContent)

  datatype Section<T> = Hidden | Shown(content: T)

  /**
   * The rendered dropdown. `errorMessage`, when shown, holds the text of the
   * paragraph, or `None` when the expression yields `undefined` and nothing is printed.
   */
  datatype View = View(
    resultList: Section<seq<Row>>,
    noResults: bool,
    spinner: bool,
    errorMessage: Section<Option<string>>)

  /** The row content chosen by `isUser`. */
  function RowFor(e: Entry): RowContent {
    if IsUser(e) then UserRow(e.user) else RepositoryRow(e.repository)
  }

  /** The entry a row shows. */
  function EntryOf(c: RowContent): Entry {
    match c
    case UserRow(u) => UserEntry(u)
    case RepositoryRow(r) => RepositoryEntry(r)
  }

  /** A row shows exactly the entry it was made from, as a user row exactly when `isUser` holds. */
  lemma RowForShowsEntry(e: Entry)
    ensures EntryOf(RowFor(e)) == e
    ensures RowFor(e).UserRow? <==> IsUser(e)
  {
  }

  /** `errorRepos?.message ?? errorUsers?.message` */
  function ErrorText(errorRepos: Option<Error>, errorUsers: Option<Error>): (text: Option<string>)
    ensures errorRepos.Some? ==> text == Some(errorRepos.value.message)
    ensures errorRepos.None? && errorUsers.Some? ==> text == Some(errorUsers.value.message)
    ensures text.None? <==> errorRepos.None? && errorUsers.None?
  {
    match errorRepos
    case Some(e) => Some(e.message)
    case None =>
      match errorUsers
      case Some(e) => Some(e.message)
      case None => None
  }

  /** The `map` over `reposAndUsers`. */
  function Rows(entries: seq<Entry>, focusedIndex: int): seq<Row> {
    seq(|entries|, i requires 0 <= i < |entries| => Row(Id(entries[i]), focusedIndex == i, RowFor(entries[i])))
  }

  function Dropdown(p: DropdownProps): (v: View)
    ensures v.resultList.Shown? <==> p.isResultsVisible
    ensures v.noResults == p.isNoResultsVisible
    ensures v.spinner == p.isSpinnerVisible
    ensures v.errorMessage.Shown? <==> p.isErrorVisible
    ensures v.errorMessage.Shown? ==> v.errorMessage.content == ErrorText(p.errorRepos, p.errorUsers)
  {
    View(
      if p.isResultsVisible then Shown(Rows(p.reposAndUsers, p.focusedIndex)) else Hidden,
      p.isNoResultsVisible,
      p.isSpinnerVisible,
      if p.isErrorVisible then Shown(ErrorText(p.errorRepos, p.errorUsers)) else Hidden)
  }

  /** The rows match `reposAndUsers` one for one and in the same order; each row is keyed by its
      entry's `id` and renders as a user exactly when `isUser` holds. */
  lemma RowsMatchEntries(p: DropdownProps)
    requires p.isResultsVisible
    ensures var rows := Dropdown(p).resultList.content;
      && |rows| == |p.reposAndUsers|
      && forall i :: 0 <= i < |rows| ==>
        && EntryOf(rows[i].content) == p.reposAndUsers[i]
        && rows[i].key == Id(p.reposAndUsers[i])
        && (rows[i].content.UserRow? <==> IsUser(p.reposAndUsers[i]))
  {
    var rows := Dropdown(p).resultList.content;
    forall i | 0 <= i < |rows|
      ensures EntryOf(rows[i].content) == p.reposAndUsers[i]
      ensures rows[i].content.UserRow? <==> IsUser(p.reposAndUsers[i])
    {
      RowForShowsEntry(p.reposAndUsers[i]);
    }
  }

  /** Row idx is focused exactly when idx == focusedIndex: at most one row is, and none when the
      index is -1 or the length. */
  lemma FocusedRow(p: DropdownProps)
    requires p.isResultsVisible
    ensures var rows := Dropdown(p).resultList.content;
      && (forall i :: 0 <= i < |rows| ==> (rows[i].isFocused <==> i == p.focusedIndex))
      && (forall i, j :: 0 <= i < |rows| && 0 <= j < |rows| && rows[i].isFocused && rows[j].isFocused ==> i == j)
      && ((exists i :: 0 <= i < |rows| && rows[i].isFocused) <==> 0 <= p.focusedIndex < |rows|)
  {
    var rows := Dropdown(p).resultList.content;
    if 0 <= p.focusedIndex < |rows| {
      assert rows[p.focusedIndex].isFocused;
    }
  }

  /** The sections are independent: with all four flags set, all four appear at once. */
  lemma SectionsIndependent(entries: seq<Entry>, focusedIndex: int, errorRepos: Option<Error>, errorUsers: Option<Error>)
    ensures var v := Dropdown(DropdownProps(true, entries, focusedIndex, true, true, true, errorRepos, errorUsers));
      v.resultList.Shown? && v.noResults && v.spinner && v.errorMessage.Shown?
  {
  }
}
