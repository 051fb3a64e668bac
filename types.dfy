/**
 * The entities the search API returns (src/types/repos.d.ts, src/types/users.d.ts)
 * and the User/Repository discriminator of src/types/utils.ts.
 */
module Types {
  import opened Wrappers

  /** A repository as the search API describes it. */
  datatype Repository = Repository(
    id: int,
    htmlUrl: string,
    forksCount: int,
    fullName: string,
    name: string,
    language: string,
    stargazersCount: int,
    watchers: int,
    description: string)

  /** A user account as the search API describes it. */
  datatype User = User(
    id: int,
    login: string,
    htmlUrl: string,
    avatarUrl: string,
    gravatarUrl: string)

  /** One search result, tagged explicitly as a repository or a user. */
  datatype Entry = RepositoryEntry(repository: Repository) | UserEntry(user: User)

  /** The error a failed fetch surfaces: an `Error` object with its `message`. */
  datatype Error = Error(message: string)

  /**
   * The body of a search response. `items` is `None` when the field is missing
   * or holds something that is not an array.
   */
  datatype SearchResult<T> = SearchResult(incompleteResults: bool, totalCount: int, items: Option<seq<T>>)

  type RepositoryResult = SearchResult<Repository>
  type UserResult = SearchResult<User>

  /** What reading the `login` field off an entry yields: `undefined` on a repository. */
  function Login(e: Entry): Option<string> {
    match e
    case UserEntry(u) => Some(u.login)
    case RepositoryEntry(_) => None
  }

  /** isUser: an entry is a user exactly when its `login` field is defined. */
  function IsUser(e: Entry): (b: bool)
    ensures b <==> e.UserEntry?
    ensures b ==> Login(e) == Some(e.user.login)
  {
    Login(e) != None
  }

  /** The `html_url` field, present on both kinds of entry. */
  function HtmlUrl(e: Entry): string {
    match e
    case UserEntry(u) => u.htmlUrl
    case RepositoryEntry(r) => r.htmlUrl
  }

  /** The `id` field, used as the row key when rendering. */
  function Id(e: Entry): int {
    match e
    case UserEntry(u) => u.id
    case RepositoryEntry(r) => r.id
  }

  /** A repository, which has no `login` field, is never classified as a user. */
  lemma RepositoryIsNotUser(r: Repository)
    ensures !IsUser(RepositoryEntry(r))
    ensures Login(RepositoryEntry(r)) == None
  {
  }

  /** Only presence of `login` is tested, not truthiness: an empty login still makes a user. */
  lemma EmptyLoginIsUser(u: User)
    requires u.login == ""
    ensures IsUser(UserEntry(u))
  {
  }

  /** The classification reads nothing but the presence of `login`. */
  lemma IsUserDependsOnlyOnLogin(a: Entry, b: Entry)
    requires Login(a).Some? == Login(b).Some?
    ensures IsUser(a) == IsUser(b)
  {
  }
}
