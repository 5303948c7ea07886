/** The rows of the account store and the small value types shared by the handlers. */
module Records {

  datatype Option<+T> = None | Some(value: T)

  datatype Result<+T, +E> = Ok(value: T) | Err(error: E)

  /** An error answer of a handler: the HTTP status code and its detail text. */
  datatype HttpError = HttpError(code: int, detail: string)

  /** The model's outcome for an update or delete of a row that is not there (what the
      store does then is not visible in the handlers). */
  datatype StoreError = RowMissing

  /** A platform account, keyed by the identity provider's user id. */
  datatype User = User(
    clerkUserId: string,
    email: string,
    githubId: Option<int>,
    githubUsername: Option<string>,
    githubAccessToken: Option<string>)

  /** A user-scoped API key row; the key string is its primary key. */
  datatype ApiKey = ApiKey(key: string, userId: string, name: string)

  /** A project row with its project-scoped API key. */
  datatype Project = Project(
    id: string,
    userId: string,
    name: string,
    description: Option<string>,
    apiKey: string)

  /** A GitHub repository a user has added for indexing. */
  datatype Repository = Repository(
    id: string,
    userId: string,
    githubId: int,
    githubUrl: string,
    fullName: string,
    defaultBranch: string,
    isPrivate: bool,
    description: Option<string>,
    status: string)

  /** Python truthiness of an optional string: present and not empty. */
  predicate Truthy(s: Option<string>) {
    s.Some? && s.value != ""
  }

  /** The e-mail a user row gets when it is created before the identity provider's webhook. */
  function PlaceholderEmail(clerkUserId: string): string {
    clerkUserId + "@temp.monomind"
  }

  /** A user row with no GitHub account linked. */
  function UnlinkedUser(clerkUserId: string, email: string): User {
    User(clerkUserId, email, None, None, None)
  }
}
