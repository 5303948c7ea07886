# monomind-backend account store, in Dafny

This project models the identity and credential core of the monomind backend, a FastAPI
service over a Prisma store. It covers four areas:

- **Webhook provisioning.** The identity provider (Clerk) sends "user.created", and the
  handler creates the user row if it is absent.
- **GitHub OAuth linking.** This covers building the authorization URL and the callback
  that links a GitHub account. At most one user may hold a given GitHub account.
- **The status query and the two repository handlers.** These handlers list the user's
  GitHub repositories, each flagged as indexed or not, and record a repository as
  "PENDING".
- **API keys.** Users have `mk_live_` keys (generate, list by owner, delete by key).
  Projects have `mk_proj_` keys (create, list, get, patch, delete, rotate).

The older root-level application (`main.py`) repeats the webhook and the two user-key
routes. It is modelled by delegating to the same operations.

The store is the class `Database.Db`. It has one field per table:

- users, a map keyed by `clerkUserId`;
- API keys, projects and repositories, each a sequence in insertion order.

`Db.Valid()` holds two kinds of facts. The first are the store's unique columns:

- the user id;
- the `githubId`;
- the API key string;
- the project id and the project key.

The second are invariants that the handlers maintain on top of the store:

- each user is stored under its own id;
- a user's three GitHub fields are set together;
- every stored key has the shape it was minted with.

Each handler is a method whose `modifies` names exactly the tables it may write. Each is
proved against a pure function that says what the handler does:

- `Clerk.Provision` for the webhook;
- `Github.Link` for the callback;
- `Tables.Where`, `Tables.FindProject`, `Tables.ReplaceById` and `Tables.CreateIfAbsent`
  for the store queries.

The lemmas beside these functions state what the design promises. Every GitHub reply,
every random key suffix and every id the store generates is an input of the handler that
uses it.

Modules:

- `Records`: the rows.
- `Tables`: the constraints and the queries on values.
- `Secrets`: the key format.
- `Database`: the store.
- `Clerk`, `Github`, `ApiKeys`, `Projects`: the routers.
- `QueryStrings`: reads a URL's query back.
- `RootApp`: `main.py`.

## Where the code and the design description differ

The model follows the code in each case.

- **Webhook and existing users.** The design says the webhook overwrites the e-mail of an
  existing user. In the code, the upsert's update is empty (src/apis/clerk.py:18). So a
  placeholder e-mail written by the callback or by project creation stays
  (`Github.PlaceholderEmailSurvivesWebhook`).
- **Default project.** The design says the first webhook creates a default project with
  its own key. The code creates no project (src/apis/clerk.py:7-21).
- **Malformed webhook.** The design says a malformed webhook event is acknowledged with
  success. In the code, a missing `data`, `id` or first `email_addresses` entry raises, and
  so does a first entry without `email_address`. The framework then answers 500
  (`Clerk.Provision`).
- **Key deletion.** The design says deleting a key is idempotent. What the store does when
  asked to delete a missing row is not visible in the code. The model treats that case as
  an error that writes nothing, so a second delete is not modelled as a success
  (`ApiKeys.DeleteApiKey`).
- **Key listing.** The design says the key listing shows only labels and metadata. The
  code returns the full rows, including each key string (src/apis/api_keys.py:21). The
  model returns the full rows (`ApiKeys.ListApiKeys`).
- **OAuth `state`.** The design asks for a protected `state`. The code sends the raw,
  unsigned user id as `state` (src/apis/github.py:18) and trusts it when it comes back.
  The model does the same (`Github.AuthorizeUrl`, `Github.Link`).

## Model

| member | source | states |
|---|---|---|
| Tables.CreateIfAbsent | src/apis/projects.py:16-25 | the upsert with an empty update adds the id to the user table. It creates an unlinked user with the given e-mail only when the id is new. Every existing row is unchanged, and the store's user constraints are preserved |
| Tables.CreateIfAbsentIdempotent | src/apis/clerk.py:11-20 | repeating the create-if-absent upsert, even with another e-mail, leaves the table as the first one left it |
| Tables.Where | src/apis/api_keys.py:19-22 | a `find_many` filter returns exactly the stored rows that satisfy the filter, and never more rows than the table holds |
| Tables.ReplaceById | src/apis/projects.py:79-82 | an update by id changes nothing when no project has the id. Otherwise the written project is stored in that row's place, every other row is kept, and nothing else new appears |
| Tables.FindProject | src/apis/projects.py:56-59 | `find_unique` by id gives nothing exactly when no project has that id. Otherwise it gives a stored project with that id |
| Database.Db.FindUserByGithubId | src/apis/github.py:75-77 | the lookup by `githubId` gives nothing exactly when no user holds that GitHub id. Otherwise it gives a stored user that holds it |
| Secrets.TokenHasShape | src/apis/api_keys.py:12 | every minted key is its class prefix followed by the 43 URL-safe characters of `token_urlsafe(32)` |
| ApiKeys.GenerateApiKey | src/apis/api_keys.py:8-16 | the handler appends exactly one row (key, owner, name) and answers that key. The key has the `mk_live_` shape. The owner's listing gains that row at its end, and the constraints hold |
| ApiKeys.ListApiKeys | src/apis/api_keys.py:19-22 | the result holds exactly the rows whose owner is the user, with their key strings |
| ApiKeys.FreshSuffixGivesUnusedKey | src/apis/api_keys.py:12-15 | the unused-key condition on the insert follows from the suffix alone: a suffix unlike that of every stored `mk_live_` key gives a key no row holds |
| ApiKeys.DeleteApiKey | src/apis/api_keys.py:25-28 | a stored key loses its row and only that row, and the answer is "deleted". A key that is not stored is treated as an error that writes nothing |
| ApiKeys.ListedAfterGenerate | src/apis/api_keys.py:8-22 | listing after a generate gives the earlier listing plus the new row when it belongs to the user. Another user's row never appears |
| ApiKeys.GenerateThenRevoke | src/apis/api_keys.py:8-28 | deleting a freshly generated key gives back the table as it was before the generate |
| ApiKeys.RevokeRemovesOneRow | src/apis/api_keys.py:25-28 | with unique keys, deleting the key of one row removes exactly that row, keeps the other rows in order and keeps keys unique |
| Clerk.Provision | src/apis/clerk.py:7-21 | only "user.created" acts. A malformed event of that type (no `data`, no `id`, no first e-mail entry, or a first entry without `email_address`) is a 500 with no write. A well-formed one adds the id, creates the user with the first e-mail only if the id is new, leaves every existing user unchanged and preserves the constraints |
| Clerk.ClerkWebhook | src/apis/clerk.py:7-21 | the handler writes the user table as `Provision` says and answers "ok", or answers 500 with no write |
| Clerk.ProvisionIdempotent | src/apis/clerk.py:11-20 | delivering the same event twice leaves the table as one delivery left it |
| RootApp.ClerkWebhook | main.py:16-30 | the root webhook behaves exactly as the routed one: it writes the table as `Provision` says and answers "ok", or answers 500 with no write |
| RootApp.GenerateApiKey | main.py:32-38 | the handler appends exactly the row (key, owner, name) under a fresh key of `mk_live_` shape and answers that key |
| RootApp.ListApiKeys | main.py:40-43 | the result holds exactly the rows whose owner is the user |
| QueryStrings.QueryReadBack | src/apis/github.py:20-27 | a URL built as `base?k=v&...` reads back as exactly its parameters, in order. This holds when no name holds '=', '&' or '#' and no value holds '&' or '#' |
| QueryStrings.QueryReadBackBeforeFragment | src/apis/github.py:20-27 | whatever follows a '#' after such a query is the fragment, and the parameters read back are still exactly those before it |
| Github.AuthorizeUrl | src/apis/github.py:18-27 | the start handler's URL is the authorize endpoint, then `?`, then the query of `client_id`, `redirect_uri`, `scope`, `state` (the raw user id) and `prompt=select_account`, in that order |
| Github.AuthorizeUrlParams | src/apis/github.py:18-27 | when no value holds '&', '#', '+' or '%', the provider reads exactly those five parameters back, in order |
| Github.StateRoundTrip | src/apis/github.py:18-27 | under the same condition, the provider reads back `state` as the user id, the scope `repo,write:repo_hook` and the account picker prompt |
| Github.HashInUserIdCutsState | src/apis/github.py:18-27 | because nothing is encoded, a user id `a#b` reaches the provider as `state` = `a`, and no `prompt` arrives at all |
| Github.Link | src/apis/github.py:51-106 | the outcome is auth_failed exactly when there is no token or the profile read fails. It is already_linked exactly when another user holds the GitHub id. Both refusals write nothing. On success the user's three GitHub fields are set, its e-mail is kept (or set to the placeholder for a new user), other users are unchanged, and the constraints are preserved |
| Github.WithGithubLink | src/apis/github.py:87-103 | the callback's upsert adds the user id to the table. The user gets the GitHub id, login and token. An existing user keeps its e-mail and id, a new one gets the placeholder e-mail, and every other user is unchanged |
| Github.GithubOAuthCallback | src/apis/github.py:32-110 | the handler's early returns and upsert end in the outcome and the user table that `Link` gives |
| Github.SecondUserCannotTakeAccount | src/apis/github.py:75-84 | once one user has linked a GitHub account, another user's attempt to link the same account is refused, and the table stays as it was |
| Github.RelinkReplacesOldAccount | src/apis/github.py:87-103 | when a user relinks to another GitHub account, no user holds the old account afterwards |
| Github.PlaceholderEmailSurvivesWebhook | src/apis/github.py:90-92 | a user created by the callback keeps the placeholder e-mail after a later "user.created" webhook |
| Github.GithubStatus | src/apis/github.py:113-126 | an unknown user gives `connected: false` alone. A known user gives `connected` exactly when a GitHub id is stored, plus the stored username |
| Github.StatusAfterLink | src/apis/github.py:87-126 | after a successful link the status shows connected with the new login. After a refused or failed link, every status is as before |
| Github.StatusAgreesWithTokenGate | src/apis/github.py:113-140 | in a consistent store, `connected` holds exactly when the repository handlers find a usable token |
| Github.Entry | src/apis/github.py:172-181 | each entry carries GitHub's id, full name, name, visibility, description, default branch and page URL under the frontend's keys, plus the indexed flag |
| Github.ListGithubRepos | src/apis/github.py:129-183 | without a token the answer is 400. A failed GitHub call gives 500. Otherwise there is one entry per GitHub repository, in GitHub's order, and an entry is flagged indexed exactly when the user has a stored repository with that GitHub id |
| Github.AddRepository | src/apis/github.py:192-238 | without a token the answer is 400, and a failed GitHub call gives 404; neither writes. Otherwise one record is appended with GitHub's metadata, the user as owner and status "PENDING", and the repository is then indexed for the user |
| Projects.CreateProject | src/apis/projects.py:8-40 | the owner is created if absent, with the placeholder e-mail. The project is appended with the given name (or "Untitled Project"), the description and a fresh key of `mk_proj_` shape. The constraints hold |
| Projects.ListProjects | src/apis/projects.py:43-50 | the result holds exactly the projects whose owner is the user |
| Projects.GetProject | src/apis/projects.py:53-64 | an unknown id gives 404 exactly. Otherwise the result is the stored project with that id |
| Projects.Patched | src/apis/projects.py:70-77 | a given name or description replaces the stored one, and an absent one keeps it. The id, owner and key never change |
| Projects.EmptyPatchKeepsProject | src/apis/projects.py:73-82 | a patch with neither field leaves the project as it was |
| Projects.UpdateProject | src/apis/projects.py:67-84 | the row with that id is replaced by its patch, and the patch is the answer. An unknown id is treated as an error that writes nothing. The constraints hold |
| Projects.UpdateThenGet | src/apis/projects.py:79-82 | after an update by id, reading that id gives exactly the written project, and every other project is still stored |
| Projects.ReplaceKeepsDistinct | src/apis/projects.py:79-82 | replacing a project by id keeps ids and keys unique when the key is kept or is new |
| Projects.DeleteProject | src/apis/projects.py:87-91 | the project with that id is removed, and only that row; the answer is "deleted". An unknown id is treated as an error that writes nothing. The constraints hold |
| Projects.DeleteRemovesOneProject | src/apis/projects.py:87-91 | with unique ids, deleting by the id of one row removes exactly that row, in order, and ids and keys stay unique |
| Projects.RegenerateApiKey | src/apis/projects.py:94-104 | the project's key becomes a fresh key of `mk_proj_` shape, nothing else changes, and that same key is the answer. An unknown id is treated as an error that writes nothing |
| Projects.RotationInvalidatesOldKey | src/apis/projects.py:94-104 | after a rotation no project holds the old key, and reading the project gives it back with the new key |
| Projects.UserKeyOpensNoProject | src/apis/projects.py:28 | since every stored project key is minted with `mk_proj_`, no project holds an `mk_live_` user key, whatever its suffix |

## Left out

- The HTTP calls to GitHub (the token exchange, `/user`, `/user/repos`,
  `/repositories/{id}`) are left out. Their results (status, token, parsed body) are
  inputs to the handlers.
- The `code` parameter of the callback is only sent to the token endpoint. It is
  represented by the token that comes back.
- `secrets.token_urlsafe(32)` is an input suffix of 43 URL-safe characters. The store's
  unique constraint on keys becomes a precondition that the minted key is unused.
- The ids the store generates for projects and repositories are inputs. A new project id
  is required to be unused.
- Prisma's internals, connection lifecycle and error classes (main.py:8-14) are left out.
- What the store does for an update or delete of a missing row is not visible in the
  code. The model treats it as an error, `Err(RowMissing)`, and writes nothing.
- `find_many` without `order_by` promises no order. The model returns the matching rows in
  insertion order; that order is the model's choice, not a promise of the code.
- The cascade delete of a project's repositories is left out, because the schema is not
  part of this model.
- `include={"repositories": True}` in the project list and get handlers is left out. The
  model returns the project rows without the joined repositories.
- CORS, the router wiring and the `/` health route (src/main.py) are left out. Note that
  src/main.py:27-29 does not mount the projects router, so those handlers are modelled
  but are not reachable in that application.
- Environment configuration (src/config.py) is left out. The client id and redirect URL
  are parameters of the URL builder.
- Redirect and response objects are reduced to an outcome tag or a result value. This
  includes the frontend URL and the `message` text of the already-linked redirect.
- The `print` logging is left out.
- The catch-all `except` in the repository handlers (src/apis/github.py:187-189,
  242-244) is left out. Those handlers assume the GitHub bodies hold the fields they read.
- In the callback, a `/user` body without `id` or `login` raises, and the raise ends in
  auth_failed. This is modelled as a profile reply with no body.
- Payloads missing `clerk_user_id` or `name`, and a JSON `null` name in create_project,
  are left out. In all of these `None` reaches the store; what the store does with it is not
  visible in the code and is not modelled.
  A missing `github_repo_id` is not left out: it only enters the GitHub URL
  (src/apis/github.py:199, 212), GitHub answers a non-200 status, and the handler answers
  404 with no write, which `Github.AddRepository` gives through the reply status.
- Concurrency between the async handlers is left out. This includes the webhook, the
  callback and project creation racing to create the same user. Each handler is one
  atomic step on the store.
- Github.AuthorizeUrlParams: proved only for a client id, redirect URL and user id without
  '&', '#', '+' or '%'. The handler does not URL-encode them. An '&' splits the query
  differently, and a '#' starts the fragment (`Github.HashInUserIdCutsState`). The
  provider decodes '+' and '%', and that decoding is not modelled.
- Github.StateRoundTrip: holds under the same restriction, for the same reasons.
- QueryStrings.QueryReadBack: does not model percent-decoding or '+' as a space, because
  the handler performs no encoding.
