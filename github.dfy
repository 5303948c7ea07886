/** GitHub account linking and the repository handlers. Every call to GitHub is an input:
    the access token the code exchange yielded, the `/user` reply, the `/user/repos` reply
    and the `/repositories/{id}` reply. */
module Github {
  import opened Records
  import opened Tables
  import opened Database
  import opened QueryStrings
  import Clerk

  // ---------------------------------------------------------------------------
  // GET /auth/github
  // ---------------------------------------------------------------------------

  const AuthorizeEndpoint: string := "https://github.com/login/oauth/authorize"

  /** Read repository metadata and manage webhooks. */
  const Scope: string := "repo,write:repo_hook"

  /** The query the start handler means to send, parameter by parameter. */
  function AuthorizeParams(clientId: string, redirectUrl: string, userId: string): seq<(string, string)> {
    [("client_id", clientId), ("redirect_uri", redirectUrl), ("scope", Scope),
     ("state", userId), ("prompt", "select_account")]
  }

  /** The authorization URL the start handler redirects to: the endpoint, then the five
      parameters in order, written `key=value` and joined by '&'. The raw user id is the
      `state`, without encoding; `prompt=select_account` makes GitHub offer its account
      picker. */
  function AuthorizeUrl(clientId: string, redirectUrl: string, userId: string): (url: string)
    ensures url == AuthorizeEndpoint + "?" + Query(AuthorizeParams(clientId, redirectUrl, userId))
  {
    var state := userId;
    AuthorizeUrlIsQuery(clientId, redirectUrl, state);
    AuthorizeEndpoint
      + "?client_id=" + clientId
      + "&redirect_uri=" + redirectUrl
      + "&scope=repo,write:repo_hook"
      + "&state=" + state
      + "&prompt=select_account"
  }

  /** A value the handler can put into the URL as it is: none of the characters that
      would end or split the query ('&', '#') or that the provider decodes ('+', '%'). */
  predicate PassesUnencoded(s: string) {
    '&' !in s && '#' !in s && '+' !in s && '%' !in s
  }

  /** Read back, the authorization URL carries exactly the intended parameters in order, as
      long as every value passes unencoded (the handler does not URL-encode them). */
  lemma AuthorizeUrlParams(clientId: string, redirectUrl: string, userId: string)
    requires PassesUnencoded(clientId) && PassesUnencoded(redirectUrl) && PassesUnencoded(userId)
    ensures QueryParams(AuthorizeUrl(clientId, redirectUrl, userId)) == AuthorizeParams(clientId, redirectUrl, userId)
  {
    var params := AuthorizeParams(clientId, redirectUrl, userId);
    var url := AuthorizeUrl(clientId, redirectUrl, userId);
    AuthorizeParamsPlain(clientId, redirectUrl, userId);
    assert '?' !in AuthorizeEndpoint;
    QueryReadBack(AuthorizeEndpoint, params);
    assert url == AuthorizeEndpoint + "?" + Query(params);
  }

  lemma AuthorizeParamsPlain(clientId: string, redirectUrl: string, userId: string)
    requires PassesUnencoded(clientId) && PassesUnencoded(redirectUrl) && PassesUnencoded(userId)
    ensures var params := AuthorizeParams(clientId, redirectUrl, userId);
      forall i :: 0 <= i < |params| ==>
        && '=' !in params[i].0 && '&' !in params[i].0 && '&' !in params[i].1
        && '#' !in params[i].0 && '#' !in params[i].1
  {
    assert '&' !in Scope && '#' !in Scope;
  }

  /** The f-string of the start handler is the endpoint followed by the query of its five
      parameters. */
  lemma AuthorizeUrlIsQuery(clientId: string, redirectUrl: string, userId: string)
    ensures AuthorizeEndpoint
              + "?client_id=" + clientId
              + "&redirect_uri=" + redirectUrl
              + "&scope=repo,write:repo_hook"
              + "&state=" + userId
              + "&prompt=select_account"
            == AuthorizeEndpoint + "?" + Query(AuthorizeParams(clientId, redirectUrl, userId))
  {
    var q0, q1, q2, q3, q4 := ("client_id", clientId), ("redirect_uri", redirectUrl), ("scope", Scope),
      ("state", userId), ("prompt", "select_account");
    QueryOfFive(q0, q1, q2, q3, q4);
    assert Piece(q0) == "client_id=" + clientId by { assert "client_id" + "=" == "client_id="; }
    assert Piece(q1) == "redirect_uri=" + redirectUrl by { assert "redirect_uri" + "=" == "redirect_uri="; }
    assert Piece(q2) == "scope=" + Scope by { assert "scope" + "=" == "scope="; }
    assert Piece(q3) == "state=" + userId by { assert "state" + "=" == "state="; }
    assert Piece(q4) == "prompt=select_account";
    UrlAssociates(clientId, redirectUrl, userId);
  }

  lemma UrlAssociates(clientId: string, redirectUrl: string, userId: string)
    ensures AuthorizeEndpoint
              + "?client_id=" + clientId
              + "&redirect_uri=" + redirectUrl
              + "&scope=repo,write:repo_hook"
              + "&state=" + userId
              + "&prompt=select_account"
            == AuthorizeEndpoint + "?" + (("client_id=" + clientId) + "&" + (("redirect_uri=" + redirectUrl) + "&" +
                 (("scope=" + Scope) + "&" + (("state=" + userId) + "&" + "prompt=select_account"))))
  {
    SplitLiterals();
    Regroup(AuthorizeEndpoint, "client_id=", clientId, "redirect_uri=", redirectUrl, "scope=" + Scope,
            "state=", userId, "prompt=select_account");
  }

  lemma SplitLiterals()
    ensures "?client_id=" == "?" + "client_id="
    ensures "&redirect_uri=" == "&" + "redirect_uri="
    ensures "&scope=repo,write:repo_hook" == "&" + ("scope=" + Scope)
    ensures "&state=" == "&" + "state="
    ensures "&prompt=select_account" == "&" + "prompt=select_account"
  {
    assert "?client_id=" == "?" + "client_id=";
    assert "&redirect_uri=" == "&" + "redirect_uri=";
    assert "&scope=repo,write:repo_hook" == "&" + ("scope=" + Scope);
    assert "&state=" == "&" + "state=";
  }

  lemma Regroup(e: string, k0: string, v0: string, k1: string, v1: string, p2: string, k3: string, v3: string, p4: string)
    ensures e + ("?" + k0) + v0 + ("&" + k1) + v1 + ("&" + p2) + ("&" + k3) + v3 + ("&" + p4) ==
            e + "?" + ((k0 + v0) + "&" + ((k1 + v1) + "&" + (p2 + "&" + ((k3 + v3) + "&" + p4))))
  {
  }

  /** The callback gets back the user id the start handler put in `state`, and GitHub is
      asked for the repository scopes and for its account picker. */
  lemma StateRoundTrip(clientId: string, redirectUrl: string, userId: string)
    requires PassesUnencoded(clientId) && PassesUnencoded(redirectUrl) && PassesUnencoded(userId)
    ensures Lookup(QueryParams(AuthorizeUrl(clientId, redirectUrl, userId)), "state") == Some(userId)
    ensures Lookup(QueryParams(AuthorizeUrl(clientId, redirectUrl, userId)), "prompt") == Some("select_account")
    ensures Lookup(QueryParams(AuthorizeUrl(clientId, redirectUrl, userId)), "scope") == Some(Scope)
  {
    AuthorizeUrlParams(clientId, redirectUrl, userId);
    AuthorizeLookups(clientId, redirectUrl, userId);
  }

  /** Looking up `state`, `prompt` and `scope` in the five parameters finds the values the
      start handler wrote. */
  lemma AuthorizeLookups(clientId: string, redirectUrl: string, userId: string)
    ensures Lookup(AuthorizeParams(clientId, redirectUrl, userId), "state") == Some(userId)
    ensures Lookup(AuthorizeParams(clientId, redirectUrl, userId), "prompt") == Some("select_account")
    ensures Lookup(AuthorizeParams(clientId, redirectUrl, userId), "scope") == Some(Scope)
  {
    var ps := AuthorizeParams(clientId, redirectUrl, userId);
    assert "client_id" != "state" && "redirect_uri" != "state" && "scope" != "state";
    assert "client_id" != "prompt" && "redirect_uri" != "prompt" && "scope" != "prompt" && "state" != "prompt";
    assert "client_id" != "scope" && "redirect_uri" != "scope";
    var ps1 := ps[1..];
    var ps2 := ps1[1..];
    var ps3 := ps2[1..];
    var ps4 := ps3[1..];
    assert ps3 == [("state", userId), ("prompt", "select_account")];
    assert ps4 == [("prompt", "select_account")];
    assert Lookup(ps, "state") == Lookup(ps1, "state") == Lookup(ps2, "state") == Lookup(ps3, "state");
    assert Lookup(ps, "scope") == Lookup(ps1, "scope") == Lookup(ps2, "scope");
    assert Lookup(ps, "prompt") == Lookup(ps1, "prompt") == Lookup(ps2, "prompt") == Lookup(ps3, "prompt")
      == Lookup(ps4, "prompt");
  }

  /** The parameters the provider reads when the user id holds a '#': the first four, with
      `state` cut at the '#'. */
  function CutParams(clientId: string, redirectUrl: string, before: string): seq<(string, string)> {
    [("client_id", clientId), ("redirect_uri", redirectUrl), ("scope", Scope), ("state", before)]
  }

  /** Without encoding, a '#' in the user id starts the URL's fragment: the provider reads
      `state` as the part before the '#' and gets no `prompt` at all. */
  lemma HashInUserIdCutsState(clientId: string, redirectUrl: string, before: string, after: string)
    requires PassesUnencoded(clientId) && PassesUnencoded(redirectUrl) && PassesUnencoded(before)
    ensures Lookup(QueryParams(AuthorizeUrl(clientId, redirectUrl, before + "#" + after)), "state") == Some(before)
    ensures Lookup(QueryParams(AuthorizeUrl(clientId, redirectUrl, before + "#" + after)), "prompt") == None
  {
    var cut := CutParams(clientId, redirectUrl, before);
    HashStartsFragment(clientId, redirectUrl, before, after);
    assert "client_id" != "state" && "redirect_uri" != "state" && "scope" != "state";
    assert "client_id" != "prompt" && "redirect_uri" != "prompt" && "scope" != "prompt" && "state" != "prompt";
    assert Lookup(cut, "state") == Lookup(cut[1..], "state") == Lookup(cut[2..], "state") == Lookup(cut[3..], "state");
    assert Lookup(cut, "prompt") == Lookup(cut[1..], "prompt") == Lookup(cut[2..], "prompt")
        == Lookup(cut[3..], "prompt") == Lookup(cut[4..], "prompt");
  }

  lemma HashStartsFragment(clientId: string, redirectUrl: string, before: string, after: string)
    requires PassesUnencoded(clientId) && PassesUnencoded(redirectUrl) && PassesUnencoded(before)
    ensures QueryParams(AuthorizeUrl(clientId, redirectUrl, before + "#" + after)) == CutParams(clientId, redirectUrl, before)
  {
    var cut := CutParams(clientId, redirectUrl, before);
    var fragment := after + "&" + Piece(("prompt", "select_account"));
    var url := AuthorizeUrl(clientId, redirectUrl, before + "#" + after);
    HashSplitsQuery(clientId, redirectUrl, before, after);
    assert url == AuthorizeEndpoint + "?" + Query(cut) + "#" + fragment;
    AuthorizeParamsPlain(clientId, redirectUrl, before);
    var full := AuthorizeParams(clientId, redirectUrl, before);
    forall i | 0 <= i < |cut|
      ensures '=' !in cut[i].0 && '&' !in cut[i].0 && '&' !in cut[i].1 && '#' !in cut[i].0 && '#' !in cut[i].1
    {
      assert cut[i] == full[i];
    }
    assert '?' !in AuthorizeEndpoint;
    QueryReadBackBeforeFragment(AuthorizeEndpoint, cut, fragment);
  }

  lemma HashSplitsQuery(clientId: string, redirectUrl: string, before: string, after: string)
    ensures Query(AuthorizeParams(clientId, redirectUrl, before + "#" + after)) ==
            Query(CutParams(clientId, redirectUrl, before)) + "#" + (after + "&" + Piece(("prompt", "select_account")))
  {
    var userId := before + "#" + after;
    var q0, q1, q2 := ("client_id", clientId), ("redirect_uri", redirectUrl), ("scope", Scope);
    var p4 := Piece(("prompt", "select_account"));
    QueryOfFive(q0, q1, q2, ("state", userId), ("prompt", "select_account"));
    QueryOfFour(q0, q1, q2, ("state", before));
    assert Piece(("state", userId)) == "state=" + userId;
    assert Piece(("state", before)) == "state=" + before;
    CutAtHash(Piece(q0), Piece(q1), Piece(q2), "state=", before, after, p4);
  }

  lemma CutAtHash(p0: string, p1: string, p2: string, k: string, before: string, after: string, p4: string)
    ensures p0 + "&" + (p1 + "&" + (p2 + "&" + ((k + (before + "#" + after)) + "&" + p4))) ==
            (p0 + "&" + (p1 + "&" + (p2 + "&" + (k + before)))) + "#" + (after + "&" + p4)
  {
  }

  // ---------------------------------------------------------------------------
  // GET /auth/github/callback
  // ---------------------------------------------------------------------------

  /** The three ways the callback ends: the redirects `github_connected=true`,
      `error=github_already_linked` and `error=auth_failed`. */
  datatype LinkOutcome = Connected | AlreadyLinked | AuthFailed

  /** The fields of GitHub's `/user` body the callback reads. */
  datatype GithubProfile = GithubProfile(id: int, login: string)

  /** GitHub's answer to `/user`: the status code, and the body when it holds `id` and `login`
      (a body without them raises inside the handler, which then answers auth_failed). */
  datatype ProfileReply = ProfileReply(status: int, body: Option<GithubProfile>)

  datatype LinkResult = LinkResult(outcome: LinkOutcome, users: map<string, User>)

  /** The token exchange gave no usable token, or the profile could not be read. */
  predicate ExchangeFailed(accessToken: Option<string>, profile: ProfileReply) {
    !Truthy(accessToken) || profile.status != 200 || profile.body.None?
  }

  /** A user other than `clerkUserId` already holds `githubId`. */
  predicate LinkedElsewhere(users: map<string, User>, githubId: int, clerkUserId: string) {
    exists id :: id in users && users[id].githubId == Some(githubId) && users[id].clerkUserId != clerkUserId
  }

  /** The callback's upsert keyed by `clerkUserId`: an existing user gets the three GitHub
      fields and keeps everything else; an unseen one is created with the placeholder e-mail. */
  function WithGithubLink(users: map<string, User>, clerkUserId: string, githubUser: GithubProfile, accessToken: Option<string>)
    : (r: map<string, User>)
    ensures r.Keys == users.Keys + {clerkUserId}
    ensures r[clerkUserId].githubId == Some(githubUser.id)
    ensures r[clerkUserId].githubUsername == Some(githubUser.login)
    ensures r[clerkUserId].githubAccessToken == accessToken
    ensures clerkUserId in users ==>
      r[clerkUserId].email == users[clerkUserId].email && r[clerkUserId].clerkUserId == users[clerkUserId].clerkUserId
    ensures clerkUserId !in users ==>
      r[clerkUserId].email == PlaceholderEmail(clerkUserId) && r[clerkUserId].clerkUserId == clerkUserId
    ensures forall id :: id in users && id != clerkUserId ==> r[id] == users[id]
  {
    var linked :=
      if clerkUserId in users then
        users[clerkUserId].(githubId := Some(githubUser.id),
                            githubUsername := Some(githubUser.login),
                            githubAccessToken := accessToken)
      else
        User(clerkUserId, PlaceholderEmail(clerkUserId), Some(githubUser.id), Some(githubUser.login), accessToken);
    users[clerkUserId := linked]
  }

  /** What the callback decides and writes, given the `state` user id and GitHub's answers. */
  function Link(users: map<string, User>, state: string, accessToken: Option<string>, profile: ProfileReply): (r: LinkResult)
    ensures r.outcome == AuthFailed <==> ExchangeFailed(accessToken, profile)
    ensures !ExchangeFailed(accessToken, profile) ==>
      (r.outcome == AlreadyLinked <==> LinkedElsewhere(users, profile.body.value.id, state))
    ensures r.outcome != Connected ==> r.users == users
    ensures r.outcome == Connected ==>
      var githubUser := profile.body.value;
      && r.users.Keys == users.Keys + {state}
      && r.users[state].githubId == Some(githubUser.id)
      && r.users[state].githubUsername == Some(githubUser.login)
      && r.users[state].githubAccessToken == accessToken
      && (state in users ==>
            r.users[state].email == users[state].email && r.users[state].clerkUserId == users[state].clerkUserId)
      && (state !in users ==>
            r.users[state].email == PlaceholderEmail(state) && r.users[state].clerkUserId == state)
      && forall id :: id in users && id != state ==> r.users[id] == users[id]
    ensures UsersValid(users) ==> UsersValid(r.users)
  {
    if ExchangeFailed(accessToken, profile) then LinkResult(AuthFailed, users)
    else if LinkedElsewhere(users, profile.body.value.id, state) then LinkResult(AlreadyLinked, users)
    else
      var r := LinkResult(Connected, WithGithubLink(users, state, profile.body.value, accessToken));
      assert UsersValid(users) ==> GithubIdsUnique(r.users) by {
        if UsersValid(users) {
          forall a, b | a in r.users && b in r.users && a != b && r.users[a].githubId.Some?
            ensures r.users[a].githubId != r.users[b].githubId
          {
            if a == state {
              assert users[b].clerkUserId == b;
            } else if b == state {
              assert users[a].clerkUserId == a;
            }
          }
        }
      }
      r
  }

  /** GET /auth/github/callback with the exchange's results. Only the user table may change. */
  method GithubOAuthCallback(db: Db, state: string, accessToken: Option<string>, profile: ProfileReply)
    returns (outcome: LinkOutcome)
    requires db.Valid()
    modifies db`users
    ensures db.Valid()
    ensures LinkResult(outcome, db.users) == Link(old(db.users), state, accessToken, profile)
  {
    if !Truthy(accessToken) {
      return AuthFailed;
    }
    if profile.status != 200 {
      return AuthFailed;
    }
    if profile.body.None? {
      return AuthFailed;
    }
    var githubUser := profile.body.value;
    var clerkUserId := state;
    var existing := db.FindUserByGithubId(githubUser.id);
    if existing.Some? && existing.value.clerkUserId != clerkUserId {
      assert LinkedElsewhere(db.users, githubUser.id, clerkUserId) by {
        var id :| id in db.users && db.users[id] == existing.value;
      }
      return AlreadyLinked;
    }
    assert !LinkedElsewhere(db.users, githubUser.id, clerkUserId) by {
      if existing.Some? {
        var holder :| holder in db.users && db.users[holder] == existing.value;
        assert holder == clerkUserId;
      }
    }
    ghost var spec := Link(db.users, state, accessToken, profile);
    assert spec == LinkResult(Connected, WithGithubLink(db.users, clerkUserId, githubUser, accessToken));
    db.users := WithGithubLink(db.users, clerkUserId, githubUser, accessToken);
    outcome := Connected;
  }

  /** Linking the GitHub account that already belongs to another user is refused, and that
      user stays linked: once `first` is connected to an account, `second` cannot take it. */
  lemma SecondUserCannotTakeAccount(
    users: map<string, User>, first: string, second: string,
    token1: Option<string>, profile1: ProfileReply, token2: Option<string>, profile2: ProfileReply)
    requires UsersValid(users)
    requires first != second
    requires Link(users, first, token1, profile1).outcome == Connected
    requires !ExchangeFailed(token2, profile2) && profile2.body.value.id == profile1.body.value.id
    ensures Link(Link(users, first, token1, profile1).users, second, token2, profile2).outcome == AlreadyLinked
    ensures Link(Link(users, first, token1, profile1).users, second, token2, profile2).users ==
            Link(users, first, token1, profile1).users
  {
    var after := Link(users, first, token1, profile1).users;
    assert after[first].clerkUserId == first;
    assert LinkedElsewhere(after, profile2.body.value.id, second);
  }

  /** Re-linking a user to a different GitHub account replaces the old link: afterwards no
      user holds the old githubId. */
  lemma RelinkReplacesOldAccount(users: map<string, User>, state: string, accessToken: Option<string>, profile: ProfileReply)
    requires UsersValid(users)
    requires state in users && users[state].githubId.Some?
    requires Link(users, state, accessToken, profile).outcome == Connected
    requires profile.body.value.id != users[state].githubId.value
    ensures forall id :: id in Link(users, state, accessToken, profile).users ==>
      Link(users, state, accessToken, profile).users[id].githubId != users[state].githubId
  {
  }

  /** The placeholder e-mail the callback writes stays after the "user.created" webhook:
      that upsert's update is empty. */
  lemma PlaceholderEmailSurvivesWebhook(
    users: map<string, User>, state: string, accessToken: Option<string>, profile: ProfileReply, e: Clerk.WebhookEvent)
    requires state !in users
    requires Link(users, state, accessToken, profile).outcome == Connected
    requires Clerk.IsUserCreated(e) && Clerk.WellFormed(e) && e.data.value.id == Some(state)
    ensures Clerk.Provision(Link(users, state, accessToken, profile).users, e).Ok?
    ensures Clerk.Provision(Link(users, state, accessToken, profile).users, e).value[state].email == PlaceholderEmail(state)
  {
  }

  // ---------------------------------------------------------------------------
  // GET /user/{clerk_user_id}/github-status
  // ---------------------------------------------------------------------------

  /** `{"connected": false}` for an unknown user, else `{"connected": ..., "username": ...}`. */
  datatype StatusReply = ConnectedOnly(connected: bool) | ConnectedAndName(connected: bool, username: Option<string>)

  function GithubStatus(users: map<string, User>, clerkUserId: string): (r: StatusReply)
    ensures clerkUserId !in users ==> r == ConnectedOnly(false)
    ensures clerkUserId in users ==>
      r.ConnectedAndName? && (r.connected <==> users[clerkUserId].githubId.Some?)
      && r.username == users[clerkUserId].githubUsername
  {
    if clerkUserId !in users then ConnectedOnly(false)
    else
      var user := users[clerkUserId];
      ConnectedAndName(user.githubId.Some?, user.githubUsername)
  }

  /** After a successful callback the status reports the account just linked; after a
      refused or failed one every user's status is as before. */
  lemma StatusAfterLink(users: map<string, User>, state: string, accessToken: Option<string>, profile: ProfileReply, other: string)
    ensures Link(users, state, accessToken, profile).outcome == Connected ==>
      GithubStatus(Link(users, state, accessToken, profile).users, state) ==
      ConnectedAndName(true, Some(profile.body.value.login))
    ensures Link(users, state, accessToken, profile).outcome != Connected ==>
      GithubStatus(Link(users, state, accessToken, profile).users, other) == GithubStatus(users, other)
  {
  }

  /** In a consistent store the status's `connected` agrees with the token test the
      repository handlers apply before calling GitHub. */
  lemma StatusAgreesWithTokenGate(users: map<string, User>, clerkUserId: string)
    requires UsersValid(users)
    ensures GithubStatus(users, clerkUserId).connected <==> HasToken(users, clerkUserId)
  {
  }

  // ---------------------------------------------------------------------------
  // GET /github/repositories and POST /repositories/add
  // ---------------------------------------------------------------------------

  /** The fields of a GitHub repository the handlers read. */
  datatype GithubRepo = GithubRepo(
    id: int, fullName: string, name: string, isPrivate: bool,
    description: Option<string>, defaultBranch: string, htmlUrl: string)

  /** GitHub's answer to `/user/repos`. */
  datatype ReposReply = ReposReply(status: int, repos: seq<GithubRepo>)

  /** GitHub's answer to `/repositories/{id}`. */
  datatype RepoReply = RepoReply(status: int, repo: GithubRepo)

  /** One entry of the repository list the frontend receives. */
  datatype RepoEntry = RepoEntry(
    githubId: int, fullName: string, name: string, isPrivate: bool,
    description: Option<string>, defaultBranch: string, url: string, isIndexed: bool)

  /** The entry of one GitHub repository: GitHub's id, names, visibility, description,
      default branch and page URL under the frontend's keys, and the indexed flag. */
  function Entry(repo: GithubRepo, isIndexed: bool): (e: RepoEntry)
    ensures e.githubId == repo.id && e.fullName == repo.fullName && e.name == repo.name
    ensures e.isPrivate == repo.isPrivate && e.description == repo.description
    ensures e.defaultBranch == repo.defaultBranch && e.url == repo.htmlUrl
    ensures e.isIndexed == isIndexed
  {
    RepoEntry(repo.id, repo.fullName, repo.name, repo.isPrivate, repo.description, repo.defaultBranch, repo.htmlUrl, isIndexed)
  }

  const NotConnected := HttpError(400, "GitHub not connected")
  const FetchFailed := HttpError(500, "Failed to fetch repositories")
  const RepoNotFound := HttpError(404, "Repository not found")

  /** The test both repository handlers apply: the user exists and holds a non-empty token. */
  predicate HasToken(users: map<string, User>, clerkUserId: string) {
    clerkUserId in users && Truthy(users[clerkUserId].githubAccessToken)
  }

  /** `userId` has added the GitHub repository `githubId`. */
  predicate Indexed(repositories: seq<Repository>, userId: string, githubId: int) {
    exists rec :: rec in repositories && rec.userId == userId && rec.githubId == githubId
  }

  /** GET /github/repositories: one entry per repository GitHub lists, in GitHub's order,
      each flagged with whether the user has already added it. */
  method ListGithubRepos(db: Db, clerkUserId: string, reply: ReposReply) returns (r: Result<seq<RepoEntry>, HttpError>)
    ensures !HasToken(db.users, clerkUserId) ==> r == Err(NotConnected)
    ensures HasToken(db.users, clerkUserId) && reply.status != 200 ==> r == Err(FetchFailed)
    ensures HasToken(db.users, clerkUserId) && reply.status == 200 ==>
      && r.Ok?
      && |r.value| == |reply.repos|
      && forall i :: 0 <= i < |reply.repos| ==>
           r.value[i] == Entry(reply.repos[i], Indexed(db.repositories, db.users[clerkUserId].clerkUserId, reply.repos[i].id))
  {
    if clerkUserId !in db.users || !Truthy(db.users[clerkUserId].githubAccessToken) {
      return Err(NotConnected);
    }
    var user := db.users[clerkUserId];
    if reply.status != 200 {
      return Err(FetchFailed);
    }
    var githubRepos := reply.repos;
    var indexedRepos := Where(db.repositories, (rec: Repository) => rec.userId == user.clerkUserId);
    var indexedIds := set rec | rec in indexedRepos :: rec.githubId;
    var repos: seq<RepoEntry> := [];
    for i := 0 to |githubRepos|
      invariant |repos| == i
      invariant forall j :: 0 <= j < i ==>
        repos[j] == Entry(githubRepos[j], Indexed(db.repositories, user.clerkUserId, githubRepos[j].id))
    {
      var repo := githubRepos[i];
      var isIndexed := repo.id in indexedIds;
      assert isIndexed <==> Indexed(db.repositories, user.clerkUserId, repo.id);
      repos := repos + [Entry(repo, isIndexed)];
    }
    r := Ok(repos);
  }

  /** POST /repositories/add: stores one repository record owned by the user, with GitHub's
      metadata for the repository and status "PENDING". The record id is the store's choice. */
  method AddRepository(db: Db, clerkUserId: string, reply: RepoReply, newId: string) returns (r: Result<Repository, HttpError>)
    modifies db`repositories
    ensures !HasToken(db.users, clerkUserId) ==> r == Err(NotConnected) && db.repositories == old(db.repositories)
    ensures HasToken(db.users, clerkUserId) && reply.status != 200 ==>
      r == Err(RepoNotFound) && db.repositories == old(db.repositories)
    ensures HasToken(db.users, clerkUserId) && reply.status == 200 ==>
      var gh := reply.repo;
      && r == Ok(Repository(newId, db.users[clerkUserId].clerkUserId, gh.id, gh.htmlUrl, gh.fullName,
                            gh.defaultBranch, gh.isPrivate, gh.description, "PENDING"))
      && db.repositories == old(db.repositories) + [r.value]
      && Indexed(db.repositories, db.users[clerkUserId].clerkUserId, gh.id)
  {
    if clerkUserId !in db.users || !Truthy(db.users[clerkUserId].githubAccessToken) {
      return Err(NotConnected);
    }
    var user := db.users[clerkUserId];
    if reply.status != 200 {
      return Err(RepoNotFound);
    }
    var githubRepo := reply.repo;
    var repo := Repository(newId, user.clerkUserId, githubRepo.id, githubRepo.htmlUrl, githubRepo.fullName,
                           githubRepo.defaultBranch, githubRepo.isPrivate, githubRepo.description, "PENDING");
    db.repositories := db.repositories + [repo];
    assert repo in db.repositories;
    r := Ok(repo);
  }
}
