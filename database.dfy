/** The Prisma client the handlers share: one mutable store holding the user, API-key,
    project and repository tables. */
module Database {
  import opened Records
  import opened Tables

  class Db {
    /** The user table, keyed by clerkUserId. */
    var users: map<string, User>
    /** The API-key table, in insertion order. */
    var apiKeys: seq<ApiKey>
    /** The project table, in insertion order. */
    var projects: seq<Project>
    /** The repository table, in insertion order. */
    var repositories: seq<Repository>

    /** The store's unique columns (user id, GitHub id, key strings, project ids and keys)
        and the invariants the handlers maintain on top of them: each user stored under its
        own id, the GitHub fields set together, every stored key a minted one. */
    ghost predicate Valid()
      reads this
    {
      && UsersValid(users)
      && DistinctKeys(apiKeys) && UserKeysMinted(apiKeys)
      && DistinctProjects(projects) && ProjectKeysMinted(projects)
    }

    /** An empty store. */
    constructor ()
      ensures Valid()
      ensures users == map[] && apiKeys == [] && projects == [] && repositories == []
    {
      users := map[];
      apiKeys := [];
      projects := [];
      repositories := [];
    }

    /** `user.find_unique(where githubId)`: a user holding `githubId`, if there is one. */
    method FindUserByGithubId(githubId: int) returns (found: Option<User>)
      ensures found.None? <==> forall id :: id in users ==> users[id].githubId != Some(githubId)
      ensures found.Some? ==>
        found.value.githubId == Some(githubId) && exists id :: id in users && users[id] == found.value
    {
      if exists id :: id in users && users[id].githubId == Some(githubId) {
        var id :| id in users && users[id].githubId == Some(githubId);
        found := Some(users[id]);
      } else {
        found := None;
      }
    }
  }
}
