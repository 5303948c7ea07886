/** The store's tables as values: their unique columns, the invariants the handlers keep
    on top of them, and the queries and writes the handlers issue against it (find_many, find_unique, upsert,
    update and delete by key). */
module Tables {
  import opened Records
  import opened Secrets

  // ---------------------------------------------------------------------------
  // Integrity constraints
  // ---------------------------------------------------------------------------

  /** Every user row is stored under its own clerkUserId. */
  ghost predicate UsersKeyed(users: map<string, User>) {
    forall id :: id in users ==> users[id].clerkUserId == id
  }

  /** No two users hold the same (present) githubId: one GitHub account, at most one user. */
  ghost predicate GithubIdsUnique(users: map<string, User>) {
    forall a, b :: a in users && b in users && a != b && users[a].githubId.Some? ==>
      users[a].githubId != users[b].githubId
  }

  /** The three GitHub fields are written together: a user has a githubId exactly when it has
      a username and a non-empty access token. */
  ghost predicate LinkFieldsAgree(users: map<string, User>) {
    forall id :: id in users ==>
      && (users[id].githubId.Some? <==> Truthy(users[id].githubAccessToken))
      && (users[id].githubUsername.Some? <==> users[id].githubId.Some?)
  }

  ghost predicate UsersValid(users: map<string, User>) {
    UsersKeyed(users) && GithubIdsUnique(users) && LinkFieldsAgree(users)
  }

  /** No two rows agree on the column `f`. */
  ghost predicate DistinctBy<T, K>(rows: seq<T>, f: T -> K) {
    forall i, j :: 0 <= i < j < |rows| ==> f(rows[i]) != f(rows[j])
  }

  function KeyOf(r: ApiKey): string { r.key }
  function ProjectIdOf(p: Project): string { p.id }
  function ProjectKeyOf(p: Project): string { p.apiKey }

  /** The key string is the primary key of the API-key table. */
  ghost predicate DistinctKeys(rows: seq<ApiKey>) {
    DistinctBy(rows, KeyOf)
  }

  /** Project ids and project API keys are both unique. */
  ghost predicate DistinctProjects(rows: seq<Project>) {
    DistinctBy(rows, ProjectIdOf) && DistinctBy(rows, ProjectKeyOf)
  }

  /** Every stored user key was minted as `mk_live_` followed by a random suffix. */
  predicate UserKeysMinted(rows: seq<ApiKey>) {
    forall r :: r in rows ==> TokenShape(UserKeyPrefix, r.key)
  }

  /** Every stored project key was minted as `mk_proj_` followed by a random suffix. */
  predicate ProjectKeysMinted(rows: seq<Project>) {
    forall p :: p in rows ==> TokenShape(ProjectKeyPrefix, p.apiKey)
  }

  /** Appending a row whose column value is new keeps the column unique. */
  lemma AppendKeepsDistinct<T, K>(rows: seq<T>, x: T, f: T -> K)
    requires DistinctBy(rows, f)
    requires forall i :: 0 <= i < |rows| ==> f(rows[i]) != f(x)
    ensures DistinctBy(rows + [x], f)
  {
    var s := rows + [x];
    forall i, j | 0 <= i < j < |s| ensures f(s[i]) != f(s[j]) {
      assert s[i] == rows[i];
    }
  }

  /** Removing one row keeps a unique column unique. */
  lemma RemoveAtKeepsDistinct<T, K>(rows: seq<T>, k: nat, f: T -> K)
    requires DistinctBy(rows, f)
    requires k < |rows|
    ensures DistinctBy(rows[..k] + rows[k + 1..], f)
  {
    var rest := rows[..k] + rows[k + 1..];
    forall i, j | 0 <= i < j < |rest|
      ensures f(rest[i]) != f(rest[j])
    {
      var i' := if i < k then i else i + 1;
      var j' := if j < k then j else j + 1;
      assert rest[i] == rows[i'] && rest[j] == rows[j'];
    }
  }

  predicate KeyUnused(rows: seq<ApiKey>, key: string) {
    forall r :: r in rows ==> r.key != key
  }

  predicate ProjectKeyUnused(rows: seq<Project>, apiKey: string) {
    forall p :: p in rows ==> p.apiKey != apiKey
  }

  predicate ProjectIdUnused(rows: seq<Project>, id: string) {
    forall p :: p in rows ==> p.id != id
  }

  // ---------------------------------------------------------------------------
  // find_many / delete: keeping the rows that satisfy a condition (in insertion order)
  // ---------------------------------------------------------------------------

  /** The rows of `rows` that satisfy `keep`, in their stored order. */
  function Where<T(!new)>(rows: seq<T>, keep: T -> bool): (r: seq<T>)
    ensures forall x :: x in r <==> x in rows && keep(x)
    ensures |r| <= |rows|
  {
    if rows == [] then []
    else (if keep(rows[0]) then [rows[0]] else []) + Where(rows[1..], keep)
  }

  /** Filtering a table after an append filters the old table, then the new row. */
  lemma {:induction false} WhereAppend<T(!new)>(rows: seq<T>, x: T, keep: T -> bool)
    ensures Where(rows + [x], keep) == Where(rows, keep) + (if keep(x) then [x] else [])
  {
    if rows == [] {
      assert rows + [x] == [x];
      assert [x][1..] == [];
    } else {
      var head := if keep(rows[0]) then [rows[0]] else [];
      var last := if keep(x) then [x] else [];
      calc {
        Where(rows + [x], keep);
        { assert (rows + [x])[0] == rows[0] && (rows + [x])[1..] == rows[1..] + [x];
          WhereCons(rows + [x], keep); }
        head + Where(rows[1..] + [x], keep);
        { WhereAppend(rows[1..], x, keep); }
        head + (Where(rows[1..], keep) + last);
        (head + Where(rows[1..], keep)) + last;
        { WhereCons(rows, keep); }
        Where(rows, keep) + last;
      }
    }
  }

  /** A condition that every row satisfies keeps the whole table. */
  lemma {:induction false} WhereAll<T(!new)>(rows: seq<T>, keep: T -> bool)
    requires forall x :: x in rows ==> keep(x)
    ensures Where(rows, keep) == rows
  {
    if rows != [] {
      WhereAll(rows[1..], keep);
    }
  }

  /** When exactly the row at index `k` fails the condition, filtering drops that row alone. */
  lemma {:induction false} WhereDropsOne<T(!new)>(rows: seq<T>, k: nat, keep: T -> bool)
    requires k < |rows|
    requires !keep(rows[k])
    requires forall i :: 0 <= i < |rows| && i != k ==> keep(rows[i])
    ensures Where(rows, keep) == rows[..k] + rows[k + 1..]
    ensures |Where(rows, keep)| == |rows| - 1
  {
    var tail := rows[1..];
    WhereCons(rows, keep);
    if k == 0 {
      assert forall x :: x in tail ==> keep(x) by {
        forall x | x in tail ensures keep(x) {
          var i :| 0 <= i < |tail| && tail[i] == x;
          assert tail[i] == rows[i + 1];
        }
      }
      WhereAll(tail, keep);
    } else {
      assert forall i :: 0 <= i < |tail| && i != k - 1 ==> keep(tail[i]) by {
        forall i | 0 <= i < |tail| && i != k - 1 ensures keep(tail[i]) {
          assert tail[i] == rows[i + 1];
        }
      }
      WhereDropsOne(tail, k - 1, keep);
      SliceAroundTail(rows, k);
    }
  }

  lemma WhereCons<T(!new)>(rows: seq<T>, keep: T -> bool)
    requires |rows| > 0
    ensures Where(rows, keep) == (if keep(rows[0]) then [rows[0]] else []) + Where(rows[1..], keep)
  {
  }

  lemma SliceAroundTail<T>(rows: seq<T>, k: nat)
    requires 0 < k < |rows|
    ensures [rows[0]] + (rows[1..][..k - 1] + rows[1..][k..]) == rows[..k] + rows[k + 1..]
  {
    assert rows[1..][..k - 1] == rows[1..k];
    assert rows[1..][k..] == rows[k + 1..];
    assert rows[..k] == [rows[0]] + rows[1..k];
  }

  function KeyOwner(userId: string): ApiKey -> bool {
    (r: ApiKey) => r.userId == userId
  }

  function KeyIsNot(key: string): ApiKey -> bool {
    (r: ApiKey) => r.key != key
  }

  function ProjectOwner(userId: string): Project -> bool {
    (p: Project) => p.userId == userId
  }

  function ProjectIdIsNot(id: string): Project -> bool {
    (p: Project) => p.id != id
  }

  // ---------------------------------------------------------------------------
  // find_unique / update on the project table
  // ---------------------------------------------------------------------------

  /** The project stored under `id`, if any. */
  function FindProject(rows: seq<Project>, id: string): (r: Option<Project>)
    ensures r.None? <==> ProjectIdUnused(rows, id)
    ensures r.Some? ==> r.value in rows && r.value.id == id
  {
    if rows == [] then None
    else if rows[0].id == id then Some(rows[0])
    else FindProject(rows[1..], id)
  }

  /** `project.update(where id, data)`: the table with the row whose id is `q.id` replaced by
      `q`. Nothing happens when no row has that id; otherwise `q` is stored in its place and
      the table holds nothing else new. */
  function ReplaceById(rows: seq<Project>, q: Project): (r: seq<Project>)
    ensures |r| == |rows|
    ensures forall i :: 0 <= i < |rows| ==> r[i] == if rows[i].id == q.id then q else rows[i]
    ensures ProjectIdUnused(rows, q.id) ==> r == rows
    ensures !ProjectIdUnused(rows, q.id) ==> q in r
    ensures forall p :: p in r ==> p == q || (p in rows && p.id != q.id)
    ensures forall p :: p in rows && p.id != q.id ==> p in r
  {
    var r := seq(|rows|, i requires 0 <= i < |rows| => if rows[i].id == q.id then q else rows[i]);
    assert ProjectIdUnused(rows, q.id) ==> r == rows by {
      if ProjectIdUnused(rows, q.id) {
        forall i | 0 <= i < |rows| ensures r[i] == rows[i] {
          assert rows[i] in rows;
        }
      }
    }
    assert !ProjectIdUnused(rows, q.id) ==> q in r by {
      if !ProjectIdUnused(rows, q.id) {
        var p :| p in rows && p.id == q.id;
        var i :| 0 <= i < |rows| && rows[i] == p;
        assert r[i] == q;
      }
    }
    assert forall p :: p in rows && p.id != q.id ==> p in r by {
      forall p | p in rows && p.id != q.id ensures p in r {
        var i :| 0 <= i < |rows| && rows[i] == p;
        assert r[i] == p;
      }
    }
    r
  }

  // ---------------------------------------------------------------------------
  // upsert on the user table with an empty update
  // ---------------------------------------------------------------------------

  /** `user.upsert(where clerkUserId, create {clerkUserId, email}, update {})`: creates an
      unlinked user when the id is unseen and leaves an existing one as it is. */
  function CreateIfAbsent(users: map<string, User>, clerkUserId: string, email: string): (r: map<string, User>)
    ensures r.Keys == users.Keys + {clerkUserId}
    ensures forall id :: id in users ==> r[id] == users[id]
    ensures clerkUserId !in users ==> r[clerkUserId] == UnlinkedUser(clerkUserId, email)
    ensures UsersValid(users) ==> UsersValid(r)
  {
    if clerkUserId in users then users else users[clerkUserId := UnlinkedUser(clerkUserId, email)]
  }

  /** Replaying the create-if-absent upsert changes nothing. */
  lemma CreateIfAbsentIdempotent(users: map<string, User>, clerkUserId: string, email: string, email': string)
    ensures CreateIfAbsent(CreateIfAbsent(users, clerkUserId, email), clerkUserId, email') ==
            CreateIfAbsent(users, clerkUserId, email)
  {
  }
}
