/** The project handlers: create, list by owner, get, patch, delete and key rotation. */
module Projects {
  import opened Records
  import opened Tables
  import opened Secrets
  import opened Database

  /** The name a project gets when the request carries no `name`. */
  const DefaultProjectName: string := "Untitled Project"

  const ProjectNotFound := HttpError(404, "Project not found")

  /** POST /projects: makes sure the owner exists (created with the placeholder e-mail when
      the identity provider's webhook has not arrived yet, left alone otherwise), mints a
      `mk_proj_` key and stores the project. `name` is `None` when the body has no `name`
      key. The new id and the random suffix are inputs; id and key must be unused. */
  method CreateProject(
    db: Db, clerkUserId: string, name: Option<string>, description: Option<string>, newId: string, suffix: string)
    returns (project: Project)
    requires db.Valid()
    requires UrlSafeSuffix(suffix)
    requires ProjectIdUnused(db.projects, newId)
    requires ProjectKeyUnused(db.projects, Token(ProjectKeyPrefix, suffix))
    modifies db`users, db`projects
    ensures db.Valid()
    ensures db.users == CreateIfAbsent(old(db.users), clerkUserId, PlaceholderEmail(clerkUserId))
    ensures project.id == newId && project.userId == clerkUserId
    ensures project.name == (if name.Some? then name.value else DefaultProjectName)
    ensures project.description == description
    ensures project.apiKey == Token(ProjectKeyPrefix, suffix) && TokenShape(ProjectKeyPrefix, project.apiKey)
    ensures db.projects == old(db.projects) + [project]
  {
    var projectName := if name.Some? then name.value else DefaultProjectName;
    db.users := CreateIfAbsent(db.users, clerkUserId, PlaceholderEmail(clerkUserId));
    var apiKey := Token(ProjectKeyPrefix, suffix);
    TokenHasShape(ProjectKeyPrefix, suffix);
    project := Project(newId, clerkUserId, projectName, description, apiKey);
    forall i | 0 <= i < |db.projects| ensures ProjectIdOf(db.projects[i]) != ProjectIdOf(project) {
      assert db.projects[i] in db.projects;
    }
    forall i | 0 <= i < |db.projects| ensures ProjectKeyOf(db.projects[i]) != ProjectKeyOf(project) {
      assert db.projects[i] in db.projects;
    }
    AppendKeepsDistinct(db.projects, project, ProjectIdOf);
    AppendKeepsDistinct(db.projects, project, ProjectKeyOf);
    db.projects := db.projects + [project];
  }

  /** GET /projects/{clerk_user_id}: exactly the user's projects (in insertion order,
      the model's choice). */
  method ListProjects(db: Db, clerkUserId: string) returns (projects: seq<Project>)
    ensures forall p :: p in projects <==> p in db.projects && p.userId == clerkUserId
    ensures projects == Where(db.projects, ProjectOwner(clerkUserId))
  {
    projects := Where(db.projects, ProjectOwner(clerkUserId));
  }

  /** GET /projects/detail/{project_id}: the project with that id, or 404. */
  method GetProject(db: Db, projectId: string) returns (r: Result<Project, HttpError>)
    ensures r.Err? <==> ProjectIdUnused(db.projects, projectId)
    ensures r.Err? ==> r.error == ProjectNotFound
    ensures r.Ok? ==> r.value in db.projects && r.value.id == projectId
  {
    var project := FindProject(db.projects, projectId);
    if project.None? {
      return Err(ProjectNotFound);
    }
    r := Ok(project.value);
  }

  /** The `update_data` of a patch: the fields to overwrite. */
  datatype ProjectUpdate = ProjectUpdate(name: Option<string>, description: Option<string>)

  /** A project with `update_data` written over it. */
  function Patched(p: Project, data: ProjectUpdate): (q: Project)
    ensures q.id == p.id && q.userId == p.userId && q.apiKey == p.apiKey
    ensures q.name == (if data.name.Some? then data.name.value else p.name)
    ensures q.description == (if data.description.Some? then data.description else p.description)
  {
    var named := if data.name.Some? then p.(name := data.name.value) else p;
    if data.description.Some? then named.(description := data.description) else named
  }

  /** A patch with neither field leaves the project as it was. */
  lemma EmptyPatchKeepsProject(p: Project)
    ensures Patched(p, ProjectUpdate(None, None)) == p
  {
  }

  /** PATCH /projects/{project_id}: overwrites the name and the description that are given
      (not None) and nothing else; the key and the owner never change. */
  method UpdateProject(db: Db, projectId: string, name: Option<string>, description: Option<string>)
    returns (r: Result<Project, StoreError>)
    requires db.Valid()
    modifies db`projects
    ensures db.Valid()
    ensures ProjectIdUnused(old(db.projects), projectId) ==> r == Err(RowMissing) && db.projects == old(db.projects)
    ensures !ProjectIdUnused(old(db.projects), projectId) ==>
      var p := FindProject(old(db.projects), projectId).value;
      && r == Ok(Patched(p, ProjectUpdate(name, description)))
      && db.projects == ReplaceById(old(db.projects), r.value)
  {
    var updateData := ProjectUpdate(None, None);
    if name.Some? {
      updateData := updateData.(name := name);
    }
    if description.Some? {
      updateData := updateData.(description := description);
    }
    var found := FindProject(db.projects, projectId);
    if found.None? {
      return Err(RowMissing);
    }
    var project := Patched(found.value, updateData);
    ReplaceKeepsDistinct(db.projects, project);
    db.projects := ReplaceById(db.projects, project);
    r := Ok(project);
  }

  /** DELETE /projects/{project_id}: removes that project and no other row; the user table
      is not touched. */
  method DeleteProject(db: Db, projectId: string) returns (r: Result<string, StoreError>)
    requires db.Valid()
    modifies db`projects
    ensures db.Valid()
    ensures ProjectIdUnused(old(db.projects), projectId) ==> r == Err(RowMissing) && db.projects == old(db.projects)
    ensures !ProjectIdUnused(old(db.projects), projectId) ==>
      && r == Ok("deleted")
      && db.projects == Where(old(db.projects), ProjectIdIsNot(projectId))
      && |db.projects| == |old(db.projects)| - 1
  {
    if FindProject(db.projects, projectId).None? {
      return Err(RowMissing);
    }
    var found := FindProject(db.projects, projectId).value;
    var k :| 0 <= k < |db.projects| && db.projects[k] == found;
    DeleteRemovesOneProject(db.projects, k);
    assert ProjectKeysMinted(Where(db.projects, ProjectIdIsNot(projectId)));
    db.projects := Where(db.projects, ProjectIdIsNot(projectId));
    r := Ok("deleted");
  }

  /** POST /projects/{project_id}/regenerate-key: stores a fresh `mk_proj_` key in that
      project, changing nothing else, and answers exactly the stored key. */
  method RegenerateApiKey(db: Db, projectId: string, suffix: string) returns (r: Result<string, StoreError>)
    requires db.Valid()
    requires UrlSafeSuffix(suffix)
    requires ProjectKeyUnused(db.projects, Token(ProjectKeyPrefix, suffix))
    modifies db`projects
    ensures db.Valid()
    ensures ProjectIdUnused(old(db.projects), projectId) ==> r == Err(RowMissing) && db.projects == old(db.projects)
    ensures !ProjectIdUnused(old(db.projects), projectId) ==>
      var p := FindProject(old(db.projects), projectId).value;
      && r == Ok(Token(ProjectKeyPrefix, suffix))
      && TokenShape(ProjectKeyPrefix, r.value)
      && db.projects == ReplaceById(old(db.projects), p.(apiKey := r.value))
  {
    var newKey := Token(ProjectKeyPrefix, suffix);
    TokenHasShape(ProjectKeyPrefix, suffix);
    var found := FindProject(db.projects, projectId);
    if found.None? {
      return Err(RowMissing);
    }
    var project := found.value.(apiKey := newKey);
    ReplaceKeepsDistinct(db.projects, project);
    db.projects := ReplaceById(db.projects, project);
    r := Ok(newKey);
  }

  /** Overwriting the row with `q`'s id keeps ids and keys unique when `q` keeps that row's
      key or brings an unused one. */
  lemma ReplaceKeepsDistinct(rows: seq<Project>, q: Project)
    requires DistinctProjects(rows)
    requires FindProject(rows, q.id).Some?
    requires q.apiKey == FindProject(rows, q.id).value.apiKey || ProjectKeyUnused(rows, q.apiKey)
    ensures DistinctProjects(ReplaceById(rows, q))
  {
    var after := ReplaceById(rows, q);
    forall i, j | 0 <= i < j < |after|
      ensures ProjectIdOf(after[i]) != ProjectIdOf(after[j]) && ProjectKeyOf(after[i]) != ProjectKeyOf(after[j])
    {
      assert ProjectIdOf(rows[i]) != ProjectIdOf(rows[j]);
      assert ProjectKeyOf(rows[i]) != ProjectKeyOf(rows[j]);
      assert rows[i] in rows && rows[j] in rows;
      var p := FindProject(rows, q.id).value;
      var k :| 0 <= k < |rows| && rows[k] == p;
      if i != k {
        RowsHoldDifferentIds(rows, i, k);
      }
      if j != k {
        RowsHoldDifferentIds(rows, j, k);
      }
    }
  }

  /** With unique ids, two different rows hold different ids. */
  lemma RowsHoldDifferentIds(rows: seq<Project>, i: nat, k: nat)
    requires DistinctProjects(rows)
    requires i < |rows| && k < |rows| && i != k
    ensures rows[i].id != rows[k].id
  {
    if i < k {
      assert ProjectIdOf(rows[i]) != ProjectIdOf(rows[k]);
    } else {
      assert ProjectIdOf(rows[k]) != ProjectIdOf(rows[i]);
    }
  }

  /** After an update by id, reading that id gives exactly the written row, and every
      other project is still there. */
  lemma UpdateThenGet(rows: seq<Project>, q: Project)
    requires DistinctProjects(rows)
    requires FindProject(rows, q.id).Some?
    requires q.apiKey == FindProject(rows, q.id).value.apiKey || ProjectKeyUnused(rows, q.apiKey)
    ensures FindProject(ReplaceById(rows, q), q.id) == Some(q)
    ensures forall other :: other in rows && other.id != q.id ==> other in ReplaceById(rows, q)
  {
    var after := ReplaceById(rows, q);
    ReplaceKeepsDistinct(rows, q);
    var k :| 0 <= k < |rows| && rows[k] == FindProject(rows, q.id).value;
    assert after[k] == q;
    forall other | other in rows && other.id != q.id ensures other in after {
      var j :| 0 <= j < |rows| && rows[j] == other;
      assert after[j] == other;
    }
  }

  /** After a rotation the old key no longer opens any project, and reading the project
      gives it back holding the new key. */
  lemma RotationInvalidatesOldKey(rows: seq<Project>, projectId: string, newKey: string)
    requires DistinctProjects(rows)
    requires FindProject(rows, projectId).Some?
    requires ProjectKeyUnused(rows, newKey)
    ensures var p := FindProject(rows, projectId).value;
      var after := ReplaceById(rows, p.(apiKey := newKey));
      && ProjectKeyUnused(after, p.apiKey)
      && FindProject(after, projectId) == Some(p.(apiKey := newKey))
  {
    var p := FindProject(rows, projectId).value;
    var q' := p.(apiKey := newKey);
    var after := ReplaceById(rows, q');
    UpdateThenGet(rows, q');
    var k :| 0 <= k < |rows| && rows[k] == p;
    forall i | 0 <= i < |after| ensures after[i].apiKey != p.apiKey {
      if rows[i].id == projectId {
        assert after[i] == q';
      } else {
        assert after[i] == rows[i];
        RowsHoldDifferentKeys(rows, i, k);
      }
    }
  }

  /** With unique project keys, two different rows hold different keys. */
  lemma RowsHoldDifferentKeys(rows: seq<Project>, i: nat, k: nat)
    requires DistinctProjects(rows)
    requires i < |rows| && k < |rows| && i != k
    ensures rows[i].apiKey != rows[k].apiKey
  {
    if i < k {
      assert ProjectKeyOf(rows[i]) != ProjectKeyOf(rows[k]);
    } else {
      assert ProjectKeyOf(rows[k]) != ProjectKeyOf(rows[i]);
    }
  }

  /** A user's `mk_live_` key never opens a project: when every project key is minted, no
      project holds it, whatever its suffix. */
  lemma UserKeyOpensNoProject(rows: seq<Project>, suffix: string)
    requires ProjectKeysMinted(rows)
    ensures ProjectKeyUnused(rows, Token(UserKeyPrefix, suffix))
  {
    forall p | p in rows ensures p.apiKey != Token(UserKeyPrefix, suffix) {
      var stored := p.apiKey[|ProjectKeyPrefix|..];
      assert p.apiKey == Token(ProjectKeyPrefix, stored);
      UserAndProjectKeysDiffer(suffix, stored);
    }
  }

  /** With unique ids, deleting the project of row `k` removes that row alone and keeps ids
      and keys unique. */
  lemma DeleteRemovesOneProject(rows: seq<Project>, k: nat)
    requires DistinctProjects(rows)
    requires k < |rows|
    ensures Where(rows, ProjectIdIsNot(rows[k].id)) == rows[..k] + rows[k + 1..]
    ensures |Where(rows, ProjectIdIsNot(rows[k].id))| == |rows| - 1
    ensures DistinctProjects(Where(rows, ProjectIdIsNot(rows[k].id)))
  {
    var id := rows[k].id;
    forall i | 0 <= i < |rows| && i != k
      ensures ProjectIdIsNot(id)(rows[i])
    {
      if i < k {
        assert ProjectIdOf(rows[i]) != ProjectIdOf(rows[k]);
      } else {
        assert ProjectIdOf(rows[k]) != ProjectIdOf(rows[i]);
      }
    }
    WhereDropsOne(rows, k, ProjectIdIsNot(id));
    RemoveAtKeepsDistinct(rows, k, ProjectIdOf);
    RemoveAtKeepsDistinct(rows, k, ProjectKeyOf);
  }
}
