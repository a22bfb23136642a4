/**
  backend/src/controllers/project.controller.ts: create a project from the
  name and description a client sends, list every project newest first,
  delete a project by id.
 */
module ProjectController {
  import opened Options
  import opened Schema
  import opened Seqs
  import opened Db
  import opened Http
  import Text

  const ProjectNotFound: string := "Project not found"
  const ProjectDeleted: string := "Project deleted successfully"

  /** The JSON body of `POST /api/projects`, as the client may send it. */
  datatype ProjectBody = ProjectBody(name: Option<string>, description: Option<string>,
                                     startDate: Option<int>, endDate: Option<int>,
                                     status: Option<string>)

  /** The handler destructures only name and description. */
  function Picked(b: ProjectBody): ProjectInput {
    ProjectInput(b.name, b.description, None, None, None)
  }

  /** `createProject`: build the project from name and description, save it
      with the fresh id and the current time, and answer 201 with it. */
  function CreateProject(s: Store, body: ProjectBody, now: int, fault: Option<string>): (r: Exchange)
    ensures r.response.status == 201 || r.response.status == 500
    ensures fault.Some? ==> r == Exchange(s, ServerFailure(DbError(fault.value)))
    ensures r.response.status == 201 <==>
              fault.None? && RequiredText(body.name) && RequiredRaw(body.description)
    ensures fault.None? && r.response.status == 500 ==>
              r == Exchange(s, ServerFailure(ValidationError(ProjectErrors(Picked(body)))))
    ensures r.response.status != 201 ==> r.store == s
    ensures r.response.status == 201 ==>
              && r.response.body.ProjectDoc?
              && var p := r.response.body.project;
              && p.id == s.nextId
              && r.store == InsertProject(s, p)
              && WellFormedProject(p)
              && p.name == Text.Trim(body.name.value)
              && p.description == body.description.value
              && p.status == Planning
              && p.startDate == now && p.endDate == None
              && p.createdAt == now && p.updatedAt == now
  {
    if fault.Some? then Exchange(s, ServerFailure(DbError(fault.value)))
    else
      match BuildProject(Picked(body), s.nextId, now)
      case Invalid(errors) => Exchange(s, ServerFailure(ValidationError(errors)))
      case Ok(p) => Exchange(InsertProject(s, p), Response(201, ProjectDoc(p)))
  }

  /** The start date, end date and status a client sends are ignored: a new
      project always starts now, has no end date and is in planning. */
  lemma CreateProjectIgnoresUnpickedFields(s: Store, body: ProjectBody, startDate: Option<int>,
                                           endDate: Option<int>, status: Option<string>,
                                           now: int, fault: Option<string>)
    ensures CreateProject(s, body, now, fault)
         == CreateProject(s, body.(startDate := startDate, endDate := endDate, status := status), now, fault)
  {
    assert Picked(body) == Picked(body.(startDate := startDate, endDate := endDate, status := status));
  }

  /** A successful create adds exactly one project, under a previously
      unused id, and keeps the store valid; the tasks are untouched. */
  lemma CreateProjectAddsOne(s: Store, body: ProjectBody, now: int, fault: Option<string>)
    requires Valid(s)
    ensures var r := CreateProject(s, body, now, fault);
            && Valid(r.store)
            && r.store.tasks == s.tasks
            && (r.response.status == 201 ==>
                  && s.nextId !in s.projects
                  && r.store.projects.Keys == s.projects.Keys + {s.nextId}
                  && |r.store.projects| == |s.projects| + 1)
  {
    var r := CreateProject(s, body, now, fault);
    if r.response.status == 201 {
      InsertProjectValid(s, r.response.body.project);
    }
  }

  /** `getProjects`: every project, sorted by `createdAt`, newest first. */
  function GetProjects(s: Store, fault: Option<string>): (r: Exchange)
    ensures r.store == s
    ensures fault.Some? ==> r.response == ServerFailure(DbError(fault.value))
    ensures fault.None? ==>
              && r.response.status == 200
              && r.response.body.ProjectList?
              && SortedDesc(r.response.body.projects, ProjectCreated)
              && multiset(r.response.body.projects) == multiset(AllProjects(s))
  {
    if fault.Some? then Exchange(s, ServerFailure(DbError(fault.value)))
    else Exchange(s, Response(200, ProjectList(SortDesc(AllProjects(s), ProjectCreated))))
  }

  /** The listing holds every stored project exactly once and nothing
      else, newest first. */
  lemma GetProjectsExactly(s: Store)
    requires Keyed(s)
    ensures var listed := GetProjects(s, None).response.body.projects;
            && |listed| == |s.projects|
            && SortedDesc(listed, ProjectCreated)
            && forall p :: p in listed <==> p.id in s.projects && s.projects[p.id] == p
  {
    AllProjectsExactly(s);
    SortDescMembers(AllProjects(s), ProjectCreated);
  }

  /** `deleteProject`: remove the project, or 404 if no project has the id.
      Only the project collection is touched. */
  function DeleteProject(s: Store, id: Id, fault: Option<string>): (r: Exchange)
    ensures fault.Some? ==> r == Exchange(s, ServerFailure(DbError(fault.value)))
    ensures fault.None? && id !in s.projects ==> r == Exchange(s, Reply(404, ProjectNotFound))
    ensures fault.None? && id in s.projects ==>
              && r.response == Reply(200, ProjectDeleted)
              && id !in r.store.projects
              && r.store.projects.Keys == s.projects.Keys - {id}
              && (forall k :: k in r.store.projects ==> r.store.projects[k] == s.projects[k])
    ensures r.store.tasks == s.tasks && r.store.users == s.users && r.store.nextId == s.nextId
  {
    if fault.Some? then Exchange(s, ServerFailure(DbError(fault.value)))
    else if id !in s.projects then Exchange(s, Reply(404, ProjectNotFound))
    else Exchange(s.(projects := s.projects - {id}), Reply(200, ProjectDeleted))
  }

  /** Deleting a project leaves its tasks behind: every task that named the
      project still exists and still names it, although the project is
      gone. */
  lemma DeleteProjectOrphansTasks(s: Store, id: Id, t: Task)
    requires t in s.tasks.Values && t.projectId == id
    requires DeleteProject(s, id, None).response.status == 200
    ensures var s' := DeleteProject(s, id, None).store;
            t in s'.tasks.Values && t.projectId !in s'.projects
  {}

  /** Deleting the same project twice: the second attempt is a 404 and
      changes nothing. */
  lemma DeleteProjectTwice(s: Store, id: Id)
    requires id in s.projects
    ensures var r1 := DeleteProject(s, id, None);
            var r2 := DeleteProject(r1.store, id, None);
            && r1.response.status == 200
            && r2 == Exchange(r1.store, Reply(404, ProjectNotFound))
  {}

  /** Deleting a project keeps the store valid. */
  lemma DeleteProjectPreservesValid(s: Store, id: Id, fault: Option<string>)
    requires Valid(s)
    ensures Valid(DeleteProject(s, id, fault).store)
  {}
}
