/**
  backend/src/controllers/task.controller.ts: create a task under an
  existing project, list a project's tasks through a conjunctive filter with
  sorting and pagination, update a task, delete a task.
 */
module TaskController {
  import opened Options
  import opened Schema
  import opened Seqs
  import opened Db
  import opened Http
  import Text

  const ProjectNotFound: string := "Project not found"
  const TaskNotFound: string := "Task not found"
  const TaskDeleted: string := "Task deleted successfully"
  const DefaultPage: nat := 1
  const DefaultLimit: nat := 10

  /** The JSON body of `POST /api/tasks`, as the client may send it. */
  datatype TaskBody = TaskBody(title: Option<string>, description: Option<string>,
                               status: Option<string>, priority: Option<string>,
                               deadline: Option<int>, projectId: Option<Id>,
                               assignee: Option<Id>)

  /** The handler destructures only title, status, priority, deadline and
      projectId; everything else in the body is dropped. */
  function Picked(b: TaskBody): TaskInput {
    TaskInput(b.title, None, b.status, b.priority, b.deadline, b.projectId, None)
  }

  /** `Project.findById(projectId)` finds a document (an absent id finds none). */
  predicate ProjectResolves(s: Store, projectId: Option<Id>) {
    projectId.Some? && projectId.value in s.projects
  }

  /** `createTask`: 404 unless the project exists, then build and save the
      task with the fresh id and the current time. */
  function CreateTask(s: Store, body: TaskBody, now: int, fault: Option<string>): (r: Exchange)
    ensures r.response.status == 201 || r.response.status == 404 || r.response.status == 500
    ensures fault.Some? ==> r == Exchange(s, ServerFailure(DbError(fault.value)))
    ensures fault.None? && !ProjectResolves(s, body.projectId) ==>
              r == Exchange(s, Reply(404, ProjectNotFound))
    ensures r.response.status == 201 <==>
              && fault.None? && ProjectResolves(s, body.projectId)
              && RequiredText(body.title) && body.deadline.Some?
              && (body.status.Some? ==> ParseTaskStatus(body.status.value).Some?)
              && (body.priority.Some? ==> ParsePriority(body.priority.value).Some?)
    ensures fault.None? && ProjectResolves(s, body.projectId) && r.response.status != 201 ==>
              r == Exchange(s, ServerFailure(ValidationError(TaskErrors(Picked(body)))))
    ensures r.response.status != 201 ==> r.store == s
    ensures r.response.status == 201 ==>
              && r.response.body.TaskDoc?
              && var t := r.response.body.task;
              && t.id == s.nextId
              && r.store == InsertTask(s, t)
              && WellFormedTask(t)
              && t.title == Text.Trim(body.title.value)
              && t.description == ""
              && t.assignee == None
              && t.status == (if body.status.Some? then ParseTaskStatus(body.status.value).value else Todo)
              && t.priority == (if body.priority.Some? then ParsePriority(body.priority.value).value else Medium)
              && t.deadline == body.deadline.value
              && t.projectId == body.projectId.value
              && t.createdAt == now && t.updatedAt == now
  {
    if fault.Some? then Exchange(s, ServerFailure(DbError(fault.value)))
    else if !ProjectResolves(s, body.projectId) then Exchange(s, Reply(404, ProjectNotFound))
    else
      match BuildTask(Picked(body), s.nextId, now)
      case Invalid(errors) => Exchange(s, ServerFailure(ValidationError(errors)))
      case Ok(t) =>
        Exchange(InsertTask(s, t), Response(201, TaskDoc(t)))
  }

  /** The description and assignee a client sends are ignored: the stored
      task takes the schema defaults whatever they are. */
  lemma CreateTaskIgnoresUnpickedFields(s: Store, body: TaskBody, description: Option<string>,
                                        assignee: Option<Id>, now: int, fault: Option<string>)
    ensures CreateTask(s, body, now, fault)
         == CreateTask(s, body.(description := description, assignee := assignee), now, fault)
  {
    assert Picked(body) == Picked(body.(description := description, assignee := assignee));
  }

  /** A successful create adds exactly one task, under a previously unused id,
      and keeps the store valid. */
  lemma CreateTaskAddsOne(s: Store, body: TaskBody, now: int, fault: Option<string>)
    requires Valid(s)
    ensures var r := CreateTask(s, body, now, fault);
            && Valid(r.store)
            && (r.response.status == 201 ==>
                  && s.nextId !in s.tasks
                  && r.store.tasks.Keys == s.tasks.Keys + {s.nextId}
                  && |r.store.tasks| == |s.tasks| + 1)
  {
    var r := CreateTask(s, body, now, fault);
    if r.response.status == 201 {
      InsertTaskValid(s, r.response.body.task);
    }
  }

  // ---------------------------------------------------------------------
  // Listing a project's tasks

  /** The query string of `GET /api/tasks/project/:projectId`; dates are
      already converted to timestamps. */
  datatype TaskQuery = TaskQuery(status: Option<string>, priority: Option<string>,
                                 startDate: Option<int>, endDate: Option<int>,
                                 page: Option<nat>, limit: Option<nat>)

  /** JavaScript truthiness of a query-string value: absent and empty are
      both false. */
  predicate Truthy(v: Option<string>) {
    v.Some? && v.value != ""
  }

  /** A `$gte`/`$lte` range on the deadline; either bound may be missing. */
  datatype Range = Range(gte: Option<int>, lte: Option<int>)

  /** The filter object: `projectId` always, the other keys only when the
      handler sets them. */
  datatype Filter = Filter(projectId: Id, status: Option<string>, priority: Option<string>,
                           deadline: Option<Range>)

  /** The filter object the handler assembles, key by key. */
  function BuildFilter(projectId: Id, q: TaskQuery): Filter {
    Filter(projectId,
           if Truthy(q.status) then q.status else None,
           if Truthy(q.priority) then q.priority else None,
           if q.startDate.Some? || q.endDate.Some? then Some(Range(q.startDate, q.endDate)) else None)
  }

  /** How the database matches a document against the filter object: every
      key present must match. */
  predicate Satisfies(f: Filter, t: Task) {
    && t.projectId == f.projectId
    && (f.status.Some? ==> TaskStatusName(t.status) == f.status.value)
    && (f.priority.Some? ==> PriorityName(t.priority) == f.priority.value)
    && (f.deadline.Some? ==>
          && (f.deadline.value.gte.Some? ==> t.deadline >= f.deadline.value.gte.value)
          && (f.deadline.value.lte.Some? ==> t.deadline <= f.deadline.value.lte.value))
  }

  /** The tasks the listing is meant to return: those of the project, with
      status and priority matched exactly when supplied, and a deadline in
      the closed range given by whichever bounds are supplied. */
  predicate Wanted(projectId: Id, q: TaskQuery, t: Task) {
    && t.projectId == projectId
    && (Truthy(q.status) ==> TaskStatusName(t.status) == q.status.value)
    && (Truthy(q.priority) ==> PriorityName(t.priority) == q.priority.value)
    && (q.startDate.Some? ==> t.deadline >= q.startDate.value)
    && (q.endDate.Some? ==> t.deadline <= q.endDate.value)
  }

  /** The filter object the handler builds selects exactly the wanted tasks. */
  lemma FilterMeansWanted(projectId: Id, q: TaskQuery, t: Task)
    ensures Satisfies(BuildFilter(projectId, q), t) <==> Wanted(projectId, q, t)
  {}

  /** `Task.find(filter)`: the documents satisfying the filter, in order. */
  function Select(ts: seq<Task>, f: Filter): (r: seq<Task>)
    ensures |r| <= |ts|
    ensures forall t :: t in r <==> t in ts && Satisfies(f, t)
  {
    if ts == [] then []
    else (if Satisfies(f, ts[0]) then [ts[0]] else []) + Select(ts[1..], f)
  }

  predicate ValidPaging(q: TaskQuery) {
    (q.page.Some? ==> q.page.value >= 1) && (q.limit.Some? ==> q.limit.value >= 1)
  }

  function PageOf(q: TaskQuery): nat { q.page.GetOr(DefaultPage) }
  function LimitOf(q: TaskQuery): nat { q.limit.GetOr(DefaultLimit) }

  /** The filtered tasks, newest first, before the page is cut out. */
  function Ordered(s: Store, projectId: Id, q: TaskQuery): seq<Task> {
    SortDesc(Select(AllTasks(s), BuildFilter(projectId, q)), TaskCreated)
  }

  /** Every task of the ordered listing is stored and wanted by the query. */
  lemma OrderedAreWanted(s: Store, projectId: Id, q: TaskQuery)
    ensures forall t :: t in Ordered(s, projectId, q) ==> t in s.tasks.Values && Wanted(projectId, q, t)
  {
    SortDescMembers(Select(AllTasks(s), BuildFilter(projectId, q)), TaskCreated);
    forall t | t in Ordered(s, projectId, q)
      ensures t in s.tasks.Values && Wanted(projectId, q, t)
    {
      FilterMeansWanted(projectId, q, t);
    }
  }

  /** The response body for one page of an ordered listing: the window
      `skip((page - 1) * limit).limit(limit)` and the pagination block. */
  function Paginate(ordered: seq<Task>, page: nat, limit: nat): (b: Body)
    requires page >= 1 && limit >= 1
    requires SortedDesc(ordered, TaskCreated)
    ensures b.TaskPage?
    ensures |b.tasks| <= limit
    ensures b.pagination.currentPage == page && b.pagination.totalTasks == |ordered|
    ensures b.pagination.totalPages * limit >= |ordered|
    ensures b.pagination.totalPages == 0 || (b.pagination.totalPages - 1) * limit < |ordered|
    ensures SortedDesc(b.tasks, TaskCreated)
    ensures forall t :: t in b.tasks ==> t in ordered
  {
    WindowKeepsOrder(ordered, Skip(page, limit), limit, TaskCreated);
    TaskPage(Window(ordered, Skip(page, limit), limit),
             Pagination(page, CeilDiv(|ordered|, limit), |ordered|))
  }

  /** `getTasksByProject`: filter, sort by `createdAt` descending, skip
      `(page - 1) * limit`, take `limit`, and report the page, the page count
      and the number of matching tasks. */
  function GetTasksByProject(s: Store, projectId: Id, q: TaskQuery, fault: Option<string>): (r: Exchange)
    requires ValidPaging(q)
    ensures r.store == s
    ensures fault.Some? ==> r.response == ServerFailure(DbError(fault.value))
    ensures fault.None? ==>
              && r.response.status == 200
              && r.response.body.TaskPage?
              && var tasks := r.response.body.tasks;
              && var pg := r.response.body.pagination;
              && |tasks| <= LimitOf(q)
              && pg.currentPage == PageOf(q)
              && pg.totalPages * LimitOf(q) >= pg.totalTasks
              && (pg.totalPages == 0 || (pg.totalPages - 1) * LimitOf(q) < pg.totalTasks)
              && SortedDesc(tasks, TaskCreated)
              && forall t :: t in tasks ==> t in s.tasks.Values && Wanted(projectId, q, t)
  {
    if fault.Some? then Exchange(s, ServerFailure(DbError(fault.value)))
    else
      OrderedAreWanted(s, projectId, q);
      Exchange(s, Response(200, Paginate(Ordered(s, projectId, q), PageOf(q), LimitOf(q))))
  }

  /** The keys among `ks` whose record satisfies the filter. */
  function MatchingKeys(m: map<Id, Task>, ks: seq<Id>, f: Filter): set<Id>
    requires forall k :: k in ks ==> k in m
  {
    set k | k in ks && Satisfies(f, m[k])
  }

  /** One step of `Select`: the head counts when it satisfies the filter. */
  lemma SelectStep(xs: seq<Task>, f: Filter)
    requires xs != []
    ensures |Select(xs, f)| == (if Satisfies(f, xs[0]) then 1 else 0) + |Select(xs[1..], f)|
  {}

  /** One step of `Lookup`. */
  lemma LookupStep(m: map<Id, Task>, ks: seq<Id>)
    requires ks != [] && forall k :: k in ks ==> k in m
    ensures Lookup(m, ks)[0] == m[ks[0]]
    ensures Lookup(m, ks)[1..] == Lookup(m, ks[1..])
  {}

  /** One step of `MatchingKeys` over a strictly decreasing key sequence. */
  lemma MatchingKeysStep(m: map<Id, Task>, ks: seq<Id>, f: Filter)
    requires ks != [] && forall k :: k in ks ==> k in m
    requires forall i, j :: 0 <= i < j < |ks| ==> ks[i] > ks[j]
    ensures |MatchingKeys(m, ks, f)|
         == (if Satisfies(f, m[ks[0]]) then 1 else 0) + |MatchingKeys(m, ks[1..], f)|
  {
    var k0 := ks[0];
    var rest := ks[1..];
    assert k0 !in rest by {
      forall i | 0 <= i < |rest|
        ensures rest[i] != k0
      {
        assert rest[i] == ks[i + 1];
      }
    }
    var all := MatchingKeys(m, ks, f);
    var later := MatchingKeys(m, rest, f);
    assert forall k :: k in ks <==> k == k0 || k in rest by {
      assert ks == [k0] + rest;
    }
    if Satisfies(f, m[k0]) {
      assert all == later + {k0};
    } else {
      assert all == later;
    }
  }

  /** The number of selected documents is the number of keys whose record
      satisfies the filter. */
  lemma {:induction false} SelectCount(m: map<Id, Task>, ks: seq<Id>, f: Filter)
    requires forall k :: k in ks ==> k in m
    requires forall i, j :: 0 <= i < j < |ks| ==> ks[i] > ks[j]
    ensures |Select(Lookup(m, ks), f)| == |MatchingKeys(m, ks, f)|
  {
    if ks == [] {
      assert MatchingKeys(m, ks, f) == {};
    } else {
      assert forall k :: k in ks[1..] ==> k in ks;
      SelectCount(m, ks[1..], f);
      LookupStep(m, ks);
      SelectStep(Lookup(m, ks), f);
      MatchingKeysStep(m, ks, f);
    }
  }

  /** The ids of the stored tasks the query wants. */
  function WantedIds(s: Store, projectId: Id, q: TaskQuery): set<Id> {
    set id | id in s.tasks && Wanted(projectId, q, s.tasks[id])
  }

  /** `totalTasks` counts every stored task the query wants, not just the
      tasks on the page. */
  lemma WantedCount(s: Store, projectId: Id, q: TaskQuery)
    requires Keyed(s)
    ensures |Ordered(s, projectId, q)| == |WantedIds(s, projectId, q)|
  {
    var f := BuildFilter(projectId, q);
    var ks := IdsDesc(s.tasks, s.nextId);
    SelectCount(s.tasks, ks, f);
    var byKeys := MatchingKeys(s.tasks, ks, f);
    var wanted := WantedIds(s, projectId, q);
    forall id
      ensures id in byKeys <==> id in wanted
    {
      if id in s.tasks {
        FilterMeansWanted(projectId, q, s.tasks[id]);
      }
    }
    assert byKeys == wanted;
  }

  /** The ordered listing holds exactly the stored tasks the query wants. */
  lemma OrderedExactly(s: Store, projectId: Id, q: TaskQuery)
    requires Keyed(s)
    ensures forall t :: t in Ordered(s, projectId, q) <==>
                        t.id in s.tasks && s.tasks[t.id] == t && Wanted(projectId, q, t)
  {
    AllTasksExactly(s);
    var matching := Select(AllTasks(s), BuildFilter(projectId, q));
    var ordered := Ordered(s, projectId, q);
    SortDescMembers(matching, TaskCreated);
    forall t: Task
      ensures t in ordered <==> t.id in s.tasks && s.tasks[t.id] == t && Wanted(projectId, q, t)
    {
      FilterMeansWanted(projectId, q, t);
    }
  }

  /** The page is a window of one fixed ordering of ALL wanted tasks:
      `totalTasks` counts every stored task the query wants, and the page
      is positions `[(page-1)*limit, (page-1)*limit+limit)` of those tasks
      sorted by `createdAt`, newest first. */
  lemma PageIsWindowOfWanted(s: Store, projectId: Id, q: TaskQuery)
    requires Keyed(s) && ValidPaging(q)
    ensures var body := GetTasksByProject(s, projectId, q, None).response.body;
            var ordered := Ordered(s, projectId, q);
            && body.pagination.totalTasks == |WantedIds(s, projectId, q)|
            && SortedDesc(ordered, TaskCreated)
            && (forall t :: t in ordered <==> t.id in s.tasks && s.tasks[t.id] == t && Wanted(projectId, q, t))
            && body.tasks == Window(ordered, Skip(PageOf(q), LimitOf(q)), LimitOf(q))
  {
    WantedCount(s, projectId, q);
    OrderedExactly(s, projectId, q);
  }

  /** With the default query and two tasks in the project, the pagination
      block is `{currentPage: 1, totalPages: 1, totalTasks: 2}`. */
  lemma DefaultPaginationOfTwo(s: Store, projectId: Id)
    requires Keyed(s)
    requires |set id | id in s.tasks && s.tasks[id].projectId == projectId| == 2
    ensures GetTasksByProject(s, projectId, TaskQuery(None, None, None, None, None, None), None)
              .response.body.pagination == Pagination(1, 1, 2)
  {
    var q := TaskQuery(None, None, None, None, None, None);
    WantedCount(s, projectId, q);
    assert WantedIds(s, projectId, q) == set id | id in s.tasks && s.tasks[id].projectId == projectId;
  }

  /** A stored task the query wants, created strictly after every other
      stored task, heads page 1 of the listing. */
  lemma NewestListedFirst(s: Store, q: TaskQuery, t: Task)
    requires Keyed(s) && ValidPaging(q) && PageOf(q) == 1
    requires t.id in s.tasks && s.tasks[t.id] == t && Wanted(t.projectId, q, t)
    requires forall id :: id in s.tasks && id != t.id ==> s.tasks[id].createdAt < t.createdAt
    ensures var listed := GetTasksByProject(s, t.projectId, q, None).response.body.tasks;
            |listed| > 0 && listed[0] == t
  {
    OrderedExactly(s, t.projectId, q);
    var ordered := Ordered(s, t.projectId, q);
    forall k | 0 <= k < |ordered| && ordered[k] != t
      ensures TaskCreated(ordered[k]) < TaskCreated(t)
    {
      assert ordered[k] in ordered;
    }
    StrictMaxFirst(ordered, TaskCreated, t);
  }

  /** With a clock that moves forward, a task just created is the first task
      on page 1 of its project's listing whenever the query wants it. */
  lemma NewTaskListedFirst(s: Store, body: TaskBody, now: int, q: TaskQuery)
    requires Valid(s) && ValidPaging(q) && PageOf(q) == 1
    requires forall id :: id in s.tasks ==> s.tasks[id].createdAt < now
    requires CreateTask(s, body, now, None).response.status == 201
    ensures var r := CreateTask(s, body, now, None);
            var t := r.response.body.task;
            Wanted(t.projectId, q, t) ==>
              var listed := GetTasksByProject(r.store, t.projectId, q, None).response.body.tasks;
              |listed| > 0 && listed[0] == t
  {
    var r := CreateTask(s, body, now, None);
    var t := r.response.body.task;
    InsertTaskValid(s, t);
    if Wanted(t.projectId, q, t) {
      NewestListedFirst(r.store, q, t);
    }
  }

  // ---------------------------------------------------------------------
  // Updating and deleting

  /** `updateTask`: the update validators run before the query, then 404 if
      no task has the id, else the five fields the update sets are written
      and the new document is returned. */
  function UpdateTask(s: Store, id: Id, u: TaskUpdate, now: int, fault: Option<string>): (r: Exchange)
    ensures r.response.status == 200 || r.response.status == 404 || r.response.status == 500
    ensures fault.Some? ==> r == Exchange(s, ServerFailure(DbError(fault.value)))
    ensures fault.None? && UpdateErrors(u) != [] ==>
              r == Exchange(s, ServerFailure(ValidationError(UpdateErrors(u))))
    ensures fault.None? && UpdateErrors(u) == [] && id !in s.tasks ==>
              r == Exchange(s, Reply(404, TaskNotFound))
    ensures r.response.status == 200 <==> fault.None? && UpdateErrors(u) == [] && id in s.tasks
    ensures r.response.status != 200 ==> r.store == s
    ensures r.response.status == 200 ==>
              && id in s.tasks
              && r.response.body.TaskDoc?
              && var prev := s.tasks[id];
              && var t := r.response.body.task;
              && r.store == s.(tasks := s.tasks[id := t])
              && t.id == prev.id && t.description == prev.description
              && t.assignee == prev.assignee && t.createdAt == prev.createdAt
              && t.updatedAt == now
              && t.title == (if u.title.Some? then Text.Trim(u.title.value) else prev.title)
              && t.status == (if u.status.Some? then ParseTaskStatus(u.status.value).value else prev.status)
              && t.priority == (if u.priority.Some? then ParsePriority(u.priority.value).value else prev.priority)
              && t.deadline == u.deadline.GetOr(prev.deadline)
              && t.projectId == u.projectId.GetOr(prev.projectId)
  {
    if fault.Some? then Exchange(s, ServerFailure(DbError(fault.value)))
    else if UpdateErrors(u) != [] then Exchange(s, ServerFailure(ValidationError(UpdateErrors(u))))
    else if id !in s.tasks then Exchange(s, Reply(404, TaskNotFound))
    else
      var t := ApplyTaskUpdate(s.tasks[id], u, now);
      Exchange(s.(tasks := s.tasks[id := t]), Response(200, TaskDoc(t)))
  }

  /** Sending the same update twice leaves the task as the first send did,
      apart from the `updatedAt` stamp. */
  lemma UpdateTaskIdempotent(s: Store, id: Id, u: TaskUpdate, now1: int, now2: int)
    requires id in s.tasks && UpdateErrors(u) == []
    ensures var r1 := UpdateTask(s, id, u, now1, None);
            var r2 := UpdateTask(r1.store, id, u, now2, None);
            && r2.response.status == 200
            && r2.response.body.task == r1.response.body.task.(updatedAt := now2)
  {
    var r1 := UpdateTask(s, id, u, now1, None);
    ApplyTaskUpdateIdempotent(s.tasks[id], u, now1, now2);
    assert r1.store.tasks[id] == r1.response.body.task;
  }

  /** `deleteTask`: remove the task, or 404 if no task has the id. */
  function DeleteTask(s: Store, id: Id, fault: Option<string>): (r: Exchange)
    ensures fault.Some? ==> r == Exchange(s, ServerFailure(DbError(fault.value)))
    ensures fault.None? && id !in s.tasks ==> r == Exchange(s, Reply(404, TaskNotFound))
    ensures fault.None? && id in s.tasks ==>
              && r.response == Reply(200, TaskDeleted)
              && r.store == s.(tasks := s.tasks - {id})
              && id !in r.store.tasks
              && |r.store.tasks| == |s.tasks| - 1
  {
    if fault.Some? then Exchange(s, ServerFailure(DbError(fault.value)))
    else if id !in s.tasks then Exchange(s, Reply(404, TaskNotFound))
    else Exchange(s.(tasks := s.tasks - {id}), Reply(200, TaskDeleted))
  }

  /** Deleting the same task twice: the second attempt is a 404 and changes
      nothing. */
  lemma DeleteTaskTwice(s: Store, id: Id)
    requires id in s.tasks
    ensures var r1 := DeleteTask(s, id, None);
            var r2 := DeleteTask(r1.store, id, None);
            && r1.response.status == 200
            && r2 == Exchange(r1.store, Reply(404, TaskNotFound))
  {}

  /** Updating and deleting tasks keep the store valid. */
  lemma TaskWritesPreserveValid(s: Store, id: Id, u: TaskUpdate, now: int, fault: Option<string>)
    requires Valid(s)
    ensures Valid(UpdateTask(s, id, u, now, fault).store)
    ensures Valid(DeleteTask(s, id, fault).store)
  {
    var r := UpdateTask(s, id, u, now, fault);
    if r.response.status == 200 {
      assert WellFormedTask(s.tasks[id]);
    }
  }
}
