/** An optional value: `None` stands for a field that is absent (`undefined`). */
module Options {
  datatype Option<T> = None | Some(value: T) {
    function GetOr(default: T): T {
      match this
      case Some(v) => v
      case None => default
    }
  }
}

/**
  The Mongoose schemas of backend/src/models: the enumerations, the defaults
  and the `required`/`trim`/`enum` validators applied when a document is
  built, and the record each collection stores.
 */
module Schema {
  import opened Options
  import Text

  /** A document identifier (an ObjectId, kept abstract). */
  type Id = nat

  datatype TaskStatus = Todo | InProgress | Done
  datatype Priority = Low | Medium | High
  datatype ProjectStatus = Planning | Active | Completed | OnHold

  const DefaultTaskStatus: TaskStatus := Todo
  const DefaultPriority: Priority := Medium
  const DefaultProjectStatus: ProjectStatus := Planning
  const DefaultDescription: string := ""

  function TaskStatusName(s: TaskStatus): string {
    match s
    case Todo => "todo"
    case InProgress => "in-progress"
    case Done => "done"
  }

  function PriorityName(p: Priority): string {
    match p
    case Low => "low"
    case Medium => "medium"
    case High => "high"
  }

  function ProjectStatusName(s: ProjectStatus): string {
    match s
    case Planning => "planning"
    case Active => "active"
    case Completed => "completed"
    case OnHold => "on-hold"
  }

  /** The `enum` validator of the task `status` path. */
  function ParseTaskStatus(v: string): (r: Option<TaskStatus>)
    ensures r.Some? ==> TaskStatusName(r.value) == v
    ensures r.None? ==> forall s: TaskStatus :: TaskStatusName(s) != v
  {
    if v == "todo" then Some(Todo)
    else if v == "in-progress" then Some(InProgress)
    else if v == "done" then Some(Done)
    else None
  }

  /** The `enum` validator of the task `priority` path. */
  function ParsePriority(v: string): (r: Option<Priority>)
    ensures r.Some? ==> PriorityName(r.value) == v
    ensures r.None? ==> forall p: Priority :: PriorityName(p) != v
  {
    if v == "low" then Some(Low)
    else if v == "medium" then Some(Medium)
    else if v == "high" then Some(High)
    else None
  }

  /** The `enum` validator of the project `status` path. */
  function ParseProjectStatus(v: string): (r: Option<ProjectStatus>)
    ensures r.Some? ==> ProjectStatusName(r.value) == v
    ensures r.None? ==> forall s: ProjectStatus :: ProjectStatusName(s) != v
  {
    if v == "planning" then Some(Planning)
    else if v == "active" then Some(Active)
    else if v == "completed" then Some(Completed)
    else if v == "on-hold" then Some(OnHold)
    else None
  }

  /** Every enumeration value is accepted by its validator and read back as
      itself, so the stored names and the enumerations are in one-to-one
      correspondence. */
  lemma EnumRoundTrip(s: TaskStatus, p: Priority, ps: ProjectStatus)
    ensures ParseTaskStatus(TaskStatusName(s)) == Some(s)
    ensures ParsePriority(PriorityName(p)) == Some(p)
    ensures ParseProjectStatus(ProjectStatusName(ps)) == Some(ps)
  {}

  datatype User = User(id: Id, name: string, email: string, passwordHash: string,
                       createdAt: int, updatedAt: int)

  datatype Project = Project(id: Id, name: string, description: string,
                             startDate: int, endDate: Option<int>, status: ProjectStatus,
                             createdAt: int, updatedAt: int)

  datatype Task = Task(id: Id, title: string, description: string,
                       status: TaskStatus, priority: Priority, deadline: int,
                       projectId: Id, assignee: Option<Id>,
                       createdAt: int, updatedAt: int)

  function TaskCreated(t: Task): int { t.createdAt }
  function ProjectCreated(p: Project): int { p.createdAt }

  /** One failed validator, named by the path it guards. */
  datatype FieldError = Required(path: string) | NotInEnum(path: string, value: string)

  datatype Built<T> = Ok(value: T) | Invalid(errors: seq<FieldError>)

  /** A `required: true, trim: true` string path: present and not blank
      once trimmed. */
  predicate RequiredText(v: Option<string>) {
    v.Some? && Text.Trim(v.value) != ""
  }

  /** A `required: true` string path without trimming. */
  predicate RequiredRaw(v: Option<string>) {
    v.Some? && v.value != ""
  }

  function RequiredError(ok: bool, path: string): seq<FieldError> {
    if ok then [] else [Required(path)]
  }

  function EnumError(v: Option<string>, known: bool, path: string): seq<FieldError> {
    if v.None? || known then [] else [NotInEnum(path, v.value)]
  }

  /** The fields handed to `new Task(...)`; `None` is an absent field. */
  datatype TaskInput = TaskInput(title: Option<string>, description: Option<string>,
                                 status: Option<string>, priority: Option<string>,
                                 deadline: Option<int>, projectId: Option<Id>,
                                 assignee: Option<Id>)

  /** The validation errors of a new task, in schema path order. */
  function TaskErrors(input: TaskInput): (r: seq<FieldError>)
    ensures r == [] <==>
      && RequiredText(input.title)
      && (input.status.Some? ==> ParseTaskStatus(input.status.value).Some?)
      && (input.priority.Some? ==> ParsePriority(input.priority.value).Some?)
      && input.deadline.Some?
      && input.projectId.Some?
  {
    RequiredError(RequiredText(input.title), "title")
    + EnumError(input.status, input.status.Some? && ParseTaskStatus(input.status.value).Some?, "status")
    + EnumError(input.priority, input.priority.Some? && ParsePriority(input.priority.value).Some?, "priority")
    + RequiredError(input.deadline.Some?, "deadline")
    + RequiredError(input.projectId.Some?, "projectId")
  }

  /** A task record the schema can hold: its title is trimmed and not blank. */
  predicate WellFormedTask(t: Task) {
    t.title != "" && Text.Trimmed(t.title)
  }

  /** Builds and validates a task document as `new Task(input).save()` does
      at time `now`, applying the schema defaults to absent fields. */
  function BuildTask(input: TaskInput, id: Id, now: int): (r: Built<Task>)
    ensures r.Ok? <==> TaskErrors(input) == []
    ensures r.Invalid? ==> |r.errors| > 0
    ensures r.Invalid? ==> r.errors == TaskErrors(input)
    ensures r.Ok? ==>
      && WellFormedTask(r.value)
      && r.value.id == id && r.value.createdAt == now && r.value.updatedAt == now
      && r.value.title == Text.Trim(input.title.value)
      && r.value.description == input.description.GetOr(DefaultDescription)
      && r.value.status == (if input.status.Some? then ParseTaskStatus(input.status.value).value else DefaultTaskStatus)
      && r.value.priority == (if input.priority.Some? then ParsePriority(input.priority.value).value else DefaultPriority)
      && Some(r.value.deadline) == input.deadline
      && Some(r.value.projectId) == input.projectId
      && r.value.assignee == input.assignee
  {
    var errors := TaskErrors(input);
    if errors != [] then Invalid(errors)
    else
      var title := Text.Trim(input.title.value);
      Ok(Task(id, title,
              input.description.GetOr(DefaultDescription),
              if input.status.Some? then ParseTaskStatus(input.status.value).value else DefaultTaskStatus,
              if input.priority.Some? then ParsePriority(input.priority.value).value else DefaultPriority,
              input.deadline.value, input.projectId.value, input.assignee,
              now, now))
  }

  /** The fields of an update document; absent fields are stripped and
      leave the stored value alone. */
  datatype TaskUpdate = TaskUpdate(title: Option<string>, status: Option<string>,
                                   priority: Option<string>, deadline: Option<int>,
                                   projectId: Option<Id>)

  /** The update validators (`runValidators: true`): they run only on the
      paths the update sets. */
  function UpdateErrors(u: TaskUpdate): (r: seq<FieldError>)
    ensures r == [] <==>
      && (u.title.Some? ==> RequiredText(u.title))
      && (u.status.Some? ==> ParseTaskStatus(u.status.value).Some?)
      && (u.priority.Some? ==> ParsePriority(u.priority.value).Some?)
  {
    RequiredError(u.title.None? || RequiredText(u.title), "title")
    + EnumError(u.status, u.status.Some? && ParseTaskStatus(u.status.value).Some?, "status")
    + EnumError(u.priority, u.priority.Some? && ParsePriority(u.priority.value).Some?, "priority")
  }

  /** The value a `required: true, trim: true` path holds after an update
      that may or may not set it. */
  function UpdatedText(current: string, v: Option<string>): (r: string)
    requires v.Some? ==> RequiredText(v)
    ensures r == if v.Some? then Text.Trim(v.value) else current
    ensures (v.Some? || (current != "" && Text.Trimmed(current))) ==>
              r != "" && Text.Trimmed(r)
  {
    if v.Some? then Text.Trim(v.value) else current
  }

  /** The document `findByIdAndUpdate(..., { new: true })` returns. */
  function ApplyTaskUpdate(t: Task, u: TaskUpdate, now: int): (r: Task)
    requires UpdateErrors(u) == []
    ensures WellFormedTask(t) ==> WellFormedTask(r)
    ensures r.id == t.id && r.description == t.description && r.assignee == t.assignee
    ensures r.createdAt == t.createdAt && r.updatedAt == now
    ensures r.title == if u.title.Some? then Text.Trim(u.title.value) else t.title
    ensures r.status == if u.status.Some? then ParseTaskStatus(u.status.value).value else t.status
    ensures r.priority == if u.priority.Some? then ParsePriority(u.priority.value).value else t.priority
    ensures r.deadline == u.deadline.GetOr(t.deadline)
    ensures r.projectId == u.projectId.GetOr(t.projectId)
  {
    t.(title := UpdatedText(t.title, u.title),
       status := if u.status.Some? then ParseTaskStatus(u.status.value).value else t.status,
       priority := if u.priority.Some? then ParsePriority(u.priority.value).value else t.priority,
       deadline := u.deadline.GetOr(t.deadline),
       projectId := u.projectId.GetOr(t.projectId),
       updatedAt := now)
  }

  /** Applying the same update a second time changes only `updatedAt`. */
  lemma ApplyTaskUpdateIdempotent(t: Task, u: TaskUpdate, now1: int, now2: int)
    requires UpdateErrors(u) == []
    ensures ApplyTaskUpdate(ApplyTaskUpdate(t, u, now1), u, now2)
         == ApplyTaskUpdate(t, u, now1).(updatedAt := now2)
  {
    if u.title.Some? {
      Text.TrimIdempotent(u.title.value);
    }
  }

  /** The fields handed to `new Project(...)`. */
  datatype ProjectInput = ProjectInput(name: Option<string>, description: Option<string>,
                                       startDate: Option<int>, endDate: Option<int>,
                                       status: Option<string>)

  /** The validation errors of a new project, in schema path order. */
  function ProjectErrors(input: ProjectInput): (r: seq<FieldError>)
    ensures r == [] <==>
      && RequiredText(input.name)
      && RequiredRaw(input.description)
      && (input.status.Some? ==> ParseProjectStatus(input.status.value).Some?)
  {
    RequiredError(RequiredText(input.name), "name")
    + RequiredError(RequiredRaw(input.description), "description")
    + EnumError(input.status, input.status.Some? && ParseProjectStatus(input.status.value).Some?, "status")
  }

  /** A project record the schema can hold: a trimmed, non-blank name and a
      non-empty description. */
  predicate WellFormedProject(p: Project) {
    p.name != "" && Text.Trimmed(p.name) && p.description != ""
  }

  /** Builds and validates a project document as `new Project(input).save()`
      does at time `now`: `startDate` defaults to `now`, `endDate` has no
      default, `status` defaults to planning. */
  function BuildProject(input: ProjectInput, id: Id, now: int): (r: Built<Project>)
    ensures r.Ok? <==> ProjectErrors(input) == []
    ensures r.Invalid? ==> |r.errors| > 0
    ensures r.Invalid? ==> r.errors == ProjectErrors(input)
    ensures r.Ok? ==>
      && WellFormedProject(r.value)
      && r.value.id == id && r.value.createdAt == now && r.value.updatedAt == now
      && r.value.name == Text.Trim(input.name.value)
      && Some(r.value.description) == input.description
      && r.value.startDate == input.startDate.GetOr(now)
      && r.value.endDate == input.endDate
      && r.value.status == (if input.status.Some? then ParseProjectStatus(input.status.value).value else DefaultProjectStatus)
  {
    var errors := ProjectErrors(input);
    if errors != [] then Invalid(errors)
    else
      Ok(Project(id, Text.Trim(input.name.value), input.description.value,
                 input.startDate.GetOr(now), input.endDate,
                 if input.status.Some? then ParseProjectStatus(input.status.value).value else DefaultProjectStatus,
                 now, now))
  }
}
