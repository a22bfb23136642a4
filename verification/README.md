# SVARAAI task manager: a Dafny model of its controllers and list logic

This project models the request handlers of the SVARAAI task manager and two
pieces of its React frontend. The backend is Express with Mongoose. The
database becomes three finite maps from document id to record (users,
projects, tasks), plus the id the next saved document receives. Each handler
is a pure function from a store and a request to an `Exchange`: the store as
the handler leaves it, an HTTP status and a JSON body.

- `seqs.dfy` (module `Seqs`): the cursor operations `sort({createdAt: -1})`,
  `skip`, `limit`, and `Math.ceil(total / limit)`.
- `text.dfy` (module `Text`): JavaScript `String.prototype.trim`, which the
  schemas' `trim: true` applies.
- `schema.dfy` (modules `Options`, `Schema`): the Task and Project schemas.
  This covers the enumerations, defaults and `required`/`trim`/`enum`
  validators, building a document, and applying an update document.
- `store.dfy` (module `Db`): the store, its validity invariant, the
  collection listings and inserts.
- `http.dfy` (module `Http`): responses and the shared `catch` block.
- `task_controller.dfy`, `project_controller.dfy`, `user_controller.dfy`,
  `auth_controller.dfy`: the four controllers.
- `task_card.dfy` (module `TaskCard`): the status buttons and priority
  colours of a task card.
- `projects_page.dfy` (module `ProjectsPage`): how the projects page updates
  its list after a create or a delete.

Things outside the handler's control are parameters:
- The clock `now` (milliseconds).
- The random salt of password hashing.
- Whether a database call throws: `fault: Option<string>`. `Some(message)`
  makes the handler answer 500 `{message: "Server error", error: message}`
  (`Http.ServerFailure`, the `catch` block every handler shares) and change
  nothing.
- Password hashing, password comparison and token signing: the
  uninterpreted function fields of `AuthController.Crypto`.

The model follows the handlers as written, including where the repository's
own tests and routes expect more:
- **Validation failures answer 500.** A document that fails its schema's
  validators throws inside the handler's `try`, and every `catch` answers
  500; no handler answers 400 for a bad field.
- **`deleteProject` does not cascade.** It deletes only the project. The
  test at backend/src/__tests__/project.controller.test.ts lines 188-200
  expects `Task.deleteMany({ projectId })` as well (line 198).
  `ProjectController.DeleteProjectOrphansTasks` proves that a deleted
  project's tasks stay behind, still naming the project.
- **`getProjects` is not paginated.** It returns a plain array of every
  project, while the test at
  backend/src/__tests__/project.controller.test.ts lines 114-137 mocks
  `find().sort().skip().limit()` and `countDocuments` and expects a
  pagination block.
- **Creating a task does not check the deadline.** Any deadline is
  accepted, and the assignee is never looked up.

Validity of the store (`Db.Valid`):
- Every record sits under its own id, and that id is below `nextId`.
- Every task and project passed its schema's validators.
- No two users share an email.

Every handler keeps validity (`CreateTaskAddsOne`, `TaskWritesPreserveValid`,
`CreateProjectAddsOne`, `DeleteProjectPreservesValid`, `RegisterAddsOne`).

## Model

| member | source | states |
|---|---|---|
| Seqs.SortDesc | backend/src/controllers/task.controller.ts:55 | the sorted sequence has the same elements with the same multiplicities, ordered by `createdAt`, newest first |
| Seqs.SortDescMembers | backend/src/controllers/task.controller.ts:55 | sorting neither drops nor invents an element |
| Seqs.InsertDesc | backend/src/controllers/task.controller.ts:55 | inserting into a sorted sequence keeps it sorted and adds exactly the one element |
| Seqs.Window | backend/src/controllers/task.controller.ts:52-57 | `skip(n).limit(l)` yields at most `l` elements: exactly `min(l, len - n)` of them, each the element `n` places further on, or none once `n` runs past the end |
| Seqs.WindowKeepsOrder | backend/src/controllers/task.controller.ts:54-57 | a window of a sorted sequence is sorted |
| Seqs.CeilDiv | backend/src/controllers/task.controller.ts:65 | `ceil(n / d)` is the least page count whose pages hold all `n` items; it is 0 exactly when `n` is 0 |
| Seqs.PageNonEmptyIff | backend/src/controllers/task.controller.ts:52-65 | page `p` is non-empty exactly when `p` is at most the reported `totalPages` |
| Seqs.ElementOnPage | backend/src/controllers/task.controller.ts:52-65 | element `i` is entry `i % limit` of page `i / limit + 1`, and that page is within `totalPages` |
| Seqs.StrictMaxFirst | backend/src/controllers/task.controller.ts:55 | in a newest-first order, an element strictly newer than all others comes first |
| Text.LeadingWhitespace | backend/src/models/Task.ts:16-20 | counts the whitespace the value starts with: every character before the count is whitespace and the one at the count is not |
| Text.TrailingWhitespace | backend/src/models/Task.ts:16-20 | counts the whitespace the value ends with: every character after the cut is whitespace and the one before it is not |
| Text.TrimEndIndex | backend/src/models/Task.ts:16-20 | the trimmed value ends where only whitespace follows, and its last character is not whitespace unless nothing is kept |
| Text.Trim | backend/src/models/Task.ts:16-20 | the trimmed value is an infix cut out of a whitespace-only prefix and suffix, and neither starts nor ends with whitespace |
| Text.TrimEmptyIff | backend/src/models/Task.ts:16-20 | trimming yields the empty string exactly when the input is all whitespace, which is when `required` rejects it |
| Text.TrimIdempotent | backend/src/models/Project.ts:14-18 | trimming a stored (already trimmed) value changes nothing |
| Text.TrimmedIsFixed | backend/src/models/Project.ts:14-18 | a value with no leading or trailing whitespace is its own trim |
| Schema.ParseTaskStatus | backend/src/models/Task.ts:25-29 | the status validator accepts exactly the names todo, in-progress and done |
| Schema.ParsePriority | backend/src/models/Task.ts:30-34 | the priority validator accepts exactly low, medium and high |
| Schema.ParseProjectStatus | backend/src/models/Project.ts:30-34 | the project status validator accepts exactly planning, active, completed and on-hold |
| Schema.EnumRoundTrip | backend/src/models/Task.ts:25-34 | each enumeration value is accepted by its validator and read back as itself |
| Schema.TaskErrors | backend/src/models/Task.ts:15-48 | a new task has no validation error exactly when its title is non-blank after trimming, status and priority are in their enums when given, and deadline and projectId are present |
| Schema.BuildTask | backend/src/models/Task.ts:15-51 | a task is built exactly when it has no validation error; the built task has a trimmed title, description defaulting to "", status defaulting to todo, priority defaulting to medium, assignee as given (null by default) and both timestamps set to now |
| Schema.UpdateErrors | backend/src/controllers/task.controller.ts:80-84 | with `runValidators`, an update fails exactly when a field it sets breaks that field's validator; absent fields are not validated |
| Schema.UpdatedText | backend/src/models/Task.ts:16-20 | a trimmed required path updated with a valid value, or left alone, stays non-blank and trimmed |
| Schema.ApplyTaskUpdate | backend/src/controllers/task.controller.ts:80-84 | the updated task takes each of title, status, priority, deadline and projectId from the update when given and keeps it otherwise; id, description, assignee and createdAt never change; updatedAt becomes now; a well-formed task stays well-formed |
| Schema.ApplyTaskUpdateIdempotent | backend/src/controllers/task.controller.ts:80-84 | applying the same update twice changes only `updatedAt` |
| Schema.ProjectErrors | backend/src/models/Project.ts:13-34 | a new project has no validation error exactly when its name is non-blank after trimming, its description is non-empty, and its status is in the enum when given |
| Schema.BuildProject | backend/src/models/Project.ts:13-37 | a project is built exactly when it has no validation error; it has a trimmed name, startDate defaulting to now, endDate only if given, status defaulting to planning, and both timestamps set to now |
| Db.FreshKey | backend/src/controllers/task.controller.ts:15-16 | saving under an unused id adds exactly that key |
| Db.InsertTaskValid | backend/src/controllers/task.controller.ts:15-16 | `Db.InsertTask` (`new Task(...).save()`) of a well-formed task under the fresh id keeps the store valid and adds exactly one task |
| Db.InsertProjectValid | backend/src/controllers/project.controller.ts:8-9 | `Db.InsertProject` (`project.save()`) of a well-formed project under the fresh id keeps the store valid and adds exactly one project |
| Db.InsertUserValid | backend/src/controllers/auth.controller.ts:16-17 | `Db.InsertUser` (`user.save()`) of a user with an unused email under the fresh id keeps emails unique and adds exactly one user |
| Db.AllTasksExactly | backend/src/controllers/task.controller.ts:54 | `Db.AllTasks`, the task collection as `find` scans it, yields exactly the stored tasks |
| Db.AllProjectsExactly | backend/src/controllers/project.controller.ts:20 | `Db.AllProjects`, the project collection as `find()` scans it, yields each stored project once |
| Db.AllUsersExactly | backend/src/controllers/user.controller.ts:6 | `Db.AllUsers`, the user collection as `find()` scans it, yields each stored user once |
| Db.DistinctKeysCount | backend/src/controllers/user.controller.ts:6 | a duplicate-free listing of all ids is as long as the collection |
| Db.IdsDesc | backend/src/controllers/task.controller.ts:54 | the model's stand-in for the unspecified order in which `find` scans a collection (it only decides ties left by the sort): every stored id below `nextId`, each once, newest id first |
| Db.IdsAsc | backend/src/controllers/auth.controller.ts:10 | the order in which `findOne` scans the users: every stored id below `nextId`, each once, oldest id first |
| Db.Lookup | backend/src/controllers/task.controller.ts:54 | the documents under a sequence of ids, in that order, each a stored record |
| TaskController.CreateTask | backend/src/controllers/task.controller.ts:5-23 | 500 (`Http.ServerFailure`, the `catch` block of lines 20-22) on a database error; 404 "Project not found", store unchanged, when the project does not resolve; 500 with the validation errors when it resolves but the picked fields fail; 201 exactly when the project resolves and the picked fields pass validation; on 201 the task is saved under the fresh id with the defaults for description and assignee |
| TaskController.CreateTaskIgnoresUnpickedFields | backend/src/controllers/task.controller.ts:7-15 | `TaskController.Picked` keeps only the destructured fields: the description and assignee a client sends make no difference to the answer or the store |
| TaskController.CreateTaskAddsOne | backend/src/controllers/task.controller.ts:15-18 | a successful create adds exactly one task under a previously unused id and keeps the store valid |
| TaskController.FilterMeansWanted | backend/src/controllers/task.controller.ts:31-49 | the filter object `TaskController.BuildFilter` assembles, as the database matches it (`TaskController.Satisfies`), accepts a task exactly when it is in the project, matches status and priority when these are supplied (non-empty), and has its deadline within whichever bounds are supplied |
| TaskController.Select | backend/src/controllers/task.controller.ts:54 | `find(filter)` keeps exactly the documents the filter matches |
| TaskController.OrderedAreWanted | backend/src/controllers/task.controller.ts:54-55 | every task of the sorted, filtered listing is stored and wanted by the query |
| TaskController.Paginate | backend/src/controllers/task.controller.ts:52-67 | the page has at most `limit` tasks, stays sorted, comes from the ordered listing, and reports `currentPage = page`, `totalTasks = total` and `totalPages = ceil(total / limit)` |
| TaskController.GetTasksByProject | backend/src/controllers/task.controller.ts:25-73 | 500 on a database error; otherwise 200 with at most `limit` tasks, newest first, each stored and wanted by the query, with the pagination block's arithmetic |
| TaskController.SelectCount | backend/src/controllers/task.controller.ts:59 | the number of documents `find(filter)` returns equals the number of ids whose task matches, which is what `countDocuments(filter)` counts |
| TaskController.WantedCount | backend/src/controllers/task.controller.ts:59-66 | `totalTasks` counts every stored task the query wants, not only the page |
| TaskController.OrderedExactly | backend/src/controllers/task.controller.ts:54-55 | `TaskController.Ordered`, the filtered and sorted listing, holds exactly the stored tasks the query wants |
| TaskController.PageIsWindowOfWanted | backend/src/controllers/task.controller.ts:52-67 | the page is positions `[(page-1)*limit, (page-1)*limit+limit)` of all wanted tasks sorted newest first, and `totalTasks` is the number of wanted tasks |
| TaskController.DefaultPaginationOfTwo | backend/src/controllers/task.controller.ts:28-67 | with the default query and two tasks in the project, the pagination block is `{1, 1, 2}` |
| TaskController.NewestListedFirst | backend/src/controllers/task.controller.ts:54-57 | a wanted task created after every other stored task heads page 1 |
| TaskController.NewTaskListedFirst | backend/src/controllers/task.controller.ts:15-57 | with a clock that moves forward, a task just created heads page 1 of its project's listing whenever the query wants it |
| TaskController.UpdateTask | backend/src/controllers/task.controller.ts:75-95 | 500 on a database error or a failed update validator; 404 "Task not found", store unchanged, for an unknown id; 200 exactly when there is no database error, the update passes its validators and the id is stored; then the five fields are written as given, everything else is kept, and the new document is returned |
| TaskController.UpdateTaskIdempotent | backend/src/controllers/task.controller.ts:80-90 | sending the same update twice yields the first result apart from `updatedAt` |
| TaskController.DeleteTask | backend/src/controllers/task.controller.ts:97-112 | 500 on a database error; 404 "Task not found" for an unknown id; otherwise exactly that task is removed and "Task deleted successfully" is answered |
| TaskController.DeleteTaskTwice | backend/src/controllers/task.controller.ts:101-105 | a second delete of the same id is a 404 that changes nothing |
| TaskController.TaskWritesPreserveValid | backend/src/controllers/task.controller.ts:75-112 | updating and deleting keep the store valid |
| ProjectController.CreateProject | backend/src/controllers/project.controller.ts:4-16 | 500 on a database error or a failed validator; 201 exactly when name and description pass; the saved project has status planning, startDate now and no endDate |
| ProjectController.CreateProjectIgnoresUnpickedFields | backend/src/controllers/project.controller.ts:6-8 | `ProjectController.Picked` keeps only name and description: the startDate, endDate and status a client sends make no difference |
| ProjectController.CreateProjectAddsOne | backend/src/controllers/project.controller.ts:8-11 | a successful create adds exactly one project under an unused id, leaves the tasks alone and keeps the store valid |
| ProjectController.GetProjects | backend/src/controllers/project.controller.ts:18-26 | 500 on a database error; otherwise 200 with a plain list, newest first, holding the same projects as the collection |
| ProjectController.GetProjectsExactly | backend/src/controllers/project.controller.ts:20-21 | the list holds every stored project exactly once and nothing else |
| ProjectController.DeleteProject | backend/src/controllers/project.controller.ts:28-43 | 500 on a database error; 404 "Project not found" for an unknown id; otherwise only that project is removed; tasks and users are never touched |
| ProjectController.DeleteProjectOrphansTasks | backend/src/controllers/project.controller.ts:28-43 | a task of a deleted project survives and names a project that no longer exists |
| ProjectController.DeleteProjectTwice | backend/src/controllers/project.controller.ts:32-36 | a second delete of the same id is a 404 that changes nothing |
| ProjectController.DeleteProjectPreservesValid | backend/src/controllers/project.controller.ts:32 | deleting a project keeps the store valid |
| UserController.PublicAll | backend/src/controllers/user.controller.ts:6 | the projection `'name email'` keeps one entry per user, in order |
| UserController.GetAllUsers | backend/src/controllers/user.controller.ts:4-15 | 500 on a database error; otherwise 200 with one projected entry per user, and the store unchanged |
| UserController.GetAllUsersExactly | backend/src/controllers/user.controller.ts:6-10 | the listing shows every stored user once as id, name and email, and nothing else |
| UserController.ListedUsersComplete | backend/src/controllers/user.controller.ts:6-10 | every stored user's projection is listed |
| UserController.ListedUsersStored | backend/src/controllers/user.controller.ts:6-10 | every listed entry is the projection of a stored user |
| UserController.GetUserById | backend/src/controllers/user.controller.ts:17-31 | 500 on a database error; 404 "User not found" for an unknown id; 200 exactly for a known id, with that user's id, name and email |
| UserController.GetUserByIdAgreesWithListing | backend/src/controllers/user.controller.ts:17-26 | the user found by id is one the listing shows, and an id the listing does not show is a 404 |
| AuthController.Claims | backend/src/controllers/auth.controller.ts:20-24 | a token carries the user id, an issue time in whole seconds, and an expiry seven days later |
| AuthController.FindIn | backend/src/controllers/auth.controller.ts:10 | the scan finds an id whose user has the email, or finds none when no user in the scan has it |
| AuthController.FindByEmail | backend/src/controllers/auth.controller.ts:10 | `findOne({email})` finds a stored user with the email, or none when no stored user has it |
| AuthController.FindByEmailUnique | backend/src/controllers/auth.controller.ts:45 | with unique emails, the lookup finds the one user with that email |
| AuthController.Register | backend/src/controllers/auth.controller.ts:5-38 | 500 on a database error; 400 "User already exists", store unchanged, when the email is taken; 201 exactly when there is no database error and no user has the email, with a token for the new id and `{id, name, email}`, and the user saved with the hashed password |
| AuthController.RegisterAddsOne | backend/src/controllers/auth.controller.ts:16-17 | registering adds exactly one user, keeps emails unique and leaves projects and tasks alone |
| AuthController.RegisterTwice | backend/src/controllers/auth.controller.ts:10-13 | registering a free email succeeds, and a second registration with the same email is refused and creates no user |
| AuthController.Login | backend/src/controllers/auth.controller.ts:40-75 | never changes the store; 200 exactly when a user has the email and the password matches, with a token for that user and its `{id, name, email}`; without a database error every other answer, for an unknown email or a wrong password alike, is 400 "Invalid credentials" |
| AuthController.LoginFailuresIndistinguishable | backend/src/controllers/auth.controller.ts:45-54 | an unknown email and a wrong password get the very same answer |
| AuthController.RegisterThenLogin | backend/src/controllers/auth.controller.ts:45-61 | after registering, logging in with the same email and password opens a session for the new user |
| AuthController.Logout | backend/src/controllers/auth.controller.ts:77-85 | logout always answers 200 "Logged out successfully" and changes nothing |
| AuthController.LoginUnaffectedByLogout | backend/src/controllers/auth.controller.ts:77-85 | every login answers after a logout exactly as before it; the token is not revoked |
| TaskCard.StatusActions | svara-ai-task-management/src/components/TaskCard.tsx:35-75 | a card offers buttons exactly when its status is one of the three names, and at most two |
| TaskCard.OffersAdjacentColumns | svara-ai-task-management/src/components/TaskCard.tsx:35-75 | a button moves a task from one status to another exactly when the two are adjacent columns: todo to in-progress, in-progress to todo or done, done to in-progress |
| TaskCard.MoveShape | svara-ai-task-management/src/components/TaskCard.tsx:35-75 | no button keeps the status, todo and done are never one click apart, and every move can be undone in one click |
| TaskCard.ReachableInTwo | svara-ai-task-management/src/components/TaskCard.tsx:35-75 | every status reaches every other in at most two clicks |
| TaskCard.PriorityColor | svara-ai-task-management/src/components/TaskCard.tsx:26-33 | a value gets the gray default exactly when it is not one of the three priorities |
| TaskCard.PriorityColorsDistinct | svara-ai-task-management/src/components/TaskCard.tsx:26-33 | high, medium and low get three different colours |
| ProjectsPage.HandleCreateProject | svara-ai-task-management/src/app/projects/page.tsx:54-77 | on an ok answer the new project is at index 0 with the old list after it, the form is empty and the modal is closed; otherwise nothing changes |
| ProjectsPage.RemoveById | svara-ai-task-management/src/app/projects/page.tsx:92 | the filter keeps exactly the projects whose id differs |
| ProjectsPage.HandleDeleteProject | svara-ai-task-management/src/app/projects/page.tsx:79-97 | without confirmation or an ok answer nothing changes; after an ok answer no project has the id, every other project remains, and nothing new appears |
| ProjectsPage.RemoveByIdSplits | svara-ai-task-management/src/app/projects/page.tsx:92 | filtering a concatenation filters each part in place |
| ProjectsPage.RemoveByIdKeepsOrder | svara-ai-task-management/src/app/projects/page.tsx:92 | two surviving projects keep their relative order |
| ProjectsPage.RemoveByIdAbsent | svara-ai-task-management/src/app/projects/page.tsx:92 | a list in which no project has the id is left as it is |
| ProjectsPage.RemoveByIdIdempotent | svara-ai-task-management/src/app/projects/page.tsx:91-92 | deleting the same id twice leaves the list as the first delete did |
| ProjectsPage.CreateThenDelete | svara-ai-task-management/src/app/projects/page.tsx:68-92 | creating a project and deleting its id restores the earlier list |

## Left out

- Mongoose internals are not modelled: ObjectId casting, `populate`, and the query engine. `find`, `sort`, `skip`, `limit` and `countDocuments` become sequence operations over the maps. A malformed id that makes Mongoose throw is covered by the `fault` parameter.
- The driver's order among tasks with equal `createdAt` is unspecified. The model breaks such ties newest id first.
- Query-string coercion is not modelled: `Number(page)`, `Number(limit)` and `new Date(...)`. Dates arrive as integers. `page` and `limit` arrive as naturals of at least 1 (`TaskController.ValidPaging`), because 0 would give a negative skip or a division by zero.
- An empty `status` or `priority` query value counts as absent (JavaScript truthiness). An empty `startDate` or `endDate` is not distinguished from a date.
- JSON `null` and wrong-typed body fields are not modelled. An absent body field is `None`.
- Update documents are modelled with `undefined` keys stripped, so an absent field leaves the stored value alone. Casting errors on update are not modelled.
- backend/src/models/User.ts is not part of this model. Its validators, its pre-save password hook and `comparePassword` are absent. The stored hash is `Crypto.hash(password, salt)`, comparison is `Crypto.matches`, and saving a user is assumed to pass validation.
- JWT signing, the secret and password hashing are uninterpreted functions. The auth middleware is not modelled.
- AuthController.FindByEmail: the "no user has the email" case is stated for ids below `nextId`. On a valid store that is every id.
- Features that appear only in the repository's tests or routes have no handler in the modelled source: `assignTask` and `getTasksByAssignee` (backend/src/__tests__/task.assign.controller.test.ts), `updateProject` (backend/src/routes/project.routes.ts lines 2 and 9), the cascade delete (backend/src/__tests__/project.controller.test.ts lines 188-200) and the paginated `getProjects` (the same file, lines 114-137).
- server.ts and the route files are not modelled. server.ts mounts no user routes, so the user controller is not reachable over HTTP as written.
- Concurrency is not modelled: consecutive database calls are not atomic (for example `find` and then `countDocuments`). Each handler is modelled as one atomic step.
- Frontend plumbing is not modelled: `fetch`, `localStorage`, the `confirm` dialog (a boolean parameter), rendering, and the dashboard's mock statistics.
