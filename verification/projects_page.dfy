/**
  svara-ai-task-management/src/app/projects/page.tsx: how the projects
  page updates its list, its form and its modal after the create and delete
  requests. The request itself is an outcome handed in: it either threw or
  answered with `res.ok` and, on create, the saved project.
 */
module ProjectsPage {

  /** A project as the page holds it (`_id`, name, description, createdAt). */
  datatype ProjectCard = ProjectCard(id: string, name: string, description: string, createdAt: string)

  /** The new-project form. */
  datatype Form = Form(name: string, description: string)

  const EmptyForm: Form := Form("", "")

  /** The page's state: the listed projects, the form and whether the
      create modal is open. */
  datatype PageState = PageState(projects: seq<ProjectCard>, form: Form, showModal: bool)

  /** What the create request produced: it threw (network failure or a
      body that is not JSON), or the server answered. */
  datatype CreateOutcome = CreateThrew | CreateAnswered(ok: bool, project: ProjectCard)

  /** What the delete request produced. */
  datatype DeleteOutcome = DeleteThrew | DeleteAnswered(ok: bool)

  /** `handleCreateProject`: on an ok answer, put the new project in front,
      empty the form and close the modal; otherwise change nothing. */
  function HandleCreateProject(st: PageState, outcome: CreateOutcome): (r: PageState)
    ensures outcome.CreateAnswered? && outcome.ok ==>
              && |r.projects| == |st.projects| + 1
              && r.projects[0] == outcome.project
              && r.projects[1..] == st.projects
              && r.form == EmptyForm
              && !r.showModal
    ensures !(outcome.CreateAnswered? && outcome.ok) ==> r == st
  {
    match outcome
    case CreateAnswered(true, project) =>
      PageState([project] + st.projects, EmptyForm, false)
    case _ => st
  }

  /** `projects.filter((project) => project._id !== id)`. */
  function RemoveById(ps: seq<ProjectCard>, id: string): (r: seq<ProjectCard>)
    ensures |r| <= |ps|
    ensures forall p :: p in r <==> p in ps && p.id != id
  {
    if ps == [] then []
    else (if ps[0].id == id then [] else [ps[0]]) + RemoveById(ps[1..], id)
  }

  /** `handleDeleteProject`: nothing unless the user confirms; on an ok
      answer, drop every project with the id; otherwise change nothing. */
  function HandleDeleteProject(st: PageState, id: string, confirmed: bool, outcome: DeleteOutcome): (r: PageState)
    ensures r.form == st.form && r.showModal == st.showModal
    ensures !(confirmed && outcome.DeleteAnswered? && outcome.ok) ==> r == st
    ensures confirmed && outcome.DeleteAnswered? && outcome.ok ==>
              && (forall p :: p in r.projects ==> p.id != id)
              && (forall p :: p in st.projects && p.id != id ==> p in r.projects)
              && (forall p :: p in r.projects ==> p in st.projects)
  {
    if confirmed && outcome.DeleteAnswered? && outcome.ok then
      st.(projects := RemoveById(st.projects, id))
    else st
  }

  /** Filtering works piece by piece: the projects of `xs` that survive
      still precede those of `ys`, so the survivors keep their relative
      order. */
  lemma {:induction false} RemoveByIdSplits(xs: seq<ProjectCard>, ys: seq<ProjectCard>, id: string)
    ensures RemoveById(xs + ys, id) == RemoveById(xs, id) + RemoveById(ys, id)
  {
    if xs == [] {
      assert xs + ys == ys;
    } else {
      assert (xs + ys)[1..] == xs[1..] + ys;
      RemoveByIdSplits(xs[1..], ys, id);
    }
  }

  /** A surviving project sits in the filtered list right after the
      survivors of the projects listed before it. */
  lemma RemoveByIdAt(xs: seq<ProjectCard>, a: ProjectCard, ys: seq<ProjectCard>, id: string)
    requires a.id != id
    ensures var r := RemoveById(xs + [a] + ys, id);
            && |r| == |RemoveById(xs, id)| + 1 + |RemoveById(ys, id)|
            && r[|RemoveById(xs, id)|] == a
  {
    assert xs + [a] + ys == xs + ([a] + ys);
    RemoveByIdSplits(xs, [a] + ys, id);
    assert ([a] + ys)[1..] == ys;
  }

  /** Two surviving projects keep their relative order: if `a` was listed
      before `b`, it is still listed before `b` after the delete. */
  lemma RemoveByIdKeepsOrder(xs: seq<ProjectCard>, a: ProjectCard, ys: seq<ProjectCard>,
                             b: ProjectCard, zs: seq<ProjectCard>, id: string)
    requires a.id != id && b.id != id
    ensures var r := RemoveById(xs + [a] + ys + [b] + zs, id);
            exists i, j :: 0 <= i < j < |r| && r[i] == a && r[j] == b
  {
    var front, back := xs + [a] + ys, [b] + zs;
    var r := RemoveById(front + back, id);
    var i := |RemoveById(xs, id)|;
    var j := |RemoveById(front, id)|;
    assert 0 <= i < j < |r| && r[i] == a && r[j] == b by {
      RemoveByIdSplits(front, back, id);
      RemoveByIdAt(xs, a, ys, id);
      assert back[1..] == zs;
    }
    assert front + back == xs + [a] + ys + [b] + zs;
    assert exists k, l :: 0 <= k < l < |r| && r[k] == a && r[l] == b;
  }

  /** A list in which no project has the id is left as it is. */
  lemma {:induction false} RemoveByIdAbsent(ps: seq<ProjectCard>, id: string)
    requires forall p :: p in ps ==> p.id != id
    ensures RemoveById(ps, id) == ps
  {
    if ps != [] {
      var tail := ps[1..];
      assert ps[0] in ps;
      forall p | p in tail
        ensures p.id != id
      {
        assert p in ps;
      }
      RemoveByIdAbsent(tail, id);
      assert RemoveById(ps, id) == [ps[0]] + RemoveById(tail, id);
      assert ps == [ps[0]] + tail;
    }
  }

  /** Deleting the same id twice leaves the list as the first delete did. */
  lemma RemoveByIdIdempotent(ps: seq<ProjectCard>, id: string)
    ensures RemoveById(RemoveById(ps, id), id) == RemoveById(ps, id)
  {
    RemoveByIdAbsent(RemoveById(ps, id), id);
  }

  /** Creating a project and then deleting its id restores the earlier
      list whenever that id was not listed before. */
  lemma CreateThenDelete(st: PageState, project: ProjectCard)
    requires forall p :: p in st.projects ==> p.id != project.id
    ensures HandleDeleteProject(HandleCreateProject(st, CreateAnswered(true, project)),
                                project.id, true, DeleteAnswered(true)).projects == st.projects
  {
    var created := HandleCreateProject(st, CreateAnswered(true, project));
    assert created.projects == [project] + st.projects;
    RemoveByIdSplits([project], st.projects, project.id);
    RemoveByIdAbsent(st.projects, project.id);
  }
}
