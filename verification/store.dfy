/**
  The database as three finite maps from document id to record, with the
  id the next inserted document receives. Reading a collection yields its
  records in id order, the stand-in for the driver's natural order.
 */
module Db {
  import opened Schema

  datatype Store = Store(users: map<Id, User>, projects: map<Id, Project>,
                         tasks: map<Id, Task>, nextId: Id)

  const Empty: Store := Store(map[], map[], map[], 0)

  /** No two users share an email address (what `register` relies on). */
  predicate UniqueEmails(users: map<Id, User>) {
    forall a, b :: a in users && b in users && users[a].email == users[b].email ==> a == b
  }

  /** The records are keyed by their own ids, every record passed its
      schema's validators, and no email is registered twice. */
  predicate Valid(s: Store) {
    && Keyed(s)
    && (forall k :: k in s.projects ==> WellFormedProject(s.projects[k]))
    && (forall k :: k in s.tasks ==> WellFormedTask(s.tasks[k]))
    && UniqueEmails(s.users)
  }

  /** Every record sits under its own id and every id was handed out
      before `nextId`. */
  predicate Keyed(s: Store) {
    && (forall k :: k in s.users ==> k < s.nextId && s.users[k].id == k)
    && (forall k :: k in s.projects ==> k < s.nextId && s.projects[k].id == k)
    && (forall k :: k in s.tasks ==> k < s.nextId && s.tasks[k].id == k)
  }

  lemma EmptyIsValid()
    ensures Valid(Empty)
  {}

  /** Saves a new task under the next fresh id. */
  function InsertTask(s: Store, t: Task): Store {
    s.(tasks := s.tasks[t.id := t], nextId := s.nextId + 1)
  }

  /** Saves a new project under the next fresh id. */
  function InsertProject(s: Store, p: Project): Store {
    s.(projects := s.projects[p.id := p], nextId := s.nextId + 1)
  }

  /** Saves a new user under the next fresh id. */
  function InsertUser(s: Store, u: User): Store {
    s.(users := s.users[u.id := u], nextId := s.nextId + 1)
  }

  /** Adding a key that was absent grows the map by exactly that key. */
  lemma FreshKey<T>(m: map<Id, T>, k: Id, v: T)
    requires k !in m
    ensures m[k := v].Keys == m.Keys + {k}
    ensures |m[k := v]| == |m| + 1
  {}

  /** Saving a well-formed task under the fresh id adds exactly that key
      and keeps the store valid. */
  lemma InsertTaskValid(s: Store, t: Task)
    requires Valid(s) && t.id == s.nextId && WellFormedTask(t)
    ensures Valid(InsertTask(s, t))
    ensures t.id !in s.tasks
    ensures InsertTask(s, t).tasks.Keys == s.tasks.Keys + {t.id}
    ensures |InsertTask(s, t).tasks| == |s.tasks| + 1
  {
    assert t.id !in s.tasks;
    FreshKey(s.tasks, t.id, t);
    InsertTaskKeeps(s, t);
  }

  lemma InsertTaskKeeps(s: Store, t: Task)
    requires Valid(s) && t.id == s.nextId && WellFormedTask(t)
    ensures Valid(InsertTask(s, t))
  {
    var s' := InsertTask(s, t);
    forall k | k in s'.tasks
      ensures k < s'.nextId && s'.tasks[k].id == k && WellFormedTask(s'.tasks[k])
    {
      if k != t.id {
        assert k in s.tasks;
      }
    }
  }

  /** Saving a well-formed project under the fresh id adds exactly that key
      and keeps the store valid. */
  lemma InsertProjectValid(s: Store, p: Project)
    requires Valid(s) && p.id == s.nextId && WellFormedProject(p)
    ensures Valid(InsertProject(s, p))
    ensures p.id !in s.projects
    ensures InsertProject(s, p).projects.Keys == s.projects.Keys + {p.id}
    ensures |InsertProject(s, p).projects| == |s.projects| + 1
  {
    assert p.id !in s.projects;
    FreshKey(s.projects, p.id, p);
    InsertProjectKeeps(s, p);
  }

  lemma InsertProjectKeeps(s: Store, p: Project)
    requires Valid(s) && p.id == s.nextId && WellFormedProject(p)
    ensures Valid(InsertProject(s, p))
  {
    var s' := InsertProject(s, p);
    forall k | k in s'.projects
      ensures k < s'.nextId && s'.projects[k].id == k && WellFormedProject(s'.projects[k])
    {
      if k != p.id {
        assert k in s.projects;
      }
    }
  }

  /** Saving a user with an unused email under the fresh id adds exactly
      that key and keeps the store valid. */
  lemma InsertUserValid(s: Store, u: User)
    requires Valid(s) && u.id == s.nextId
    requires forall k :: k in s.users ==> s.users[k].email != u.email
    ensures Valid(InsertUser(s, u))
    ensures u.id !in s.users
    ensures InsertUser(s, u).users.Keys == s.users.Keys + {u.id}
    ensures |InsertUser(s, u).users| == |s.users| + 1
  {
    assert u.id !in s.users;
    FreshKey(s.users, u.id, u);
    InsertUserKeeps(s, u);
  }

  lemma InsertUserKeeps(s: Store, u: User)
    requires Valid(s) && u.id == s.nextId
    requires forall k :: k in s.users ==> s.users[k].email != u.email
    ensures Valid(InsertUser(s, u))
  {
    var s' := InsertUser(s, u);
    forall k | k in s'.users
      ensures k < s'.nextId && s'.users[k].id == k
    {
      if k != u.id {
        assert k in s.users;
      }
    }
    forall a, b | a in s'.users && b in s'.users && s'.users[a].email == s'.users[b].email
      ensures a == b
    {
      if a != u.id && b != u.id {
        assert s'.users[a] == s.users[a] && s'.users[b] == s.users[b];
      }
    }
  }

  /** The keys of `m` below `n`, largest first. */
  function IdsDesc<T>(m: map<Id, T>, n: nat): (r: seq<Id>)
    ensures forall k :: k in r <==> k in m && k < n
    ensures forall i, j :: 0 <= i < j < |r| ==> r[i] > r[j]
  {
    if n == 0 then []
    else
      var rest := IdsDesc(m, n - 1);
      if n - 1 in m then
        assert forall i :: 0 <= i < |rest| ==> rest[i] in rest;
        [n - 1] + rest
      else rest
  }

  /** The keys of `m` below `n`, smallest first. */
  function IdsAsc<T>(m: map<Id, T>, n: nat): (r: seq<Id>)
    ensures forall k :: k in r <==> k in m && k < n
    ensures forall i, j :: 0 <= i < j < |r| ==> r[i] < r[j]
  {
    if n == 0 then []
    else
      var rest := IdsAsc(m, n - 1);
      if n - 1 in m then
        assert forall i :: 0 <= i < |rest| ==> rest[i] in rest;
        rest + [n - 1]
      else rest
  }

  /** The records stored under `ks`, in the order of `ks`. */
  function Lookup<T(==)>(m: map<Id, T>, ks: seq<Id>): (r: seq<T>)
    requires forall k :: k in ks ==> k in m
    ensures |r| == |ks|
    ensures forall i :: 0 <= i < |ks| ==> r[i] == m[ks[i]]
    ensures forall x :: x in r ==> x in m.Values
  {
    if ks == [] then [] else [m[ks[0]]] + Lookup(m, ks[1..])
  }

  /** All tasks, newest id first. */
  function AllTasks(s: Store): seq<Task> {
    Lookup(s.tasks, IdsDesc(s.tasks, s.nextId))
  }

  /** All projects, newest id first. */
  function AllProjects(s: Store): seq<Project> {
    Lookup(s.projects, IdsDesc(s.projects, s.nextId))
  }

  /** All users, oldest id first. */
  function AllUsers(s: Store): seq<User> {
    Lookup(s.users, IdsAsc(s.users, s.nextId))
  }

  /** With records keyed by their ids, the task listing holds exactly the stored tasks. */
  lemma AllTasksExactly(s: Store)
    requires Keyed(s)
    ensures forall t :: t in AllTasks(s) <==> t.id in s.tasks && s.tasks[t.id] == t
  {
    var ks := IdsDesc(s.tasks, s.nextId);
    var xs := AllTasks(s);
    forall t: Task
      ensures t in xs <==> t.id in s.tasks && s.tasks[t.id] == t
    {
      if t in xs {
        var i :| 0 <= i < |xs| && xs[i] == t;
        assert s.tasks[ks[i]] == t;
      }
      if t.id in s.tasks && s.tasks[t.id] == t {
        assert t.id in ks;
        var i :| 0 <= i < |ks| && ks[i] == t.id;
        assert xs[i] == t;
      }
    }
  }


  /** With records keyed by their ids, the project listing holds each stored project once. */
  lemma AllProjectsExactly(s: Store)
    requires Keyed(s)
    ensures |AllProjects(s)| == |s.projects|
    ensures forall p :: p in AllProjects(s) <==> p.id in s.projects && s.projects[p.id] == p
  {
    var ks := IdsDesc(s.projects, s.nextId);
    DistinctKeysCount(s.projects, ks);
    var xs := AllProjects(s);
    forall p: Project
      ensures p in xs <==> p.id in s.projects && s.projects[p.id] == p
    {
      if p in xs {
        var i :| 0 <= i < |xs| && xs[i] == p;
        assert s.projects[ks[i]] == p;
      }
      if p.id in s.projects && s.projects[p.id] == p {
        assert p.id in ks;
        var i :| 0 <= i < |ks| && ks[i] == p.id;
        assert xs[i] == p;
      }
    }
  }


  /** With records keyed by their ids, the user listing holds each stored user once. */
  lemma AllUsersExactly(s: Store)
    requires Keyed(s)
    ensures |AllUsers(s)| == |s.users|
    ensures forall u :: u in AllUsers(s) <==> u.id in s.users && s.users[u.id] == u
  {
    var ks := IdsAsc(s.users, s.nextId);
    forall u: User | u.id in s.users && s.users[u.id] == u
      ensures u in AllUsers(s)
    {
      var i :| 0 <= i < |ks| && ks[i] == u.id;
      assert AllUsers(s)[i] == u;
    }
    DistinctKeysCount(s.users, ks);
  }

  /** A duplicate-free listing of all keys of `m` is as long as `m`. */
  lemma {:induction false} DistinctKeysCount<T>(m: map<Id, T>, ks: seq<Id>)
    requires forall k :: k in ks <==> k in m
    requires forall i, j :: 0 <= i < j < |ks| ==> ks[i] != ks[j]
    ensures |ks| == |m|
  {
    if ks == [] {
      assert m.Keys == {};
    } else {
      var k := ks[|ks| - 1];
      var front := ks[..|ks| - 1];
      assert ks == front + [k];
      DropLastKey(m, front, k);
      DistinctKeysCount(m - {k}, front);
      assert m.Keys == (m - {k}).Keys + {k};
    }
  }

  /** Dropping the last key of a duplicate-free listing of all keys
      lists all keys of the map without it. */
  lemma DropLastKey<T>(m: map<Id, T>, front: seq<Id>, last: Id)
    requires forall k :: k in front + [last] <==> k in m
    requires forall i, j :: 0 <= i < j < |front + [last]| ==> (front + [last])[i] != (front + [last])[j]
    ensures forall x :: x in front <==> x in m - {last}
    ensures forall i, j :: 0 <= i < j < |front| ==> front[i] != front[j]
  {
    var ks := front + [last];
    forall x
      ensures x in front <==> x in m - {last}
    {
      if x in front {
        var i :| 0 <= i < |front| && front[i] == x;
        assert ks[i] == x && ks[|ks| - 1] == last;
      }
      if x in m - {last} {
        var i :| 0 <= i < |ks| && ks[i] == x;
        assert i != |ks| - 1;
        assert front[i] == x;
      }
    }
    forall i, j | 0 <= i < j < |front|
      ensures front[i] != front[j]
    {
      assert ks[i] == front[i] && ks[j] == front[j];
    }
  }
}
