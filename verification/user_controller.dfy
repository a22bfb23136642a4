/**
  backend/src/controllers/user.controller.ts: list every user and look one
  up by id, each projected to id, name and email.
 */
module UserController {
  import opened Options
  import opened Schema
  import opened Db
  import opened Http

  const UserNotFound: string := "User not found"

  /** The projection `'name email'` applied to each user of a listing. */
  function PublicAll(us: seq<User>): (r: seq<PublicUser>)
    ensures |r| == |us|
    ensures forall i :: 0 <= i < |us| ==> r[i] == Public(us[i])
  {
    if us == [] then [] else [Public(us[0])] + PublicAll(us[1..])
  }

  /** `getAllUsers`: `{ users }` holding every user, projected. */
  function GetAllUsers(s: Store, fault: Option<string>): (r: Exchange)
    ensures r.store == s
    ensures fault.Some? ==> r.response == ServerFailure(DbError(fault.value))
    ensures fault.None? ==>
              && r.response.status == 200
              && r.response.body.UserList?
              && |r.response.body.users| == |AllUsers(s)|
  {
    if fault.Some? then Exchange(s, ServerFailure(DbError(fault.value)))
    else Exchange(s, Response(200, UserList(PublicAll(AllUsers(s)))))
  }

  /** The listing shows every stored user once, as its public projection,
      and shows nothing that is not a stored user. */
  lemma GetAllUsersExactly(s: Store)
    requires Keyed(s)
    ensures var listed := GetAllUsers(s, None).response.body.users;
            && |listed| == |s.users|
            && (forall u :: u in s.users.Values ==> Public(u) in listed)
            && (forall pu :: pu in listed ==> pu.id in s.users && Public(s.users[pu.id]) == pu)
  {
    AllUsersExactly(s);
    ListedUsersComplete(s);
    ListedUsersStored(s);
  }

  lemma ListedUsersComplete(s: Store)
    requires Keyed(s)
    requires forall u :: u in AllUsers(s) <==> u.id in s.users && s.users[u.id] == u
    ensures forall u :: u in s.users.Values ==> Public(u) in PublicAll(AllUsers(s))
  {
    var all := AllUsers(s);
    var listed := PublicAll(all);
    forall u | u in s.users.Values
      ensures Public(u) in listed
    {
      assert u in all;
      var i :| 0 <= i < |all| && all[i] == u;
      assert listed[i] == Public(u);
    }
  }

  lemma ListedUsersStored(s: Store)
    requires forall u :: u in AllUsers(s) <==> u.id in s.users && s.users[u.id] == u
    ensures forall pu :: pu in PublicAll(AllUsers(s)) ==> pu.id in s.users && Public(s.users[pu.id]) == pu
  {
    var all := AllUsers(s);
    var listed := PublicAll(all);
    forall pu | pu in listed
      ensures pu.id in s.users && Public(s.users[pu.id]) == pu
    {
      var i :| 0 <= i < |listed| && listed[i] == pu;
      assert all[i] in all;
    }
  }

  /** `getUserById`: the projected user, or 404 if no user has the id. */
  function GetUserById(s: Store, id: Id, fault: Option<string>): (r: Exchange)
    ensures r.store == s
    ensures r.response.status == 200 || r.response.status == 404 || r.response.status == 500
    ensures fault.Some? ==> r.response == ServerFailure(DbError(fault.value))
    ensures fault.None? && id !in s.users ==> r.response == Reply(404, UserNotFound)
    ensures r.response.status == 200 <==> fault.None? && id in s.users
    ensures r.response.status == 200 ==>
              && r.response.body.UserDoc?
              && var pu := r.response.body.user;
              && pu.id == s.users[id].id && pu.name == s.users[id].name && pu.email == s.users[id].email
  {
    if fault.Some? then Exchange(s, ServerFailure(DbError(fault.value)))
    else if id !in s.users then Exchange(s, Reply(404, UserNotFound))
    else Exchange(s, Response(200, UserDoc(Public(s.users[id]))))
  }

  /** Looking a user up by id agrees with the listing: the user found is
      one the listing shows, and an id the listing does not show is a 404. */
  lemma GetUserByIdAgreesWithListing(s: Store, id: Id)
    requires Keyed(s)
    ensures var one := GetUserById(s, id, None).response;
            var listed := GetAllUsers(s, None).response.body.users;
            && (one.status == 200 ==> one.body.user in listed)
            && ((forall pu :: pu in listed ==> pu.id != id) ==> one.status == 404)
  {
    GetAllUsersExactly(s);
    if id in s.users {
      assert s.users[id] in s.users.Values;
    }
  }
}
