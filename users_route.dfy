/**
 * routes/users.js: the skip/limit part of `buildQuery`, and the POST, PUT
 * and DELETE handlers as functions from the tables before the request to
 * the response and the tables after it.
 */
module UsersRoute {
  import opened Wrappers
  import opened Js
  import opened UpdateOperators
  import opened UserModel
  import opened TaskModel
  import opened Db
  import opened QueryBuilder

  const RequiredMessage := "name and email are required"
  const NotFoundMessage := "User not found"
  const DuplicateMessage := "email must be unique"
  const ServerErrorMessage := "Server error"

  /**
   * `buildQuery` for users: `skip` and `limit` are each applied only when
   * present and numeric; there is no default limit.
   */
  method BuildQuery<J>(params: QueryParams, parse: string -> Option<J>) returns (query: Query<J>)
    ensures query.filter == JsonParam(params.where, parse)
    ensures query.order == JsonParam(params.sort, parse)
    ensures query.projection == JsonParam(params.select, parse)
    ensures !Truthy(params.skip) ==> query.skip.None?
    ensures Truthy(params.skip) ==> query.skip == ParseInt(params.skip.value)
    ensures !Truthy(params.limit) ==> query.limit.None?
    ensures Truthy(params.limit) ==> query.limit == ParseInt(params.limit.value)
  {
    query := ApplyDocumentParams(params, parse);
    if Truthy(params.skip) {
      var skipNum := ParseInt(params.skip.value);
      if skipNum.Some? { query := query.(skip := skipNum); }
    }
    if Truthy(params.limit) {
      var limitNum := ParseInt(params.limit.value);
      if limitNum.Some? { query := query.(limit := limitNum); }
    }
  }

  /** The request body of POST and PUT; `pendingTasks` is `None` when it is not an array. */
  datatype UserBody = UserBody(name: Option<string>, email: Option<string>, pendingTasks: Option<seq<string>>)

  predicate HasRequired(body: UserBody)
  {
    Truthy(body.name) && Truthy(body.email)
  }

  /** `Array.isArray(body.pendingTasks) ? body.pendingTasks : []`. */
  function PendingOf(body: UserBody): seq<string>
  {
    if body.pendingTasks.Some? then body.pendingTasks.value else []
  }

  /** The response for a save the store refused. */
  function Refused(r: SaveResult): (resp: Response)
    requires !r.Saved?
    ensures resp.code == 400 <==> r.DuplicateKey?
    ensures resp.code == 400 || resp.code == 500
  {
    if r.DuplicateKey? then Response(400, DuplicateMessage) else Response(500, ServerErrorMessage)
  }

  /**
   * POST /users (routes/users.js:47-65) with `id` the store's fresh id and
   * `now` the creation time. The stored record holds the trimmed name and
   * email, the given list (or none), and `now`; an email another user
   * holds is a 400, a value that trims to "" fails validation (500), and
   * neither writes anything.
   */
  function Post(db: Tables, body: UserBody, id: string, now: Timestamp): (r: Outcome)
    requires id !in db.users
    ensures !HasRequired(body) ==> r == Outcome(Response(400, RequiredMessage), db)
    ensures HasRequired(body) && (Trim(body.name.value) == "" || Trim(body.email.value) == "") ==>
              r == Outcome(Response(500, ServerErrorMessage), db)
    ensures HasRequired(body) && Trim(body.name.value) != "" && Trim(body.email.value) != "" ==>
              if EmailTaken(db.users, id, Trim(body.email.value)) then r == Outcome(Response(400, DuplicateMessage), db)
              else r.response.code == 201
    ensures r.response.code != 201 ==> r.tables == db
    ensures r.response.code == 201 ==>
              && r.response.message == "User created"
              && r.tables.tasks == db.tasks
              && r.tables.users.Keys == db.users.Keys + {id}
              && (forall u :: u in db.users ==> r.tables.users[u] == db.users[u])
              && r.tables.users[id].name == Trim(body.name.value)
              && r.tables.users[id].email == Trim(body.email.value)
              && r.tables.users[id].pendingTasks == (if body.pendingTasks.Some? then body.pendingTasks.value else [])
              && r.tables.users[id].dateCreated == now
    ensures SchemaValid(db.users) ==> SchemaValid(r.tables.users)
  {
    if !HasRequired(body) then Outcome(Response(400, RequiredMessage), db)
    else
      var user := NewUser(body.name.value, body.email.value, PendingOf(body), now);
      var saved := Save(db.users, id, user);
      if saved.Saved? then Outcome(Response(201, "User created"), db.(users := saved.users))
      else Outcome(Refused(saved), db)
  }

  /** The record a PUT saves: the stored one with the new name, email and list. */
  function Replaced(existing: User, body: UserBody): (u: User)
    requires HasRequired(body)
    ensures u.name == Trim(body.name.value) && u.email == Trim(body.email.value)
    ensures u.pendingTasks == PendingOf(body) && u.dateCreated == existing.dateCreated
    ensures Trimmed(u.name) && Trimmed(u.email)
  {
    existing.(name := Trim(body.name.value), email := Trim(body.email.value), pendingTasks := PendingOf(body))
  }

  /**
   * `Task.updateMany({ _id: { $in: pending } }, { $set: { assignedUser: uid, assignedUserName: name } })`.
   */
  function AssignListed(tasks: map<string, Task>, pending: seq<string>, uid: string, name: string): (r: map<string, Task>)
    ensures r.Keys == tasks.Keys
    ensures forall t :: t in tasks && t in pending ==> r[t] == AssignTo(tasks[t], uid, name)
    ensures forall t :: t in tasks && t !in pending ==> r[t] == tasks[t]
  {
    map t | t in tasks :: if t in pending then AssignTo(tasks[t], uid, name) else tasks[t]
  }

  /**
   * `Task.updateMany({ assignedUser: uid, _id: { $nin: pending } }, { $set: { assignedUser: '', assignedUserName: 'unassigned' } })`.
   */
  function UnassignUnlisted(tasks: map<string, Task>, pending: seq<string>, uid: string): (r: map<string, Task>)
    ensures r.Keys == tasks.Keys
    ensures forall t :: t in tasks && tasks[t].assignedUser == uid && t !in pending ==> r[t] == Unassign(tasks[t])
    ensures forall t :: t in tasks && !(tasks[t].assignedUser == uid && t !in pending) ==> r[t] == tasks[t]
  {
    map t | t in tasks :: if tasks[t].assignedUser == uid && t !in pending then Unassign(tasks[t]) else tasks[t]
  }

  /**
   * PUT /users/:id (routes/users.js:85-117). Missing fields (400) are
   * checked before the lookup (404) and both before any write; a refused
   * save writes nothing. After a successful save the new list is
   * authoritative: every listed task is assigned to this user under the
   * new name, every other task of this user is unassigned, and tasks of
   * other users, other users, and the creation date are untouched.
   */
  function Put(db: Tables, id: string, body: UserBody): (r: Outcome)
    ensures !HasRequired(body) ==> r == Outcome(Response(400, RequiredMessage), db)
    ensures HasRequired(body) && id !in db.users ==> r == Outcome(Response(404, NotFoundMessage), db)
    ensures HasRequired(body) && id in db.users && (Trim(body.name.value) == "" || Trim(body.email.value) == "") ==>
              r == Outcome(Response(500, ServerErrorMessage), db)
    ensures HasRequired(body) && id in db.users && Trim(body.name.value) != "" && Trim(body.email.value) != "" ==>
              if EmailTaken(db.users, id, Trim(body.email.value)) then r == Outcome(Response(400, DuplicateMessage), db)
              else r.response.code == 200
    ensures r.response.code != 200 ==> r.tables == db
    ensures r.response.code == 200 ==>
              && r.response.message == "User updated"
              && HasRequired(body) && id in db.users
              && r.tables.users.Keys == db.users.Keys
              && (forall u :: u in db.users && u != id ==> r.tables.users[u] == db.users[u])
              && r.tables.users[id].name == Trim(body.name.value)
              && r.tables.users[id].email == Trim(body.email.value)
              && r.tables.users[id].pendingTasks == (if body.pendingTasks.Some? then body.pendingTasks.value else [])
              && r.tables.users[id].dateCreated == db.users[id].dateCreated
    ensures r.response.code == 200 ==>
              && r.tables.tasks.Keys == db.tasks.Keys
              && (forall t :: t in db.tasks && t in PendingOf(body) ==>
                    r.tables.tasks[t] == AssignTo(db.tasks[t], id, Trim(body.name.value)))
              && (forall t :: t in db.tasks && t !in PendingOf(body) && db.tasks[t].assignedUser == id ==>
                    r.tables.tasks[t] == Unassign(db.tasks[t]))
              && (forall t :: t in db.tasks && t !in PendingOf(body) && db.tasks[t].assignedUser != id ==>
                    r.tables.tasks[t] == db.tasks[t])
    ensures SchemaValid(db.users) ==> SchemaValid(r.tables.users)
  {
    if !HasRequired(body) then Outcome(Response(400, RequiredMessage), db)
    else if id !in db.users then Outcome(Response(404, NotFoundMessage), db)
    else
      var user := Replaced(db.users[id], body);
      var saved := Save(db.users, id, user);
      if !saved.Saved? then Outcome(Refused(saved), db)
      else
        var relinked := AssignListed(db.tasks, user.pendingTasks, id, user.name);
        var tasks := UnassignUnlisted(relinked, user.pendingTasks, id);
        Outcome(Response(200, "User updated"), Tables(saved.users, tasks))
  }

  /**
   * DELETE /users/:id (routes/users.js:120-136): an unknown id answers 404
   * and changes nothing; otherwise every task the user lists becomes
   * unassigned and the user is removed. Tasks assigned to the user but not
   * listed keep their assignment.
   */
  function Delete(db: Tables, id: string): (r: Outcome)
    ensures id !in db.users ==> r == Outcome(Response(404, NotFoundMessage), db)
    ensures id in db.users ==>
              && r.response == Response(200, "User deleted")
              && r.tables.users.Keys == db.users.Keys - {id}
              && (forall u :: u in db.users && u != id ==> r.tables.users[u] == db.users[u])
              && r.tables.tasks.Keys == db.tasks.Keys
              && (forall t :: t in db.tasks && t in db.users[id].pendingTasks ==>
                    r.tables.tasks[t] == Unassign(db.tasks[t]))
              && (forall t :: t in db.tasks && t !in db.users[id].pendingTasks ==>
                    r.tables.tasks[t] == db.tasks[t])
    ensures SchemaValid(db.users) ==> SchemaValid(r.tables.users)
  {
    if id !in db.users then Outcome(Response(404, NotFoundMessage), db)
    else
      var pending := db.users[id].pendingTasks;
      var tasks := map t | t in db.tasks :: if t in pending then Unassign(db.tasks[t]) else db.tasks[t];
      Outcome(Response(200, "User deleted"), Tables(db.users - {id}, tasks))
  }

  /** DELETE /users/:id keeps the cross-reference invariant. */
  lemma DeleteKeepsConsistent(db: Tables, id: string)
    requires Consistent(db)
    ensures Consistent(Delete(db, id).tables)
  {
    if id in db.users {
      var after := Delete(db, id).tables;
      assert after.users == db.users - {id};
      assert Removed(db, after, id);
      DeletingKeepsPendingListed(db, after, id);
      DeletingKeepsListsOwn(db, after, id);
      DeletingKeepsNames(db, after, id);
    }
  }

  /** `after` is `db` once the user `id` is removed and the tasks it lists unassigned. */
  ghost predicate Removed(db: Tables, after: Tables, id: string)
  {
    && id in db.users
    && after.users == db.users - {id}
    && after.tasks.Keys == db.tasks.Keys
    && (forall t :: t in db.tasks && t in db.users[id].pendingTasks ==> after.tasks[t] == Unassign(db.tasks[t]))
    && (forall t :: t in db.tasks && t !in db.users[id].pendingTasks ==> after.tasks[t] == db.tasks[t])
  }

  lemma DeletingKeepsPendingListed(db: Tables, after: Tables, id: string)
    requires PendingListed(db) && ListsOwnPending(db) && Removed(db, after, id)
    ensures PendingListed(after)
  {
    forall t | t in after.tasks && Pending(after.tasks[t])
      ensures after.tasks[t].assignedUser in after.users
              && Count(after.users[after.tasks[t].assignedUser].pendingTasks, t) == 1
    {
      assert t !in db.users[id].pendingTasks;
      assert after.tasks[t] == db.tasks[t];
    }
  }

  lemma DeletingKeepsListsOwn(db: Tables, after: Tables, id: string)
    requires ListsOwnPending(db) && Removed(db, after, id)
    ensures ListsOwnPending(after)
  {
    forall u, t | u in after.users && t in after.users[u].pendingTasks
      ensures t in after.tasks && after.tasks[t].assignedUser == u && !after.tasks[t].completed
    {
      assert after.users[u] == db.users[u];
      assert t !in db.users[id].pendingTasks;
    }
  }

  lemma DeletingKeepsNames(db: Tables, after: Tables, id: string)
    requires NamesCached(db) && "" !in db.users && Removed(db, after, id)
    ensures NamesCached(after)
  {
    forall t | t in after.tasks && after.tasks[t].assignedUser in after.users
      ensures after.tasks[t].assignedUserName == after.users[after.tasks[t].assignedUser].name
    {
      if t !in db.users[id].pendingTasks { assert after.tasks[t] == db.tasks[t]; }
    }
  }

  /**
   * POST /users keeps the cross-reference invariant when the new user
   * lists no tasks and its fresh id is one no task refers to.
   */
  lemma PostKeepsConsistent(db: Tables, body: UserBody, id: string, now: Timestamp)
    requires Consistent(db) && id !in db.users && id != ""
    requires PendingOf(body) == []
    requires forall t :: t in db.tasks ==> db.tasks[t].assignedUser != id
    ensures Consistent(Post(db, body, id, now).tables)
  {
    var r := Post(db, body, id, now);
    if r.response.code == 201 {
      AddingUserKeepsConsistent(db, r.tables, id);
    }
  }

  /** Adding a user with an empty list under an id no task refers to keeps the invariant. */
  lemma AddingUserKeepsConsistent(db: Tables, after: Tables, id: string)
    requires Consistent(db) && id !in db.users && id != ""
    requires forall t :: t in db.tasks ==> db.tasks[t].assignedUser != id
    requires after.tasks == db.tasks && after.users.Keys == db.users.Keys + {id}
    requires forall u :: u in db.users ==> after.users[u] == db.users[u]
    requires after.users[id].pendingTasks == []
    ensures Consistent(after)
  {
    forall u, t | u in after.users && t in after.users[u].pendingTasks
      ensures t in db.tasks && db.tasks[t].assignedUser == u && !db.tasks[t].completed
    {
      assert u != id;
      assert after.users[u] == db.users[u];
    }
  }

  /**
   * The condition under which a PUT's list can be adopted without breaking
   * the invariant: no duplicates, and only existing unfinished tasks that
   * are unassigned or already this user's.
   */
  ghost predicate Adoptable(db: Tables, id: string, listed: seq<string>)
  {
    && NoDuplicates(listed)
    && forall t :: t in listed ==>
         t in db.tasks && !db.tasks[t].completed
         && (db.tasks[t].assignedUser == "" || db.tasks[t].assignedUser == id)
  }

  /**
   * `after` is `db` once a PUT has stored `user` under `id`: the listed
   * tasks are assigned to it, its other tasks are unassigned, and nothing
   * else changes.
   */
  ghost predicate Adopted(db: Tables, after: Tables, id: string, user: User)
  {
    && after.users == db.users[id := user]
    && after.tasks.Keys == db.tasks.Keys
    && (forall t :: t in db.tasks && t in user.pendingTasks ==>
          after.tasks[t] == AssignTo(db.tasks[t], id, user.name))
    && (forall t :: t in db.tasks && t !in user.pendingTasks && db.tasks[t].assignedUser == id ==>
          after.tasks[t] == Unassign(db.tasks[t]))
    && (forall t :: t in db.tasks && t !in user.pendingTasks && db.tasks[t].assignedUser != id ==>
          after.tasks[t] == db.tasks[t])
  }

  /** PUT /users/:id keeps the cross-reference invariant when its list is adoptable. */
  lemma PutKeepsConsistent(db: Tables, id: string, body: UserBody)
    requires Consistent(db)
    requires Adoptable(db, id, PendingOf(body))
    ensures Consistent(Put(db, id, body).tables)
  {
    var r := Put(db, id, body);
    if r.response.code == 200 {
      var user := r.tables.users[id];
      PutAdopts(db, id, body);
      AdoptingKeepsPendingListed(db, r.tables, id, user);
      AdoptingKeepsListsOwn(db, r.tables, id, user);
      AdoptingKeepsNames(db, r.tables, id, user);
    }
  }

  /** A successful PUT stores its record and re-links the tasks as `Adopted` says. */
  lemma PutAdopts(db: Tables, id: string, body: UserBody)
    requires Put(db, id, body).response.code == 200
    ensures Adopted(db, Put(db, id, body).tables, id, Put(db, id, body).tables.users[id])
  {
    var after := Put(db, id, body).tables;
    var user := after.users[id];
    assert user.pendingTasks == PendingOf(body) && user.name == Trim(body.name.value);
    assert after.users == db.users[id := user];
  }

  lemma AdoptingKeepsPendingListed(db: Tables, after: Tables, id: string, user: User)
    requires PendingListed(db) && id in db.users
    requires Adoptable(db, id, user.pendingTasks) && Adopted(db, after, id, user)
    ensures PendingListed(after)
  {
    var listed := user.pendingTasks;
    forall t | t in after.tasks && Pending(after.tasks[t])
      ensures after.tasks[t].assignedUser in after.users
              && Count(after.users[after.tasks[t].assignedUser].pendingTasks, t) == 1
    {
      if t in listed {
        CountOfNoDuplicates(listed, t);
      } else {
        assert after.tasks[t] == db.tasks[t];
      }
    }
  }

  lemma AdoptingKeepsListsOwn(db: Tables, after: Tables, id: string, user: User)
    requires ListsOwnPending(db) && "" !in db.users && id in db.users
    requires Adoptable(db, id, user.pendingTasks) && Adopted(db, after, id, user)
    ensures ListsOwnPending(after)
  {
    forall u, t | u in after.users && t in after.users[u].pendingTasks
      ensures t in after.tasks && after.tasks[t].assignedUser == u && !after.tasks[t].completed
    {
      if u != id {
        assert after.users[u] == db.users[u];
        assert db.tasks[t].assignedUser == u;
        assert t !in user.pendingTasks;
      }
    }
  }

  lemma AdoptingKeepsNames(db: Tables, after: Tables, id: string, user: User)
    requires NamesCached(db) && "" !in db.users && id in db.users
    requires Adopted(db, after, id, user)
    ensures NamesCached(after)
  {
    forall t | t in after.tasks && after.tasks[t].assignedUser in after.users
      ensures after.tasks[t].assignedUserName == after.users[after.tasks[t].assignedUser].name
    {
      if t !in user.pendingTasks && db.tasks[t].assignedUser != id { assert after.tasks[t] == db.tasks[t]; }
    }
    forall t | t in after.tasks && after.tasks[t].assignedUser == ""
      ensures after.tasks[t].assignedUserName == UnassignedName
    {
      if t !in user.pendingTasks && db.tasks[t].assignedUser != id { assert after.tasks[t] == db.tasks[t]; }
    }
  }

  /**
   * Without that condition the invariant breaks: a successful POST of a
   * user that lists any task stores the list, while no task is assigned
   * to the new id.
   */
  lemma PostListingTasksBreaksConsistency(db: Tables, body: UserBody, id: string, now: Timestamp)
    requires id !in db.users
    requires forall t :: t in db.tasks ==> db.tasks[t].assignedUser != id
    requires Post(db, body, id, now).response.code == 201
    requires PendingOf(body) != []
    ensures !Consistent(Post(db, body, id, now).tables)
  {
    var after := Post(db, body, id, now).tables;
    assert after.users[id].pendingTasks == PendingOf(body) && after.tasks == db.tasks;
    ListingForeignTaskBreaks(after, id, PendingOf(body)[0]);
  }

  /** A user that lists a task not assigned to it breaks the invariant. */
  lemma ListingForeignTaskBreaks(db: Tables, u: string, t: string)
    requires u in db.users && t in db.users[u].pendingTasks
    requires t in db.tasks ==> db.tasks[t].assignedUser != u
    ensures !Consistent(db)
  {
  }

  /**
   * A successful PUT whose list takes over a task another user lists
   * assigns the task to this user but leaves it in the other user's list.
   */
  lemma PutTakeoverBreaksConsistency(db: Tables, id: string, body: UserBody, t: string, other: string)
    requires HasRequired(body) && id in db.users
    requires Trim(body.name.value) != "" && Trim(body.email.value) != ""
    requires !EmailTaken(db.users, id, Trim(body.email.value))
    requires t in PendingOf(body) && t in db.tasks
    requires other != id && other in db.users && t in db.users[other].pendingTasks
    ensures !Consistent(Put(db, id, body).tables)
  {
    var after := Put(db, id, body).tables;
    assert after.tasks[t].assignedUser == id;
    assert after.users[other] == db.users[other];
    ListingForeignTaskBreaks(after, other, t);
  }

  /**
   * A PUT that passes all checks and lists a completed task assigns it to
   * this user and keeps it in the list, which the intended invariant
   * forbids.
   */
  lemma PutListingCompletedBreaksSynchronised(db: Tables, id: string, body: UserBody, t: string)
    requires HasRequired(body) && id in db.users
    requires Trim(body.name.value) != "" && Trim(body.email.value) != ""
    requires !EmailTaken(db.users, id, Trim(body.email.value))
    requires t in PendingOf(body) && t in db.tasks && db.tasks[t].completed
    ensures !Synchronised(Put(db, id, body).tables)
  {
    var after := Put(db, id, body).tables;
    assert after.tasks[t].completed && after.users[id].pendingTasks == PendingOf(body);
    ListingFinishedTaskBreaks(after, id, t);
  }

  /**
   * Why a listed task must be assigned to the user who lists it: after a
   * PUT takes over a pending task of user `other`, whose list keeps the
   * stale entry, a DELETE of `other` unassigns the task while the new
   * holder still lists it, which breaks the intended invariant.
   */
  lemma TakeoverThenDeleteBreaksSynchronised(db: Tables, id: string, body: UserBody, t: string, other: string)
    requires HasRequired(body) && id in db.users
    requires Trim(body.name.value) != "" && Trim(body.email.value) != ""
    requires !EmailTaken(db.users, id, Trim(body.email.value))
    requires t in PendingOf(body) && t in db.tasks
    requires other != id && other in db.users && t in db.users[other].pendingTasks
    ensures !Synchronised(Delete(Put(db, id, body).tables, other).tables)
  {
    var mid := Put(db, id, body).tables;
    assert mid.users[other] == db.users[other] && mid.users[id].pendingTasks == PendingOf(body);
    assert t in mid.tasks;
    var after := Delete(mid, other).tables;
    assert after.tasks[t] == Unassign(mid.tasks[t]);
    assert after.users[id] == mid.users[id];
    ListingFinishedTaskBreaks(after, id, t);
  }

  /**
   * A PUT that passes all checks and lists an existing task twice assigns
   * the task to this user, who then lists it twice: a pending task is not
   * listed exactly once, and a completed one is listed at all.
   */
  lemma PutListingTwiceBreaksSynchronised(db: Tables, id: string, body: UserBody, t: string)
    requires HasRequired(body) && id in db.users
    requires Trim(body.name.value) != "" && Trim(body.email.value) != ""
    requires !EmailTaken(db.users, id, Trim(body.email.value))
    requires t in db.tasks && Count(PendingOf(body), t) >= 2
    ensures !Synchronised(Put(db, id, body).tables)
  {
    var after := Put(db, id, body).tables;
    assert t in PendingOf(body);
    assert after.tasks[t].assignedUser == id && after.users[id].pendingTasks == PendingOf(body);
    if !Pending(after.tasks[t]) {
      ListingFinishedTaskBreaks(after, id, t);
    } else {
      assert Count(after.users[after.tasks[t].assignedUser].pendingTasks, t) != 1;
    }
  }
}
