/**
 * routes/tasks.js: the skip/limit part of `buildQuery`, and the POST, PUT
 * and DELETE handlers as functions from the tables before the request to
 * the response and the tables after it.
 */
module TasksRoute {
  import opened Wrappers
  import opened Js
  import opened UpdateOperators
  import opened UserModel
  import opened TaskModel
  import opened Db
  import opened QueryBuilder

  /** The page size a task listing gets when the request names none. */
  const DefaultLimit := 100

  const RequiredMessage := "name and deadline are required"
  const UserNotFoundMessage := "assignedUser not found"
  const NotFoundMessage := "Task not found"

  /**
   * `buildQuery` for tasks: `skip` is applied when present and numeric;
   * an absent or empty `limit` becomes 100, while a present one is parsed
   * and applied only when numeric, so a malformed limit means no limit.
   */
  method BuildQuery<J>(params: QueryParams, parse: string -> Option<J>) returns (query: Query<J>)
    ensures query.filter == JsonParam(params.where, parse)
    ensures query.order == JsonParam(params.sort, parse)
    ensures query.projection == JsonParam(params.select, parse)
    ensures !Truthy(params.skip) ==> query.skip.None?
    ensures Truthy(params.skip) ==> query.skip == ParseInt(params.skip.value)
    ensures !Truthy(params.limit) ==> query.limit == Some(DefaultLimit)
    ensures Truthy(params.limit) ==> query.limit == ParseInt(params.limit.value)
  {
    query := ApplyDocumentParams(params, parse);
    var skipNum := if Truthy(params.skip) then ParseInt(params.skip.value) else None;
    if skipNum.Some? { query := query.(skip := skipNum); }
    var limitNum := if Truthy(params.limit) then ParseInt(params.limit.value) else Some(DefaultLimit);
    if limitNum.Some? { query := query.(limit := limitNum); }
  }

  /** The request body of POST and PUT; `completed` is the truthiness of the field. */
  datatype TaskBody = TaskBody(
    name: Option<string>,
    description: Option<string>,
    deadline: Option<string>,
    completed: bool,
    assignedUser: Option<string>,
    assignedUserName: Option<string>)

  predicate HasRequired(body: TaskBody)
  {
    Truthy(body.name) && Truthy(body.deadline)
  }

  /** `typeof body.assignedUser === 'string' ? body.assignedUser : ''`. */
  function Assignee(body: TaskBody): string
  {
    if body.assignedUser.Some? then body.assignedUser.value else ""
  }

  /** The assignee is nobody or an existing user. */
  predicate AssigneeKnown(users: map<string, User>, body: TaskBody)
  {
    Assignee(body) == "" || Assignee(body) in users
  }

  /** The name the handlers cache: the assignee's current name, or "unassigned". */
  function AssigneeName(users: map<string, User>, body: TaskBody): string
    requires AssigneeKnown(users, body)
  {
    if Assignee(body) == "" then UnassignedName else users[Assignee(body)].name
  }

  /** The task record a successful POST or PUT writes for `body`. */
  function TaskFrom(users: map<string, User>, body: TaskBody): (t: Task)
    requires HasRequired(body) && AssigneeKnown(users, body)
    ensures t.name == body.name.value && t.deadline == body.deadline.value
    ensures t.description == OrElse(body.description, "") && t.completed == body.completed
    ensures t.assignedUser == Assignee(body)
    ensures t.assignedUserName == (if Assignee(body) == "" then UnassignedName else users[Assignee(body)].name)
  {
    Task(body.name.value, OrElse(body.description, ""), body.deadline.value, body.completed,
         Assignee(body), AssigneeName(users, body))
  }

  /**
   * POST /tasks (routes/tasks.js:43-83) with `id` the store's fresh id.
   * Both validations happen before any write; the supplied
   * `assignedUserName` never reaches the record; only the assignee of a
   * pending task has its list changed, by a set-style insert.
   */
  function Post(db: Tables, body: TaskBody, id: string): (r: Outcome)
    requires id !in db.tasks
    ensures !HasRequired(body) ==> r == Outcome(Response(400, RequiredMessage), db)
    ensures HasRequired(body) && !AssigneeKnown(db.users, body) ==>
              r == Outcome(Response(400, UserNotFoundMessage), db)
    ensures HasRequired(body) && AssigneeKnown(db.users, body) ==> r.response == Response(201, "Task created")
    ensures r.response.code == 201 ==>
              && r.tables.tasks.Keys == db.tasks.Keys + {id}
              && (forall t :: t in db.tasks ==> r.tables.tasks[t] == db.tasks[t])
              && r.tables.tasks[id].name == body.name.value
              && r.tables.tasks[id].description == OrElse(body.description, "")
              && r.tables.tasks[id].deadline == body.deadline.value
              && r.tables.tasks[id].completed == body.completed
              && r.tables.tasks[id].assignedUser == Assignee(body)
              && r.tables.tasks[id].assignedUserName ==
                   (if Assignee(body) == "" then UnassignedName else db.users[Assignee(body)].name)
    ensures r.response.code == 201 && Pending(r.tables.tasks[id]) ==>
              && r.tables.users.Keys == db.users.Keys
              && r.tables.users[Assignee(body)].pendingTasks ==
                   AddToSet(db.users[Assignee(body)].pendingTasks, id)
              && (forall u :: u in db.users && u != Assignee(body) ==> r.tables.users[u] == db.users[u])
    ensures r.response.code == 201 && !Pending(r.tables.tasks[id]) ==> r.tables.users == db.users
    ensures r.response.code == 201 ==> OnlyPendingChanged(db.users, r.tables.users)
    ensures SchemaValid(db.users) ==> SchemaValid(r.tables.users)
  {
    if !HasRequired(body) then Outcome(Response(400, RequiredMessage), db)
    else if !AssigneeKnown(db.users, body) then Outcome(Response(400, UserNotFoundMessage), db)
    else
      var task := TaskFrom(db.users, body);
      var tasks := db.tasks[id := task];
      var users := if Pending(task) then AddPending(db.users, task.assignedUser, id) else db.users;
      assert OnlyPendingChanged(db.users, users);
      SchemaKeptWhenOnlyPendingChanged(db.users, users);
      Outcome(Response(201, "Task created"), Tables(users, tasks))
  }

  /** The handler overwrites whatever `assignedUserName` the client sent. */
  lemma PostIgnoresSuppliedName(db: Tables, body: TaskBody, id: string, supplied: Option<string>)
    requires id !in db.tasks
    ensures Post(db, body.(assignedUserName := supplied), id) == Post(db, body, id)
  {
  }

  /** POST /tasks keeps the cross-reference invariant. */
  lemma PostKeepsConsistent(db: Tables, body: TaskBody, id: string)
    requires id !in db.tasks && Consistent(db)
    ensures Consistent(Post(db, body, id).tables)
  {
    if Post(db, body, id).response.code == 201 {
      PostKeepsPendingListed(db, body, id);
      PostKeepsListsOwn(db, body, id);
    }
  }

  lemma PostKeepsPendingListed(db: Tables, body: TaskBody, id: string)
    requires id !in db.tasks && PendingListed(db) && ListsOwnPending(db)
    requires Post(db, body, id).response.code == 201
    ensures PendingListed(Post(db, body, id).tables)
  {
    var after := Post(db, body, id).tables;
    var a := Assignee(body);
    var task := after.tasks[id];
    if Pending(task) {
      assert id !in db.users[a].pendingTasks;
    }
    forall t | t in after.tasks && Pending(after.tasks[t])
      ensures after.tasks[t].assignedUser in after.users
              && Count(after.users[after.tasks[t].assignedUser].pendingTasks, t) == 1
    {
      if t != id {
        var b := after.tasks[t].assignedUser;
        assert after.tasks[t] == db.tasks[t];
        if Pending(task) && b == a {
          assert Count(after.users[b].pendingTasks, t) == Count(db.users[b].pendingTasks, t);
        }
      }
    }
  }

  lemma PostKeepsListsOwn(db: Tables, body: TaskBody, id: string)
    requires id !in db.tasks && ListsOwnPending(db)
    requires Post(db, body, id).response.code == 201
    ensures ListsOwnPending(Post(db, body, id).tables)
  {
    var after := Post(db, body, id).tables;
    var a := Assignee(body);
    forall u, t | u in after.users && t in after.users[u].pendingTasks
      ensures t in after.tasks && after.tasks[t].assignedUser == u && !after.tasks[t].completed
    {
      if Pending(after.tasks[id]) && u == a {
        if t != id { assert t in db.users[u].pendingTasks; }
      } else {
        assert after.users[u] == db.users[u];
      }
    }
  }

  /** The assignee a PUT replaces: the one stored on the task before the request. */
  function Previous(db: Tables, id: string): string
    requires id in db.tasks
  {
    db.tasks[id].assignedUser
  }

  /** The PUT pulls the id from the previous assignee's list. */
  predicate PullsPrevious(prev: string, body: TaskBody)
  {
    prev != "" && (prev != Assignee(body) || body.completed)
  }

  /** The PUT inserts the id into the new assignee's list. */
  predicate AddsNew(body: TaskBody)
  {
    Assignee(body) != "" && !body.completed
  }

  /**
   * The pull and the insert of one PUT never concern the same user: a
   * pending task that keeps its assignee is neither pulled nor re-added.
   */
  lemma PullAndAddTouchDifferentUsers(prev: string, body: TaskBody)
    requires PullsPrevious(prev, body) && AddsNew(body)
    ensures prev != Assignee(body)
  {
  }

  /**
   * The two-way update after a replace: pull the id from the previous
   * assignee `prev` when the assignee changed or the task is now
   * completed, then insert it for the new assignee of a pending task.
   * Only those lists change; the two never concern the same user.
   */
  function SyncPending(users: map<string, User>, prev: string, body: TaskBody, id: string): (r: map<string, User>)
    requires AssigneeKnown(users, body)
    ensures OnlyPendingChanged(users, r)
    ensures PullsPrevious(prev, body) && prev in users ==>
              && r[prev].pendingTasks == Pull(users[prev].pendingTasks, id)
              && id !in r[prev].pendingTasks
    ensures AddsNew(body) ==> r[Assignee(body)].pendingTasks == AddToSet(users[Assignee(body)].pendingTasks, id)
    ensures forall u :: (u in users && !(u == prev && PullsPrevious(u, body))
                         && !(u == Assignee(body) && AddsNew(body))) ==> r[u] == users[u]
  {
    var pulled := if PullsPrevious(prev, body) then PullPending(users, prev, id) else users;
    if AddsNew(body) then AddPending(pulled, Assignee(body), id) else pulled
  }

  /**
   * PUT /tasks/:id (routes/tasks.js:103-148). Errors are checked in this
   * order, all before any write: missing fields (400), unknown task (404),
   * unknown assignee (400). A successful replace pulls the id from the
   * previous assignee when the assignee changed or the task is now
   * completed, inserts it for the new assignee of a pending task, and
   * leaves every other user as it was.
   */
  function Put(db: Tables, id: string, body: TaskBody): (r: Outcome)
    ensures !HasRequired(body) ==> r == Outcome(Response(400, RequiredMessage), db)
    ensures HasRequired(body) && id !in db.tasks ==> r == Outcome(Response(404, NotFoundMessage), db)
    ensures HasRequired(body) && id in db.tasks && !AssigneeKnown(db.users, body) ==>
              r == Outcome(Response(400, UserNotFoundMessage), db)
    ensures HasRequired(body) && id in db.tasks && AssigneeKnown(db.users, body) ==>
              r.response == Response(200, "Task updated")
    ensures r.response.code == 200 ==>
              && id in db.tasks
              && r.tables.tasks.Keys == db.tasks.Keys
              && (forall t :: t in db.tasks && t != id ==> r.tables.tasks[t] == db.tasks[t])
              && r.tables.tasks[id].name == body.name.value
              && r.tables.tasks[id].description == OrElse(body.description, "")
              && r.tables.tasks[id].deadline == body.deadline.value
              && r.tables.tasks[id].completed == body.completed
              && r.tables.tasks[id].assignedUser == Assignee(body)
              && r.tables.tasks[id].assignedUserName ==
                   (if Assignee(body) == "" then UnassignedName else db.users[Assignee(body)].name)
    ensures r.response.code == 200 ==> r.tables.users == SyncPending(db.users, Previous(db, id), body, id)
    ensures SchemaValid(db.users) ==> SchemaValid(r.tables.users)
  {
    if !HasRequired(body) then Outcome(Response(400, RequiredMessage), db)
    else if id !in db.tasks then Outcome(Response(404, NotFoundMessage), db)
    else if !AssigneeKnown(db.users, body) then Outcome(Response(400, UserNotFoundMessage), db)
    else
      var users := SyncPending(db.users, db.tasks[id].assignedUser, body, id);
      SchemaKeptWhenOnlyPendingChanged(db.users, users);
      Outcome(Response(200, "Task updated"), Tables(users, db.tasks[id := TaskFrom(db.users, body)]))
  }

  /** PUT /tasks/:id keeps the cross-reference invariant. */
  lemma PutKeepsConsistent(db: Tables, id: string, body: TaskBody)
    requires Consistent(db)
    ensures Consistent(Put(db, id, body).tables)
  {
    if Put(db, id, body).response.code == 200 {
      PutKeepsPendingListed(db, id, body);
      PutKeepsListsOwn(db, id, body);
      PutKeepsNames(db, id, body);
    }
  }

  lemma PutKeepsNames(db: Tables, id: string, body: TaskBody)
    requires NamesCached(db) && "" !in db.users
    requires Put(db, id, body).response.code == 200
    ensures NamesCached(Put(db, id, body).tables)
  {
    var after := Put(db, id, body).tables;
    forall t | t in after.tasks && after.tasks[t].assignedUser in after.users
      ensures after.tasks[t].assignedUserName == after.users[after.tasks[t].assignedUser].name
    {
      var b := after.tasks[t].assignedUser;
      assert after.users[b].name == db.users[b].name;
    }
  }

  lemma PutKeepsPendingListed(db: Tables, id: string, body: TaskBody)
    requires PendingListed(db) && ListsOwnPending(db)
    requires Put(db, id, body).response.code == 200
    ensures PendingListed(Put(db, id, body).tables)
  {
    var after := Put(db, id, body).tables;
    var a, p := Assignee(body), Previous(db, id);
    var users, tasks := after.users, after.tasks;
    forall t | t in tasks && Pending(tasks[t])
      ensures tasks[t].assignedUser in users && Count(users[tasks[t].assignedUser].pendingTasks, t) == 1
    {
      var b := tasks[t].assignedUser;
      if t == id {
        if id in db.users[a].pendingTasks {
          assert db.tasks[id].assignedUser == a && Pending(db.tasks[id]);
        }
      } else {
        assert tasks[t] == db.tasks[t];
        if b == p && PullsPrevious(p, body) {
          PullCountOther(db.users[b].pendingTasks, id, t);
        } else if b == a && AddsNew(body) {
          assert Count(users[b].pendingTasks, t) == Count(db.users[b].pendingTasks, t);
        } else {
          assert users[b] == db.users[b];
        }
      }
    }
  }

  lemma PutKeepsListsOwn(db: Tables, id: string, body: TaskBody)
    requires ListsOwnPending(db) && "" !in db.users
    requires Put(db, id, body).response.code == 200
    ensures ListsOwnPending(Put(db, id, body).tables)
  {
    var after := Put(db, id, body).tables;
    var a, p := Assignee(body), Previous(db, id);
    var users, tasks := after.users, after.tasks;
    forall u, t | u in users && t in users[u].pendingTasks
      ensures t in tasks && tasks[t].assignedUser == u && !tasks[t].completed
    {
      if u == p && PullsPrevious(p, body) {
        assert t in db.users[u].pendingTasks && t != id;
      } else if u == a && AddsNew(body) {
        if t != id { assert t in db.users[u].pendingTasks; }
      } else {
        assert users[u] == db.users[u];
        if t == id {
          assert false;
        }
      }
    }
  }

  /**
   * Repeating a successful PUT with the same body changes nothing more:
   * in particular re-PUTting the same assignee leaves that user's list as
   * the first PUT left it.
   */
  lemma PutIdempotent(db: Tables, id: string, body: TaskBody)
    requires Consistent(db)
    requires Put(db, id, body).response.code == 200
    ensures Put(Put(db, id, body).tables, id, body) == Put(db, id, body)
  {
    var once := Put(db, id, body).tables;
    var a, p := Assignee(body), Previous(db, id);
    assert a in db.users && id in db.users[a].pendingTasks ==> p == a;
    SyncPendingIdempotent(db.users, p, body, id);
    assert Previous(once, id) == a;
    assert TaskFrom(once.users, body) == TaskFrom(db.users, body) by {
      if a != "" { assert once.users[a].name == db.users[a].name; }
    }
  }

  /**
   * Running the list update a second time, now with the new assignee as
   * the previous one, changes nothing, provided the new assignee did not
   * already list a task it is about to have pulled.
   */
  lemma {:induction false} SyncPendingIdempotent(users: map<string, User>, p: string, body: TaskBody, id: string)
    requires AssigneeKnown(users, body)
    requires PullsPrevious(Assignee(body), body) && Assignee(body) != p && Assignee(body) in users ==>
               id !in users[Assignee(body)].pendingTasks
    ensures SyncPending(SyncPending(users, p, body, id), Assignee(body), body, id) == SyncPending(users, p, body, id)
  {
    var a := Assignee(body);
    var once := SyncPending(users, p, body, id);
    var twice := SyncPending(once, a, body, id);
    forall u | u in once ensures twice[u] == once[u] {
      if u == a && PullsPrevious(a, body) {
        // the task is now completed: the second run pulls from `a` again
        if u == p {
          PullIdempotent(users[u].pendingTasks, id);
        } else {
          assert once[u] == users[u];
        }
      } else if u == a && AddsNew(body) {
        AddToSetIdempotent(users[u].pendingTasks, id);
      }
    }
  }

  /**
   * DELETE /tasks/:id (routes/tasks.js:151-166): an unknown id answers 404
   * and changes nothing; otherwise the id is pulled from the assignee's
   * list and the task is removed, and nothing else changes.
   */
  function Delete(db: Tables, id: string): (r: Outcome)
    ensures id !in db.tasks ==> r == Outcome(Response(404, NotFoundMessage), db)
    ensures id in db.tasks ==>
              && r.response == Response(200, "Task deleted")
              && r.tables.tasks.Keys == db.tasks.Keys - {id}
              && (forall t :: t in db.tasks && t != id ==> r.tables.tasks[t] == db.tasks[t])
              && OnlyPendingChanged(db.users, r.tables.users)
              && (Previous(db, id) != "" && Previous(db, id) in db.users ==>
                    r.tables.users[Previous(db, id)].pendingTasks ==
                      Pull(db.users[Previous(db, id)].pendingTasks, id))
              && (forall u :: u in db.users && u != Previous(db, id) ==> r.tables.users[u] == db.users[u])
              && (Previous(db, id) == "" ==> r.tables.users == db.users)
    ensures SchemaValid(db.users) ==> SchemaValid(r.tables.users)
  {
    if id !in db.tasks then Outcome(Response(404, NotFoundMessage), db)
    else
      var assignee := db.tasks[id].assignedUser;
      var users := if assignee != "" then PullPending(db.users, assignee, id) else db.users;
      assert OnlyPendingChanged(db.users, users);
      SchemaKeptWhenOnlyPendingChanged(db.users, users);
      Outcome(Response(200, "Task deleted"), Tables(users, db.tasks - {id}))
  }

  /** DELETE /tasks/:id keeps the cross-reference invariant. */
  lemma DeleteKeepsConsistent(db: Tables, id: string)
    requires Consistent(db)
    ensures Consistent(Delete(db, id).tables)
  {
    if id in db.tasks {
      DeleteKeepsPendingListed(db, id);
      DeleteKeepsListsOwn(db, id);
    }
  }

  lemma DeleteKeepsPendingListed(db: Tables, id: string)
    requires PendingListed(db) && id in db.tasks
    ensures PendingListed(Delete(db, id).tables)
  {
    var after := Delete(db, id).tables;
    var p := Previous(db, id);
    forall t | t in after.tasks && Pending(after.tasks[t])
      ensures after.tasks[t].assignedUser in after.users
              && Count(after.users[after.tasks[t].assignedUser].pendingTasks, t) == 1
    {
      var b := after.tasks[t].assignedUser;
      assert after.tasks[t] == db.tasks[t];
      if b == p {
        PullCountOther(db.users[b].pendingTasks, id, t);
      }
    }
  }

  lemma DeleteKeepsListsOwn(db: Tables, id: string)
    requires ListsOwnPending(db) && "" !in db.users && id in db.tasks
    ensures ListsOwnPending(Delete(db, id).tables)
  {
    var after := Delete(db, id).tables;
    var p := Previous(db, id);
    forall u, t | u in after.users && t in after.users[u].pendingTasks
      ensures t in after.tasks && after.tasks[t].assignedUser == u && !after.tasks[t].completed
    {
      if u == p {
        assert t in db.users[u].pendingTasks && t != id;
      } else {
        assert after.users[u] == db.users[u];
        if t == id {
          assert false;
        }
      }
    }
  }
}
