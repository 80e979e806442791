/**
 * The store the handlers run against: the users and tasks tables as two
 * maps, updated in place, with one method per route handler. Each method
 * takes the same steps as its handler, in the same order, and is proved to
 * produce the response and tables its route module specifies.
 */
module Server {
  import opened Wrappers
  import opened Js
  import opened UserModel
  import opened TaskModel
  import opened Db
  import TasksRoute
  import UsersRoute

  class Store {
    var users: map<string, User>
    var tasks: map<string, Task>

    function Snapshot(): Tables
      reads this
    {
      Tables(users, tasks)
    }

    /** The schema of models/user.js holds for every stored user. */
    ghost predicate Valid()
      reads this
    {
      SchemaValid(users)
    }

    constructor ()
      ensures Valid() && users == map[] && tasks == map[]
    {
      users := map[];
      tasks := map[];
    }

    /** POST /tasks; `newId` is the id the store assigns to the new record. */
    method PostTask(body: TasksRoute.TaskBody, newId: string) returns (response: Response)
      requires Valid() && newId !in tasks
      modifies this
      ensures Valid()
      ensures Outcome(response, Snapshot()) == TasksRoute.Post(old(Snapshot()), body, newId)
    {
      if !TasksRoute.HasRequired(body) {
        return Response(400, TasksRoute.RequiredMessage);
      }
      var assignedUser := TasksRoute.Assignee(body);
      var assignedUserName := if body.assignedUserName.Some? then body.assignedUserName.value else UnassignedName;
      if assignedUser != "" {
        if assignedUser !in users {
          return Response(400, TasksRoute.UserNotFoundMessage);
        }
        assignedUserName := users[assignedUser].name;
      } else {
        assignedUserName := UnassignedName;
      }
      var task := Task(body.name.value, OrElse(body.description, ""), body.deadline.value,
                       body.completed, assignedUser, assignedUserName);
      tasks := tasks[newId := task];
      if assignedUser != "" && !task.completed {
        users := AddPending(users, assignedUser, newId);
      }
      response := Response(201, "Task created");
    }

    /** PUT /tasks/:id. */
    method PutTask(id: string, body: TasksRoute.TaskBody) returns (response: Response)
      requires Valid()
      modifies this
      ensures Valid()
      ensures Outcome(response, Snapshot()) == TasksRoute.Put(old(Snapshot()), id, body)
    {
      if !TasksRoute.HasRequired(body) {
        return Response(400, TasksRoute.RequiredMessage);
      }
      if id !in tasks {
        return Response(404, TasksRoute.NotFoundMessage);
      }
      var task := tasks[id];
      var prevAssignedUser := task.assignedUser;
      var assignedUser := TasksRoute.Assignee(body);
      var assignedUserName := UnassignedName;
      if assignedUser != "" {
        if assignedUser !in users {
          return Response(400, TasksRoute.UserNotFoundMessage);
        }
        assignedUserName := users[assignedUser].name;
      }
      task := task.(name := body.name.value);
      task := task.(description := OrElse(body.description, ""));
      task := task.(deadline := body.deadline.value);
      task := task.(completed := body.completed);
      task := task.(assignedUser := assignedUser);
      task := task.(assignedUserName := assignedUserName);
      assert task == TasksRoute.TaskFrom(users, body);
      tasks := tasks[id := task];
      ghost var before := users;
      if prevAssignedUser != "" && (prevAssignedUser != assignedUser || task.completed) {
        users := PullPending(users, prevAssignedUser, id);
      }
      assert users == if TasksRoute.PullsPrevious(prevAssignedUser, body) then PullPending(before, prevAssignedUser, id) else before;
      ghost var pulled := users;
      if assignedUser != "" && !task.completed {
        users := AddPending(users, assignedUser, id);
      }
      assert users == if TasksRoute.AddsNew(body) then AddPending(pulled, assignedUser, id) else pulled;
      response := Response(200, "Task updated");
      assert TasksRoute.Put(old(Snapshot()), id, body).tables.users == users;
    }

    /** DELETE /tasks/:id. */
    method DeleteTask(id: string) returns (response: Response)
      requires Valid()
      modifies this
      ensures Valid()
      ensures Outcome(response, Snapshot()) == TasksRoute.Delete(old(Snapshot()), id)
    {
      if id !in tasks {
        return Response(404, TasksRoute.NotFoundMessage);
      }
      var task := tasks[id];
      if task.assignedUser != "" {
        users := PullPending(users, task.assignedUser, id);
      }
      tasks := tasks - {id};
      response := Response(200, "Task deleted");
    }

    /** POST /users; `newId` is the id the store assigns, `now` the creation time. */
    method PostUser(body: UsersRoute.UserBody, newId: string, now: Timestamp) returns (response: Response)
      requires Valid() && newId !in users
      modifies this
      ensures Valid()
      ensures Outcome(response, Snapshot()) == UsersRoute.Post(old(Snapshot()), body, newId, now)
    {
      if !UsersRoute.HasRequired(body) {
        return Response(400, UsersRoute.RequiredMessage);
      }
      var user := NewUser(body.name.value, body.email.value, UsersRoute.PendingOf(body), now);
      var saved := Save(users, newId, user);
      if !saved.Saved? {
        return UsersRoute.Refused(saved);
      }
      users := saved.users;
      response := Response(201, "User created");
    }

    /** PUT /users/:id. */
    method PutUser(id: string, body: UsersRoute.UserBody) returns (response: Response)
      requires Valid()
      modifies this
      ensures Valid()
      ensures Outcome(response, Snapshot()) == UsersRoute.Put(old(Snapshot()), id, body)
    {
      if !UsersRoute.HasRequired(body) {
        return Response(400, UsersRoute.RequiredMessage);
      }
      if id !in users {
        return Response(404, UsersRoute.NotFoundMessage);
      }
      var existing := users[id];
      existing := existing.(name := Trim(body.name.value));
      existing := existing.(email := Trim(body.email.value));
      existing := existing.(pendingTasks := UsersRoute.PendingOf(body));
      var saved := Save(users, id, existing);
      if !saved.Saved? {
        return UsersRoute.Refused(saved);
      }
      users := saved.users;
      tasks := UsersRoute.AssignListed(tasks, existing.pendingTasks, id, existing.name);
      tasks := UsersRoute.UnassignUnlisted(tasks, existing.pendingTasks, id);
      response := Response(200, "User updated");
    }

    /** DELETE /users/:id. */
    method DeleteUser(id: string) returns (response: Response)
      requires Valid()
      modifies this
      ensures Valid()
      ensures Outcome(response, Snapshot()) == UsersRoute.Delete(old(Snapshot()), id)
    {
      if id !in users {
        return Response(404, UsersRoute.NotFoundMessage);
      }
      var pending := users[id].pendingTasks;
      tasks := map t | t in tasks :: if t in pending then Unassign(tasks[t]) else tasks[t];
      users := users - {id};
      response := Response(200, "User deleted");
    }
  }
}
