/**
 * The two tables the route handlers read and write, the response a handler
 * gives, and the single-document update operations they issue on a user's
 * `pendingTasks`.
 */
module Db {
  import opened UpdateOperators
  import opened UserModel
  import opened TaskModel

  datatype Tables = Tables(users: map<string, User>, tasks: map<string, Task>)

  /** Status code and message of the JSON envelope; `data` is not modelled. */
  datatype Response = Response(code: int, message: string)

  /** What a handler answers and the tables it leaves behind. */
  datatype Outcome = Outcome(response: Response, tables: Tables)

  /**
   * `User.updateOne({ _id: uid }, { $addToSet: { pendingTasks: tid } })`:
   * a missing user matches nothing; otherwise only that user's list changes.
   */
  function AddPending(users: map<string, User>, uid: string, tid: string): (r: map<string, User>)
    ensures r.Keys == users.Keys
    ensures forall u :: u in users && u != uid ==> r[u] == users[u]
    ensures uid in users ==> r[uid] == users[uid].(pendingTasks := AddToSet(users[uid].pendingTasks, tid))
  {
    if uid in users then users[uid := users[uid].(pendingTasks := AddToSet(users[uid].pendingTasks, tid))]
    else users
  }

  /** `User.updateOne({ _id: uid }, { $pull: { pendingTasks: tid } })`. */
  function PullPending(users: map<string, User>, uid: string, tid: string): (r: map<string, User>)
    ensures r.Keys == users.Keys
    ensures forall u :: u in users && u != uid ==> r[u] == users[u]
    ensures uid in users ==> r[uid] == users[uid].(pendingTasks := Pull(users[uid].pendingTasks, tid))
  {
    if uid in users then users[uid := users[uid].(pendingTasks := Pull(users[uid].pendingTasks, tid))]
    else users
  }

  /** Only `pendingTasks` of some users differ between `a` and `b`. */
  ghost predicate OnlyPendingChanged(a: map<string, User>, b: map<string, User>)
  {
    a.Keys == b.Keys && forall u :: u in a ==> b[u] == a[u].(pendingTasks := b[u].pendingTasks)
  }

  lemma SchemaKeptWhenOnlyPendingChanged(a: map<string, User>, b: map<string, User>)
    requires OnlyPendingChanged(a, b)
    ensures SchemaValid(a) ==> SchemaValid(b)
  {
    if SchemaValid(a) {
      forall x, y | x in b && y in b && x != y ensures b[x].email != b[y].email {
        assert b[x].email == a[x].email && b[y].email == a[y].email;
      }
      forall x | x in b ensures WellFormed(b[x]) {
        assert b[x].name == a[x].name && b[x].email == a[x].email;
      }
    }
  }

  /**
   * The cross-reference invariant between the two tables:
   * no user has the id "" (the "nobody" marker); a pending task is listed
   * exactly once by its assignee; a user lists only existing, unfinished
   * tasks assigned to that user; and the cached assignee name is the
   * assignee's current name, or "unassigned" for an unassigned task.
   */
  ghost predicate Consistent(db: Tables)
  {
    "" !in db.users && PendingListed(db) && ListsOwnPending(db) && NamesCached(db)
  }

  /** Every pending task is listed exactly once by its assignee, who exists. */
  ghost predicate PendingListed(db: Tables)
  {
    forall t :: t in db.tasks && Pending(db.tasks[t]) ==>
      db.tasks[t].assignedUser in db.users
      && Count(db.users[db.tasks[t].assignedUser].pendingTasks, t) == 1
  }

  /** A user lists only existing, unfinished tasks assigned to that user. */
  ghost predicate ListsOwnPending(db: Tables)
  {
    forall u, t :: u in db.users && t in db.users[u].pendingTasks ==>
      t in db.tasks && db.tasks[t].assignedUser == u && !db.tasks[t].completed
  }

  /** The cached assignee name is the assignee's name, or "unassigned" for nobody. */
  ghost predicate NamesCached(db: Tables)
  {
    && (forall t :: t in db.tasks && db.tasks[t].assignedUser in db.users ==>
          db.tasks[t].assignedUserName == db.users[db.tasks[t].assignedUser].name)
    && (forall t :: t in db.tasks && db.tasks[t].assignedUser == "" ==>
          db.tasks[t].assignedUserName == UnassignedName)
  }

  /**
   * The intended two-way invariant, the one the "Two-way" comments of
   * routes/tasks.js (lines 74, 134) and routes/users.js (lines 100, 125)
   * describe the follow-up writes as keeping: a pending task is listed
   * exactly once by its assignee; a completed or unassigned task is
   * listed by nobody; the cached name of an assigned task is its
   * assignee's name. `Consistent` is stronger: it also demands that a
   * listed task exists and is assigned to the user who lists it, and that
   * "" is no user's id.
   */
  ghost predicate Synchronised(db: Tables)
  {
    && PendingListed(db)
    && (forall u, t :: u in db.users && t in db.users[u].pendingTasks && t in db.tasks ==> Pending(db.tasks[t]))
    && (forall t :: t in db.tasks && db.tasks[t].assignedUser in db.users ==>
          db.tasks[t].assignedUserName == db.users[db.tasks[t].assignedUser].name)
  }

  /** The strengthened invariant implies the intended one. */
  lemma ConsistentIsSynchronised(db: Tables)
    requires Consistent(db)
    ensures Synchronised(db)
  {
  }

  /** A user that lists an existing task that is not pending violates the intended invariant. */
  lemma ListingFinishedTaskBreaks(db: Tables, u: string, t: string)
    requires u in db.users && t in db.users[u].pendingTasks
    requires t in db.tasks && !Pending(db.tasks[t])
    ensures !Synchronised(db)
  {
  }
}
