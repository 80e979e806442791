# Users and tasks: a model of the reference-synchronisation core

This project models the REST backend that keeps two collections, users
and tasks, cross-referenced. A task names its assignee
(`assignedUser`) and caches that user's name (`assignedUserName`). A user
keeps a denormalised list of task ids (`pendingTasks`). The model covers:

- the POST, PUT and DELETE handlers of routes/tasks.js and routes/users.js,
  including their validation, the order of their error checks, and the
  follow-up writes that patch the other collection;
- the `skip`/`limit` rules of both `buildQuery` functions;
- the User schema of models/user.js.

The store is two maps, `id -> User` and `id -> Task`.

Each handler appears twice:

- as a pure function in `TasksRoute` or `UsersRoute`, from the tables before
  the request to the status code, the message and the tables after it;
- as a method of `Server.Store`, a class with the two maps as fields. The
  method takes the handler's steps in order: field-by-field overwrites,
  `$addToSet`/`$pull` on a user, `updateMany` over the tasks. Its contract
  says it yields exactly the route function's outcome.

The MongoDB update operators are sequence functions in `UpdateOperators`.
`$addToSet` is a set-style append and `$pull` removes every occurrence.
Both are proved idempotent and proved to keep the order of the other
entries. The JavaScript behaviour the handlers rely on is in `Js`:
truthiness, `||` defaults, `String.prototype.trim` and `parseInt(s, 10)`.

The follow-up writes are commented "Two-way" in the source
(routes/tasks.js:74, 134; routes/users.js:100, 125). The three-part
invariant they are meant to keep is `Db.Synchronised`:

- every pending task is listed exactly once, by its assignee;
- a completed or unassigned task is listed by nobody;
- a task's cached name is its assignee's current name.

The model proves preservation of a stronger invariant, `Db.Consistent`
(`Db.ConsistentIsSynchronised` shows it implies the intended one):

- every pending task is listed exactly once, by its existing assignee;
- a user lists only existing, unfinished tasks that are assigned to it
  (`Db.ListsOwnPending`; the intended invariant does not demand this);
- the cached name matches the assignee's name, or is "unassigned";
- no user has the id "" (the intended invariant does not state this either; it keeps
  "no assignee" apart from every real user).

Why the invariant must be stronger: DELETE /users (routes/users.js:126-129)
unassigns every task the deleted user lists, whoever the task is assigned
to. A stale entry, one for a task assigned to somebody else, therefore
breaks the intended invariant later even though it breaks none of its
three clauses now. `UsersRoute.TakeoverThenDeleteBreaksSynchronised`
proves this for a PUT /users followed by a DELETE /users. Listing a
completed task breaks the intended invariant directly
(`UsersRoute.PutListingCompletedBreaksSynchronised`), and so does a
PUT /users that lists an existing task twice: the task is then assigned
to that user, who lists it twice
(`UsersRoute.PutListingTwiceBreaksSynchronised`).

The intended invariant is meant to survive every mutation. The code keeps
`Consistent` for the three task handlers and for DELETE /users. It does
not do so for POST /users and PUT /users: they store the client's list
as given. The model follows the code. It proves preservation for
POST /users and PUT /users only under a stated condition on the list.
Without that condition the stronger invariant breaks: its
list-own-tasks clause fails
(`UsersRoute.PostListingTasksBreaksConsistency`,
`UsersRoute.PutTakeoverBreaksConsistency`).

Three more places where the code decides:

- A name or email that is blank after trimming gets past the handler's
  `!body.name` check. It then fails Mongoose's `required` validator on
  save, so the answer is 500 "Server error", not a 400.
- A duplicate email is the only 400 that a save produces.
- A present `limit` that is not numeric leaves a task listing without any
  limit. It does not fall back to 100.

Ids and timestamps come in as parameters:

- a fresh id is any string not yet in the table;
- `Date.now()` is the `now` argument of POST /users.

## Model

| member | source | states |
|---|---|---|
| UpdateOperators.Count | routes/tasks.js:76 | the number of occurrences is at most the length, and positive exactly when the value is present |
| UpdateOperators.AddToSet | routes/tasks.js:76 | `$addToSet`: the value is present afterwards; the old list is a prefix of the new one, which grows by at most one; an existing value leaves the list unchanged; the members are the old ones plus the value; a new value occurs once; other counts are unchanged |
| UpdateOperators.Pull | routes/tasks.js:137 | `$pull`: the value is absent afterwards; the remaining members are exactly the old ones other than the value; the length drops by the number of occurrences; a list without the value is unchanged |
| UpdateOperators.CountOfNoDuplicates | routes/users.js:101-104 | in a list without duplicates every member occurs exactly once |
| UpdateOperators.PullOfAppended | routes/tasks.js:137 | pulling a value that was only appended gives back the list before the append |
| UpdateOperators.PullKeepsOrder | routes/tasks.js:137 | `$pull` leaves the other entries in their original relative order (the result is a subsequence of the input) |
| UpdateOperators.PullCountOther | routes/tasks.js:137 | pulling one value leaves the count of every other value unchanged |
| UpdateOperators.AddToSetIdempotent | routes/tasks.js:140-142 | `$addToSet` twice with the same value is `$addToSet` once |
| UpdateOperators.PullIdempotent | routes/tasks.js:136-138 | `$pull` twice with the same value is `$pull` once |
| UpdateOperators.PullCancelsAddToSet | routes/tasks.js:137 | `$pull` after `$addToSet` of the same value is `$pull` alone |
| Js.TrimStart | models/user.js:9 | drops leading white space only: the result is a suffix, all dropped characters are white space, and it does not start with white space |
| Js.TrimEnd | models/user.js:9 | drops trailing white space only: the result is a prefix, all dropped characters are white space, and it does not end with white space |
| Js.Trim | models/user.js:9 | `trim`: the result is a prefix of the input without its leading white space, and only white space follows it there; neither end of the result is white space; an already-trimmed string comes back unchanged |
| Js.TrimIdempotent | models/user.js:9 | trimming twice is trimming once |
| Js.LeadingDigits | routes/tasks.js:16 | the longest digit prefix: a prefix made of digits that is followed by a non-digit or the end |
| Js.ParseInt | routes/tasks.js:16-19 | `parseInt(s, 10)` is NaN exactly when no digit follows the leading white space and optional sign; a negative result needs a leading minus |
| Js.Decimal | routes/tasks.js:18 | the canonical decimal numeral, the reference writer that `parseInt` is proved to invert, is a non-empty string of digits |
| Js.DecimalValue | routes/tasks.js:18 | reading the canonical numeral as digits gives back the number it was written from |
| Js.ParseIntOfDecimal | routes/users.js:21 | `parseInt` reads back a decimal numeral, whatever non-digit text follows it |
| Js.ParseIntOfNegativeDecimal | routes/users.js:17 | `parseInt` reads back a minus sign and a numeral as the negated number |
| Js.ParseIntSkipsWhitespace | routes/users.js:17 | leading white space does not change what `parseInt` reads |
| Js.ParseIntOfPlus | routes/tasks.js:16 | a `+` sign before the digits does not change what `parseInt` reads |
| Js.DigitsValueOfLeadingZero | routes/tasks.js:18 | a leading zero does not change the value of a string of digits |
| Js.ParseIntOfLeadingZero | routes/tasks.js:18 | `parseInt` reads a numeral with a leading zero as the number itself |
| Js.Truthy | routes/tasks.js:46 | a string field is truthy exactly when present and not empty |
| Js.OrElse | routes/tasks.js:65 | the logical-or default: the field when truthy, the fallback otherwise |
| UserModel.NewUser | models/user.js:5-24 | the record Mongoose builds holds exactly the trimmed name, the trimmed email, the given list and the creation time `now` |
| UserModel.Required | models/user.js:8 | the `required` validator: name and email are not empty |
| UserModel.EmailTaken | models/user.js:15 | the unique index on email: another user holds the email |
| UserModel.WellFormed | models/user.js:6-14 | a record satisfies the schema's field rules: name and email are required (not empty) and trimmed |
| UserModel.EmailsUnique | models/user.js:15 | the unique index on email: no two distinct users share an email |
| UserModel.SchemaValid | models/user.js:5-25 | the constraint every write must keep ("the schema valid"): every user is well formed and emails are unique |
| UserModel.Save | models/user.js:6-16 | a save fails validation exactly when name or email is empty; it violates the unique index exactly when it is valid and another user holds the email; a successful save writes exactly that record and leaves all others alone; it keeps the schema valid when the record is trimmed |
| TaskModel.Pending | routes/tasks.js:75 | a task is pending when it has an assignee and is not completed, the condition under which its assignee lists it |
| TaskModel.Unassign | routes/users.js:106-109 | the task has no assignee and the name "unassigned", is not pending, and no other field changes |
| TaskModel.AssignTo | routes/users.js:101-104 | the task is assigned to the given id under the given name, and no other field changes |
| Db.AddPending | routes/tasks.js:76 | `updateOne` with `$addToSet`: a missing user matches nothing; otherwise only that user's `pendingTasks` changes |
| Db.PullPending | routes/tasks.js:137 | `updateOne` with `$pull`: a missing user matches nothing; otherwise only that user's `pendingTasks` changes |
| Db.SchemaKeptWhenOnlyPendingChanged | models/user.js:5-25 | changing only task lists keeps every user well formed and the emails unique |
| QueryBuilder.JsonParam | routes/tasks.js:7-15 | a `where`/`sort`/`select` parameter contributes nothing when absent or empty, and otherwise contributes what it parses to (nothing when the parse throws) |
| QueryBuilder.ApplyDocumentParams | routes/users.js:6-15 | `find()` followed by the three guarded JSON steps sets filter, order and projection from their parameters, and no skip or limit |
| TasksRoute.BuildQuery | routes/tasks.js:5-21 | `skip` is the parsed value when present and numeric, else unset; `limit` is 100 when absent or empty, the parsed value when present and numeric, and unset when present and not numeric |
| TasksRoute.HasRequired | routes/tasks.js:46 | `name` and `deadline` are both truthy |
| TasksRoute.Assignee | routes/tasks.js:49 | the assignee is the supplied string, and "" when the field is not a string |
| TasksRoute.AssigneeKnown | routes/tasks.js:53-57 | the assignee is nobody or an existing user; otherwise the request is refused |
| TasksRoute.AssigneeName | routes/tasks.js:53-61 | the cached name is the assignee's current name, or "unassigned" |
| TasksRoute.TaskFrom | routes/tasks.js:63-70 | the written task holds the body's name and deadline, the description or "", the truthiness of `completed`, the assignee, and that assignee's name or "unassigned" |
| TasksRoute.Post | routes/tasks.js:43-83 | 400 for a missing name or deadline and then for an unknown assignee, both with the tables unchanged; otherwise 201: the new task is stored with the assignee's current name and no other task changes; the assignee of a pending task gets the id by `$addToSet`, every other user is unchanged, and a completed or unassigned task changes no user |
| TasksRoute.PostIgnoresSuppliedName | routes/tasks.js:49-61 | the `assignedUserName` a client sends has no effect on the response or the tables |
| TasksRoute.PostKeepsConsistent | routes/tasks.js:43-83 | POST /tasks keeps the cross-reference invariant |
| TasksRoute.PostKeepsPendingListed | routes/tasks.js:75-77 | after POST, a pending task's assignee lists it exactly once |
| TasksRoute.PostKeepsListsOwn | routes/tasks.js:75-77 | after POST, users list only their own unfinished tasks |
| TasksRoute.Previous | routes/tasks.js:113 | the assignee the task had before the PUT |
| TasksRoute.PullsPrevious | routes/tasks.js:136 | the id is pulled when there was a previous assignee and the assignee changed or the task is now completed |
| TasksRoute.AddsNew | routes/tasks.js:140 | the id is added when the task has an assignee and is not completed |
| TasksRoute.PullAndAddTouchDifferentUsers | routes/tasks.js:136-142 | when a PUT both pulls and adds, it pulls from a user other than the one it adds to |
| TasksRoute.SyncPending | routes/tasks.js:134-142 | only `pendingTasks` change; when the assignee changed or the task is completed, the id is pulled from the previous assignee and is absent afterwards; the new assignee of a pending task gets it by `$addToSet`; every other user is unchanged |
| TasksRoute.Put | routes/tasks.js:103-148 | 400 for a missing name or deadline, then 404 for an unknown task, then 400 for an unknown assignee, each with the tables unchanged; otherwise 200: only that task is overwritten, field by field, with the validated assignee's name, and the users change as `SyncPending` states |
| TasksRoute.PutKeepsConsistent | routes/tasks.js:103-148 | PUT /tasks keeps the cross-reference invariant |
| TasksRoute.PutKeepsNames | routes/tasks.js:117-130 | after PUT, every cached assignee name is current |
| TasksRoute.PutKeepsPendingListed | routes/tasks.js:134-142 | after PUT, a pending task's assignee lists it exactly once |
| TasksRoute.PutKeepsListsOwn | routes/tasks.js:134-142 | after PUT, users list only their own unfinished tasks |
| TasksRoute.PutIdempotent | routes/tasks.js:140-142 | repeating a successful PUT with the same body changes nothing more, so re-PUTting the same assignee leaves its list as it was |
| TasksRoute.SyncPendingIdempotent | routes/tasks.js:134-142 | running the list update again, with the new assignee as the previous one, changes nothing |
| TasksRoute.Delete | routes/tasks.js:151-166 | 404 with the tables unchanged for an unknown id; otherwise 200: the task is removed, its assignee's list loses the id by `$pull`, and no other task or user changes |
| TasksRoute.DeleteKeepsConsistent | routes/tasks.js:151-166 | DELETE /tasks keeps the cross-reference invariant |
| TasksRoute.DeleteKeepsPendingListed | routes/tasks.js:156-161 | after DELETE, a pending task's assignee lists it exactly once |
| TasksRoute.DeleteKeepsListsOwn | routes/tasks.js:156-161 | after DELETE, users list only existing tasks of their own |
| UsersRoute.BuildQuery | routes/users.js:5-25 | `skip` and `limit` are each the parsed value when present and numeric, and unset otherwise; there is no default limit |
| UsersRoute.HasRequired | routes/users.js:50 | `name` and `email` are both truthy |
| UsersRoute.PendingOf | routes/users.js:56 | the list the client sent when it is an array, and the empty list otherwise |
| UsersRoute.Refused | routes/users.js:61-62 | a refused save answers 400 exactly when it violated the unique index, and 500 otherwise |
| UsersRoute.Post | routes/users.js:47-65 | 400 for a missing name or email; 500 when either trims to ""; 400 "email must be unique" when another user holds the trimmed email; all three with the tables unchanged; otherwise 201 and exactly one new user holding the trimmed fields, the list as given (or empty when it is not an array) and the creation time, with tasks and other users unchanged |
| UsersRoute.Replaced | routes/users.js:94-96 | the overwritten record holds the trimmed name and email of the body and its list (or the empty list), and keeps its creation date |
| UsersRoute.AssignListed | routes/users.js:101-104 | `updateMany` with `$in`: every listed task is assigned to the user under the given name, every other task is unchanged, and the set of task ids is kept |
| UsersRoute.UnassignUnlisted | routes/users.js:106-109 | `updateMany` with `$nin`: every task assigned to the user and not listed is unassigned, every other task is unchanged, and the set of task ids is kept |
| UsersRoute.Put | routes/users.js:85-117 | 400 for a missing name or email, then 404 for an unknown id, then 500 or 400 for a refused save, each with the tables unchanged; otherwise 200: the user keeps its creation date and gets the trimmed name and email and the new list; listed tasks are assigned to it under the new name; its unlisted tasks are unassigned; every other task and user is unchanged |
| UsersRoute.Delete | routes/users.js:120-136 | 404 with the tables unchanged for an unknown id; otherwise 200: the user is removed, tasks it lists are unassigned, and every other task (even one assigned to it but not listed) and every other user is unchanged |
| UsersRoute.DeleteKeepsConsistent | routes/users.js:120-136 | DELETE /users keeps the cross-reference invariant |
| UsersRoute.DeletingKeepsPendingListed | routes/users.js:126-131 | after DELETE, a pending task's assignee lists it exactly once |
| UsersRoute.DeletingKeepsListsOwn | routes/users.js:126-131 | after DELETE, users list only their own unfinished tasks |
| UsersRoute.DeletingKeepsNames | routes/users.js:126-129 | after DELETE, the cached names are current or "unassigned" |
| UsersRoute.PostKeepsConsistent | routes/users.js:47-65 | POST /users keeps the invariant when the new user lists nothing and no task refers to its id |
| UsersRoute.AddingUserKeepsConsistent | routes/users.js:53-58 | adding a user with an empty list under an unreferenced id keeps the invariant |
| UsersRoute.PutKeepsConsistent | routes/users.js:85-117 | PUT /users keeps the invariant when its list has no duplicates and names only existing unfinished tasks that are unassigned or already this user's |
| UsersRoute.PutAdopts | routes/users.js:98-109 | a successful PUT stores the record and re-links exactly the listed tasks and this user's unlisted tasks |
| UsersRoute.AdoptingKeepsPendingListed | routes/users.js:101-109 | after such a PUT, a pending task's assignee lists it exactly once |
| UsersRoute.AdoptingKeepsListsOwn | routes/users.js:101-109 | after such a PUT, users list only their own unfinished tasks |
| UsersRoute.AdoptingKeepsNames | routes/users.js:101-109 | after such a PUT, cached names are current or "unassigned" |
| UsersRoute.PostListingTasksBreaksConsistency | routes/users.js:53-58 | a successful POST whose list is non-empty, under an id no task refers to, leaves tables that are not consistent |
| UsersRoute.ListingForeignTaskBreaks | routes/users.js:56 | a user that lists a task not assigned to it violates the invariant |
| UsersRoute.PutTakeoverBreaksConsistency | routes/users.js:96-104 | a PUT that passes all checks and lists a task another user lists assigns the task to this user, leaves it in the other user's list, and so leaves tables that are not consistent |
| Db.ConsistentIsSynchronised | routes/users.js:100-109 | the invariant the model maintains implies the intended three-part invariant |
| Db.ListingFinishedTaskBreaks | routes/users.js:56 | a user that lists an existing task that is not pending violates the intended invariant |
| UsersRoute.PutListingCompletedBreaksSynchronised | routes/users.js:96-104 | a PUT that passes all checks and lists a completed task leaves tables that violate the intended invariant |
| UsersRoute.PutListingTwiceBreaksSynchronised | routes/users.js:96-104 | a PUT that passes all checks and lists an existing task twice leaves tables that violate the intended invariant |
| UsersRoute.TakeoverThenDeleteBreaksSynchronised | routes/users.js:126-129 | after a PUT takes over a task another user lists, deleting that other user unassigns the task while the new holder still lists it, which violates the intended invariant |
| Server.Store.PostTask | routes/tasks.js:43-83 | the handler's steps in place yield exactly the outcome of `TasksRoute.Post` and keep the schema valid |
| Server.Store.PutTask | routes/tasks.js:103-148 | field-by-field overwrite, then `$pull`, then `$addToSet`, yield exactly the outcome of `TasksRoute.Put` and keep the schema valid |
| Server.Store.DeleteTask | routes/tasks.js:151-166 | the handler's steps yield exactly the outcome of `TasksRoute.Delete` and keep the schema valid |
| Server.Store.PostUser | routes/users.js:47-65 | build, save and answer yield exactly the outcome of `UsersRoute.Post` and keep the schema valid |
| Server.Store.PutUser | routes/users.js:85-117 | in-place field updates, save and the two `updateMany` passes yield exactly the outcome of `UsersRoute.Put` and keep the schema valid |
| Server.Store.DeleteUser | routes/users.js:120-136 | unassigning the listed tasks and removing the user yield exactly the outcome of `UsersRoute.Delete` and keep the schema valid |

## Left out

- GET /tasks, GET /users and their `count=true` form are not modelled. They only run the query. GET by id with `select` is not modelled either; it passes straight through to `findById`.
- `JSON.parse` of `where`, `sort` and `select` is a parameter `parse` that returns `None` where the parse throws. Filtering, sorting and projection by Mongoose are not modelled.
- `new Date(body.deadline)` is not parsed: the deadline is kept as the string supplied. `Date.now()` is the `now` parameter.
- ObjectId generation and validity are not modelled: ids are strings, and a fresh id is a precondition. With real ObjectIds, a malformed id makes `findById` throw and the handler answers 500. A malformed entry in a user's list makes the `updateMany` after the save throw, so the answer is 500 although the user was saved.
- Each handler is one atomic step. The code awaits several separate writes without a transaction. Interleaving of concurrent requests, and a failure between two writes, are not modelled.
- models/task.js is not part of this model. The task record is the one the handlers build, and a task save is taken never to fail.
- Js.ParseInt: 'parseInt' yields a double, so precision is lost beyond 2^53. The model reads the digits into an unbounded integer.
- Request fields are strings or absent. A non-string `name` or `deadline` (a number, an object) is not modelled. `completed` is the truthiness of the field, so the string "false" counts as true, as in the code.
- Express query arrays (`?skip=1&skip=2`) are not modelled; a query parameter is a single string or absent.
- The response body's `data` field is not modelled; only the status code and message are.
