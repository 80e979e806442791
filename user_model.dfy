/**
 * The User schema of models/user.js: the record, its `required`/`trim`
 * constraints, the unique index on `email`, and what saving a record into
 * the users table does with them.
 */
module UserModel {
  import opened Js

  /** `Date.now()` at creation, in milliseconds; the model treats it as an opaque value. */
  type Timestamp = int

  datatype User = User(name: string, email: string, pendingTasks: seq<string>, dateCreated: Timestamp)

  /** The record as Mongoose builds it: `trim` applies when a field is set. */
  function NewUser(name: string, email: string, pendingTasks: seq<string>, now: Timestamp): (u: User)
    ensures u.name == Trim(name) && u.email == Trim(email)
    ensures Trimmed(u.name) && Trimmed(u.email)
    ensures u.pendingTasks == pendingTasks && u.dateCreated == now
  {
    User(Trim(name), Trim(email), pendingTasks, now)
  }

  /** The `required` validators: a required string may not be empty. */
  predicate Required(u: User)
  {
    u.name != "" && u.email != ""
  }

  /** A record that satisfies the whole schema: required and trimmed. */
  predicate WellFormed(u: User)
  {
    Required(u) && Trimmed(u.name) && Trimmed(u.email)
  }

  /** The unique index on `email`. */
  ghost predicate EmailsUnique(users: map<string, User>)
  {
    forall a, b :: a in users && b in users && a != b ==> users[a].email != users[b].email
  }

  /** Every record satisfies the schema and no two share an email. */
  ghost predicate SchemaValid(users: map<string, User>)
  {
    (forall id :: id in users ==> WellFormed(users[id])) && EmailsUnique(users)
  }

  /** Some user other than `id` already has `email`. */
  predicate EmailTaken(users: map<string, User>, id: string, email: string)
  {
    exists other :: other in users && other != id && users[other].email == email
  }

  datatype SaveResult = Saved(users: map<string, User>) | ValidationFailed | DuplicateKey

  /**
   * `save()` of the record `u` under `id`: validation runs first, then the
   * unique index is consulted; only a save that passes both writes, and it
   * writes exactly that record.
   */
  function Save(users: map<string, User>, id: string, u: User): (r: SaveResult)
    ensures r.ValidationFailed? <==> !Required(u)
    ensures r.DuplicateKey? <==> Required(u) && EmailTaken(users, id, u.email)
    ensures r.Saved? ==> r.users.Keys == users.Keys + {id} && r.users[id] == u
    ensures r.Saved? ==> forall other :: other in users && other != id ==> r.users[other] == users[other]
    ensures r.Saved? && SchemaValid(users) && Trimmed(u.name) && Trimmed(u.email) ==> SchemaValid(r.users)
  {
    if !Required(u) then ValidationFailed
    else if EmailTaken(users, id, u.email) then DuplicateKey
    else Saved(users[id := u])
  }
}
