/**
 * The Task record as routes/tasks.js builds it (lines 63-70): name,
 * description, deadline, completion flag and the denormalised assignment.
 */
module TaskModel {

  /** The name a task carries while nobody is assigned to it. */
  const UnassignedName := "unassigned"

  /** `deadline` is the value the client supplied; date parsing is not modelled. */
  datatype Task = Task(
    name: string,
    description: string,
    deadline: string,
    completed: bool,
    assignedUser: string,
    assignedUserName: string)

  /** The task counts as pending for its assignee. */
  predicate Pending(t: Task)
  {
    t.assignedUser != "" && !t.completed
  }

  /** `$set: { assignedUser: '', assignedUserName: 'unassigned' }`. */
  function Unassign(t: Task): (r: Task)
    ensures r.assignedUser == "" && r.assignedUserName == UnassignedName && !Pending(r)
    ensures r.(assignedUser := t.assignedUser, assignedUserName := t.assignedUserName) == t
  {
    t.(assignedUser := "", assignedUserName := UnassignedName)
  }

  /** `$set: { assignedUser: uid, assignedUserName: name }`. */
  function AssignTo(t: Task, uid: string, name: string): (r: Task)
    ensures r.assignedUser == uid && r.assignedUserName == name
    ensures r.(assignedUser := t.assignedUser, assignedUserName := t.assignedUserName) == t
  {
    t.(assignedUser := uid, assignedUserName := name)
  }
}
