/** The role-filtered task list, the form choices, and task create, update and delete. */
module TaskController {
  import opened Prelude
  import opened Schema
  import UpdateTaskRequest

  // ---------------------------------------------------------------------------
  // Queries
  // ---------------------------------------------------------------------------

  /** The strict `manager_id === null` test of the listing. */
  predicate IsManager(user: User)
  {
    user.managerId == None
  }

  /** A manager sees the tasks they created; anyone else sees the tasks assigned to them. */
  function Index(tasks: map<nat, Task>, user: User): (r: map<nat, Task>)
    ensures forall id | id in r :: id in tasks && r[id] == tasks[id]
    ensures IsManager(user) ==> forall id | id in tasks :: id in r <==> tasks[id].createdBy == Some(user.id)
    ensures !IsManager(user) ==> forall id | id in tasks :: id in r <==> tasks[id].employeeId == Some(user.id)
  {
    if IsManager(user) then map id | id in tasks && tasks[id].createdBy == Some(user.id) :: tasks[id]
    else map id | id in tasks && tasks[id].employeeId == Some(user.id) :: tasks[id]
  }

  /** The two branches never mix: a manager is not shown a task only because it is assigned to them. */
  lemma ManagerSeesOnlyAuthoredTasks(tasks: map<nat, Task>, user: User, id: nat)
    requires IsManager(user) && id in tasks
    requires tasks[id].employeeId == Some(user.id) && tasks[id].createdBy != Some(user.id)
    ensures id !in Index(tasks, user)
  {
  }

  /** The assignee choices: the caller's direct reports. */
  function DirectReports(employees: map<nat, Employee>, user: User): (r: map<nat, Employee>)
    ensures forall id | id in r :: id in employees && r[id] == employees[id]
    ensures forall id | id in employees :: id in r <==> employees[id].managerId == Some(user.id)
  {
    map id | id in employees && employees[id].managerId == Some(user.id) :: employees[id]
  }

  /** Every status case, each once, in declaration order. */
  function StatusCases(): (r: seq<TaskStatus>)
    ensures |r| == 3 && Pending in r && InProgress in r && Done in r
  {
    [Pending, InProgress, Done]
  }

  /** What the create and edit forms offer. */
  datatype FormChoices = FormChoices(employees: map<nat, Employee>, statuses: seq<TaskStatus>)

  function CreateForm(employees: map<nat, Employee>, user: User): (r: FormChoices)
    ensures r.employees == DirectReports(employees, user) && r.statuses == StatusCases()
  {
    FormChoices(DirectReports(employees, user), StatusCases())
  }

  /** The edit form offers the same choices as the create form, beside the task itself. */
  function EditForm(task: Task, employees: map<nat, Employee>, user: User): (r: (Task, FormChoices))
    ensures r.0 == task && r.1 == CreateForm(employees, user)
  {
    (task, CreateForm(employees, user))
  }

  /** Every status the form offers is one the update rules accept. */
  lemma OfferedStatusesValidate(input: UpdateTaskRequest.Input, status: TaskStatus)
    requires status in StatusCases()
    ensures UpdateTaskRequest.RequiredStatus(input["status" := UpdateTaskRequest.Str(status.Value())], "status")
  {
  }

  // ---------------------------------------------------------------------------
  // Mutations
  // ---------------------------------------------------------------------------

  /** Mass assignment of the validated update: created_by is not among its fields and is kept. */
  function ApplyPatch(task: Task, patch: UpdateTaskRequest.TaskPatch): (r: Task)
    ensures r.createdBy == task.createdBy
    ensures r.name == patch.name && r.description == patch.description && r.status == patch.status
    ensures r.startDate == patch.startDate && r.endDate == patch.endDate
    ensures r.employeeId == (if patch.assignee.Keep? then task.employeeId else patch.assignee.employeeId)
  {
    Task(patch.name, patch.description, patch.startDate, patch.endDate,
         if patch.assignee.Keep? then task.employeeId else patch.assignee.employeeId,
         task.createdBy, patch.status)
  }

  /** Creates one task row from the validated data under a fresh key. */
  method Store(db: Database, task: Task) returns (id: nat, outcome: Outcome)
    requires db.Valid()
    modifies db`tasks, db`nextTaskId
    ensures db.Valid()
    ensures outcome == Success
    ensures id !in old(db.tasks) && db.tasks == old(db.tasks)[id := task]
  {
    id := db.nextTaskId;
    db.tasks := db.tasks[id := task];
    db.nextTaskId := db.nextTaskId + 1;
    outcome := Success;
  }

  method Update(db: Database, id: nat, patch: UpdateTaskRequest.TaskPatch) returns (outcome: Outcome)
    requires db.Valid() && id in db.tasks
    modifies db`tasks
    ensures db.Valid()
    ensures outcome == Success
    ensures db.tasks == old(db.tasks)[id := ApplyPatch(old(db.tasks)[id], patch)]
  {
    db.tasks := db.tasks[id := ApplyPatch(db.tasks[id], patch)];
    outcome := Success;
  }

  method Destroy(db: Database, id: nat) returns (outcome: Outcome)
    requires db.Valid() && id in db.tasks
    modifies db`tasks
    ensures db.Valid()
    ensures outcome == Success
    ensures db.tasks == old(db.tasks) - {id}
  {
    db.tasks := db.tasks - {id};
    outcome := Success;
  }

  // ---------------------------------------------------------------------------
  // How the mutations show in the listing
  // ---------------------------------------------------------------------------

  /** A stored task appears in its creator's list (and in no other manager's). */
  lemma StoredTaskListedForCreator(tasks: map<nat, Task>, id: nat, task: Task, user: User)
    requires id !in tasks && IsManager(user)
    ensures id in Index(tasks[id := task], user) <==> task.createdBy == Some(user.id)
    ensures Index(tasks[id := task], user) - {id} == Index(tasks, user)
  {
  }

  /** An update never moves a task into or out of a manager's list, since created_by is kept. */
  lemma UpdateKeepsManagerView(tasks: map<nat, Task>, id: nat, patch: UpdateTaskRequest.TaskPatch, user: User)
    requires id in tasks && IsManager(user)
    ensures Index(tasks[id := ApplyPatch(tasks[id], patch)], user).Keys == Index(tasks, user).Keys
  {
  }

  /** Deleting a task removes it from every list and changes nothing else in them. */
  lemma DestroyRemovesFromEveryList(tasks: map<nat, Task>, id: nat, user: User)
    ensures Index(tasks - {id}, user) == Index(tasks, user) - {id}
  {
  }
}
