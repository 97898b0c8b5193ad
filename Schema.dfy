/**
 * The application's tables and its image storage.
 *
 * Each table is a map from primary key to row. The database hands out keys from an
 * auto-increment counter per table, so every key in use lies below its counter.
 * The file store is the set of paths it currently holds ("images/<name>").
 */
module Schema {
  import opened Prelude

  /** A department row; its name is the one column the controllers read. */
  datatype Department = Department(name: string)

  /**
   * The columns of an employee row that the employee forms validate and the model keeps:
   * names, contact details, salary and the two references. The image is set by the
   * controller; the account's password is not modelled.
   */
  datatype EmployeeFields = EmployeeFields(
    firstName: string,
    lastName: string,
    email: string,
    phone: string,
    salary: int,
    departmentId: Option<nat>,
    managerId: Option<nat>)

  /** An employee row. A null `managerId` is what makes an employee a manager. */
  datatype Employee = Employee(
    firstName: string,
    lastName: string,
    email: string,
    phone: string,
    salary: int,
    departmentId: Option<nat>,
    managerId: Option<nat>,
    image: Option<string>)

  /** The row that mass assignment of `f` gives, with `image` as the image column. */
  function WithFields(f: EmployeeFields, image: Option<string>): (e: Employee)
  {
    Employee(f.firstName, f.lastName, f.email, f.phone, f.salary, f.departmentId, f.managerId, image)
  }

  /** The task status enumeration and its backing strings. */
  datatype TaskStatus = Pending | InProgress | Done
  {
    function Value(): string
    {
      match this
      case Pending => "pending"
      case InProgress => "in_progress"
      case Done => "done"
    }
  }

  datatype Task = Task(
    name: string,
    description: string,
    startDate: string,
    endDate: string,
    employeeId: Option<nat>,
    createdBy: Option<nat>,
    status: TaskStatus)

  /** The authenticated account: the key and the manager_id of its employee row. */
  datatype User = User(id: nat, managerId: Option<nat>)

  class Database {
    var departments: map<nat, Department>
    var employees: map<nat, Employee>
    var tasks: map<nat, Task>
    var images: set<string>
    var nextDepartmentId: nat
    var nextEmployeeId: nat
    var nextTaskId: nat

    /** Every key in use was handed out by its table's counter. */
    ghost predicate Valid()
      reads this
    {
      && (forall k | k in departments :: k < nextDepartmentId)
      && (forall k | k in employees :: k < nextEmployeeId)
      && (forall k | k in tasks :: k < nextTaskId)
    }

    constructor ()
      ensures Valid()
      ensures departments == map[] && employees == map[] && tasks == map[] && images == {}
    {
      departments, employees, tasks, images := map[], map[], map[], {};
      nextDepartmentId, nextEmployeeId, nextTaskId := 1, 1, 1;
    }
  }
}
