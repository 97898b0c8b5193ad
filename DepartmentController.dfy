/** Department listing, search with employee aggregates, and guarded deletion. */
module DepartmentController {
  import opened Prelude
  import opened Schema

  // ---------------------------------------------------------------------------
  // Queries
  // ---------------------------------------------------------------------------

  /** The listing shows every department, unfiltered. */
  function Index(departments: map<nat, Department>): (r: map<nat, Department>)
    ensures r.Keys == departments.Keys
    ensures forall id | id in r :: r[id] == departments[id]
  {
    departments
  }

  /** The keys of the employees assigned to department `d`. */
  function EmployeesOf(employees: map<nat, Employee>, d: nat): (ids: set<nat>)
    ensures ids <= employees.Keys
    ensures forall k | k in employees :: k in ids <==> employees[k].departmentId == Some(d)
  {
    set k | k in employees && employees[k].departmentId == Some(d)
  }

  /** The total salary of the employees with keys `ids`. */
  function SalarySum(employees: map<nat, Employee>, ids: set<nat>): int
    requires ids <= employees.Keys
    decreases ids
  {
    if ids == {} then 0
    else
      var k := Greatest(ids);
      employees[k].salary + SalarySum(employees, ids - {k})
  }

  /** The sum does not depend on the order the keys are taken in: any one can be split off. */
  lemma {:induction false} SalarySumSplit(employees: map<nat, Employee>, ids: set<nat>, k: nat)
    requires ids <= employees.Keys && k in ids
    ensures SalarySum(employees, ids) == employees[k].salary + SalarySum(employees, ids - {k})
    decreases ids
  {
    var g := Greatest(ids);
    if g != k {
      SalarySumSplit(employees, ids - {g}, k);
      assert ids - {g} - {k} == ids - {k} - {g};
      SalarySumSplit(employees, ids - {k}, g);
    }
  }

  /** The sum over `ids` only reads the rows of `ids`. */
  lemma {:induction false} SalarySumFrame(e1: map<nat, Employee>, e2: map<nat, Employee>, ids: set<nat>)
    requires ids <= e1.Keys && ids <= e2.Keys
    requires forall k | k in ids :: e1[k].salary == e2[k].salary
    ensures SalarySum(e1, ids) == SalarySum(e2, ids)
    decreases ids
  {
    if ids != {} {
      SalarySumFrame(e1, e2, ids - {Greatest(ids)});
    }
  }

  /** A search hit: the department with its `employees_count` and `employees_sum_salary`. */
  datatype Summary = Summary(department: Department, employeesCount: nat, employeesSumSalary: Option<int>)

  /** The aggregates SQL computes for department `d`; a sum over no rows is NULL. */
  function Summarize(employees: map<nat, Employee>, d: nat, department: Department): (s: Summary)
    ensures s.department == department
    ensures s.employeesCount == |EmployeesOf(employees, d)|
    ensures s.employeesSumSalary.None? <==> s.employeesCount == 0
    ensures s.employeesCount > 0 ==> s.employeesSumSalary == Some(SalarySum(employees, EmployeesOf(employees, d)))
  {
    var ids := EmployeesOf(employees, d);
    Summary(department, |ids|, if ids == {} then None else Some(SalarySum(employees, ids)))
  }

  /** The departments whose name contains `term`, each with its employee aggregates. */
  function Search(departments: map<nat, Department>, employees: map<nat, Employee>, term: string)
    : (r: map<nat, Summary>)
    ensures forall id :: id in r <==> id in departments && Contains(departments[id].name, term)
    ensures forall id | id in r :: r[id] == Summarize(employees, id, departments[id])
  {
    map id | id in departments && Contains(departments[id].name, term) :: Summarize(employees, id, departments[id])
  }

  /** An empty (or absent) search term, `LIKE '%%'`, lists every department. */
  lemma EmptySearchListsAll(departments: map<nat, Department>, employees: map<nat, Employee>)
    ensures Search(departments, employees, "").Keys == departments.Keys
  {
    forall d | d in departments
      ensures Contains(departments[d].name, "")
    {
      EmptyTermMatches(departments[d].name);
    }
  }

  /**
   * Adding an employee row under a fresh key to department `d` raises that department's
   * count by one and its salary sum by the new salary (from NULL when it had none).
   */
  lemma SummaryAfterEmployeeAdded(employees: map<nat, Employee>, n: nat, e: Employee, d: nat, department: Department)
    requires n !in employees && e.departmentId == Some(d)
    ensures var before := Summarize(employees, d, department);
            var after := Summarize(employees[n := e], d, department);
            && after.employeesCount == before.employeesCount + 1
            && after.employeesSumSalary == Some(e.salary + before.employeesSumSalary.GetOr(0))
  {
    var e2 := employees[n := e];
    var ids, ids2 := EmployeesOf(employees, d), EmployeesOf(e2, d);
    assert ids2 == ids + {n};
    assert ids2 - {n} == ids;
    SalarySumSplit(e2, ids2, n);
    SalarySumFrame(e2, employees, ids);
  }

  /** Every employee's department exists. */
  ghost predicate DepartmentRefsResolve(departments: map<nat, Department>, employees: map<nat, Employee>)
  {
    forall k | k in employees && employees[k].departmentId.Some? :: employees[k].departmentId.value in departments
  }

  /** Where every reference resolves, a department that is not stored yet has no employees. */
  lemma NewDepartmentIsEmpty(departments: map<nat, Department>, employees: map<nat, Employee>, d: nat, department: Department)
    requires DepartmentRefsResolve(departments, employees) && d !in departments
    ensures Summarize(employees, d, department) == Summary(department, 0, None)
  {
  }

  /** The guarded delete can never leave an employee pointing at a missing department. */
  lemma DestroyKeepsRefsResolved(departments: map<nat, Department>, employees: map<nat, Employee>, d: nat)
    requires DepartmentRefsResolve(departments, employees)
    requires !HasEmployees(employees, d)
    ensures DepartmentRefsResolve(departments - {d}, employees)
  {
  }

  // ---------------------------------------------------------------------------
  // Mutations
  // ---------------------------------------------------------------------------

  /** Whether at least one employee belongs to department `d`. */
  predicate HasEmployees(employees: map<nat, Employee>, d: nat)
  {
    exists k | k in employees :: employees[k].departmentId == Some(d)
  }

  /** Creates one department row from the validated fields under a fresh key. */
  method Store(db: Database, department: Department) returns (id: nat, outcome: Outcome)
    requires db.Valid()
    modifies db`departments, db`nextDepartmentId
    ensures db.Valid()
    ensures outcome == Success
    ensures id !in old(db.departments) && db.departments == old(db.departments)[id := department]
  {
    id := db.nextDepartmentId;
    db.departments := db.departments[id := department];
    db.nextDepartmentId := db.nextDepartmentId + 1;
    outcome := Success;
  }

  /** Replaces the validated fields of the bound department; nothing else changes. */
  method Update(db: Database, id: nat, department: Department) returns (outcome: Outcome)
    requires db.Valid() && id in db.departments
    modifies db`departments
    ensures db.Valid()
    ensures outcome == Success
    ensures db.departments == old(db.departments)[id := department]
  {
    db.departments := db.departments[id := department];
    outcome := Success;
  }

  /** Deletes the bound department unless an employee still belongs to it. */
  method Destroy(db: Database, id: nat) returns (outcome: Outcome)
    requires db.Valid() && id in db.departments
    modifies db`departments
    ensures db.Valid()
    ensures outcome == Error <==> HasEmployees(db.employees, id)
    ensures outcome == Error ==> db.departments == old(db.departments)
    ensures outcome == Success ==> db.departments == old(db.departments) - {id}
  {
    if HasEmployees(db.employees, id) {
      return Error;
    }
    db.departments := db.departments - {id};
    outcome := Success;
  }
}
