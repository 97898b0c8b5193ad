# HR administration core in Dafny

This project models the business rules of a small Laravel HR application that manages
departments, employees and tasks. The database is a `Database` object (module `Schema`).
It holds one map per table, keyed by primary key. It also holds one auto-increment counter
per table and the set of paths in the file store (`"images/<name>"`).

Controller actions are methods over that object, or pure functions where the action only
reads. The modules are:

- `DepartmentController`: the unfiltered listing and the name search. Each search hit carries
  `employees_count` and `employees_sum_salary` (NULL when the department has no employees).
  Create and update are plain writes. Delete is refused while any employee belongs to the
  department.
- `EmployeeController`: the listing excludes managers, meaning employees with a null
  `manager_id`. The search is a three-way OR over the employee's own first and last name and
  the first and last name of their manager. Create, update and delete go through the
  image-upload lifecycle, written as the controller's sequence of steps. Storing the file and
  writing the row are explicit fault inputs. The result of each action is given by an effect function
  (`StoreEffect`, `UpdateEffect`), and lemmas about those functions state the guarantees.
  A failed create leaves no orphan file. A failed update does not restore the old image, so
  the row can name a file that is gone. Delete leaves the file in storage.
- `TaskController`: the role-dependent listing. A caller whose `manager_id` is null (strict
  test) sees the tasks they created. Any other caller sees the tasks assigned to them. The
  create and edit forms offer the caller's direct reports and every status case. Store,
  update and delete are plain writes. An update keeps `created_by`.
- `UpdateTaskRequest`: the rule table as predicates over the request's field map, plus
  `authorize()`, which is always true.
- `ManagerCheck`: the middleware. It uses PHP's loose `== null`, so a `manager_id` of 0 passes
  as well as null.
- `Prelude`: `Option`, the success/error outcome, substring search (`LIKE '%term%'`) and
  decimal numerals.

Behaviour worth noting:

- The employee update deletes the old image before it stores the new one.
- The middleware's test is loose, so `manager_id` 0 passes as well as null.
- Task creation stores the validated data as given. Nothing in the controller sets
  `created_by`.
- A department without employees has a NULL salary sum, not 0.

## Model

| member | source | states |
|---|---|---|
| `Prelude.ContainsIffOccurs` | app/Http/Controllers/DepartmentController.php:32 | the substring test behind `LIKE '%term%'` holds exactly when the term occurs at some offset of the column value (both directions) |
| `Prelude.NatToStringRoundTrip` | app/Http/Controllers/EmployeeController.php:48 | the decimal rendering of `time()` in a file name loses nothing: reading the digits back gives the timestamp |
| `DepartmentController.Index` | app/Http/Controllers/DepartmentController.php:18-22 | the listing holds every department with its row, unfiltered |
| `DepartmentController.EmployeesOf` | app/Http/Controllers/DepartmentController.php:33 | a department's employees are exactly the rows whose department_id is that department |
| `DepartmentController.Search` | app/Http/Controllers/DepartmentController.php:29-38 | a department is a hit iff its name contains the term; each hit carries that department's aggregates |
| `DepartmentController.Summarize` | app/Http/Controllers/DepartmentController.php:33-34 | `employees_count` is the number of the department's employees; `employees_sum_salary` is NULL exactly when that count is 0, and otherwise the sum of their salaries |
| `DepartmentController.SalarySumSplit` | app/Http/Controllers/DepartmentController.php:34 | the salary sum is a true set sum: any one employee's salary can be split off, whatever the order |
| `DepartmentController.SummaryAfterEmployeeAdded` | app/Http/Controllers/DepartmentController.php:33-34 | a new employee row in a department raises its count by one and its sum by that salary (from NULL to the salary when it had none) |
| `DepartmentController.EmptySearchListsAll` | app/Http/Controllers/DepartmentController.php:31-32 | an empty or absent term (`'%%'`) matches every department |
| `DepartmentController.NewDepartmentIsEmpty` | app/Http/Controllers/DepartmentController.php:56 | when all employee references resolve, a newly created department shows count 0 and a NULL sum |
| `DepartmentController.DestroyKeepsRefsResolved` | app/Http/Controllers/DepartmentController.php:88-97 | the guarded delete never leaves an employee referring to a missing department |
| `DepartmentController.Store` | app/Http/Controllers/DepartmentController.php:54-58 | adds exactly one department, the validated one, under a key not in use; other tables unchanged |
| `DepartmentController.Update` | app/Http/Controllers/DepartmentController.php:77-81 | replaces only the bound department's row |
| `DepartmentController.Destroy` | app/Http/Controllers/DepartmentController.php:88-97 | error iff some employee belongs to the department, and then all departments are unchanged; otherwise exactly that department is removed, with success |
| `EmployeeController.Index` | app/Http/Controllers/EmployeeController.php:21-25 | lists every employee whose manager_id is non-null, with its row, and no manager |
| `EmployeeController.Search` | app/Http/Controllers/EmployeeController.php:76-90 | an employee is a hit iff its first or last name contains the term, or its manager exists and the manager's first or last name contains it; no manager_id filter |
| `EmployeeController.SearchCanFindManager` | app/Http/Controllers/EmployeeController.php:80-87 | a manager whose name matches is found by the search but not shown by the listing |
| `EmployeeController.EmptySearchListsAll` | app/Http/Controllers/EmployeeController.php:80-87 | an empty or absent term lists every employee |
| `EmployeeController.FirstDot` | app/Http/Controllers/EmployeeController.php:48 | finds the separator between the timestamp and the extension: no '.' before it, a '.' at it |
| `EmployeeController.ImageNameRoundTrip` | app/Http/Controllers/EmployeeController.php:48 | a generated name has the shape `<integer>.<extension>` and parses back to the timestamp and the original extension |
| `EmployeeController.ImageNamesCollideIff` | app/Http/Controllers/EmployeeController.php:48 | two uploads get the same name exactly when they share the second and the extension |
| `EmployeeController.Store` | app/Http/Controllers/EmployeeController.php:44-68 | stepping through name choice, file store, row create and the catch block gives exactly `StoreEffect` on rows, files and outcome |
| `EmployeeController.StoreWithImage` | app/Http/Controllers/EmployeeController.php:47-54 | a create with an image that goes through names the file `<time>.<extension>`, adds `images/<name>` to storage and adds exactly one row, whose image is that name |
| `EmployeeController.StoreWithoutImageKeepsStorage` | app/Http/Controllers/EmployeeController.php:55-57 | a create without an image never changes storage; when the row write goes through it succeeds and adds exactly one row, built from the validated data with no image |
| `EmployeeController.FailedStoreLeavesNoOrphan` | app/Http/Controllers/EmployeeController.php:60-66 | a failed create adds no row and no file, and nothing remains stored under the chosen name |
| `EmployeeController.Update` | app/Http/Controllers/EmployeeController.php:111-141 | stepping through the old-file delete, new-file store, row update and catch block gives exactly `UpdateEffect` |
| `EmployeeController.UpdateWithImage` | app/Http/Controllers/EmployeeController.php:114-127 | an update with an image that goes through stores the new file and names it in the row; the old file is deleted |
| `EmployeeController.FailedUpdateLeavesDanglingImage` | app/Http/Controllers/EmployeeController.php:114-139 | a failed update keeps the row, removes the new file and does not restore the old one, so the row names a file no longer stored |
| `EmployeeController.Destroy` | app/Http/Controllers/EmployeeController.php:149-153 | removes exactly that row, unconditionally, and leaves storage unchanged |
| `TaskController.Index` | app/Http/Controllers/TaskController.php:18-31 | a caller with null manager_id gets exactly the tasks they created; any other caller gets exactly the tasks assigned to them |
| `TaskController.ManagerSeesOnlyAuthoredTasks` | app/Http/Controllers/TaskController.php:24-29 | the branches do not mix: a task assigned to a manager but not created by them is not in the manager's list |
| `TaskController.DirectReports` | app/Http/Controllers/TaskController.php:41 | the assignee choices are exactly the employees whose manager_id is the caller's id |
| `TaskController.StatusCases` | app/Http/Controllers/TaskController.php:42 | the status choices are the three cases, each once |
| `TaskController.CreateForm` | app/Http/Controllers/TaskController.php:39-43 | the create form offers the caller's direct reports and every status |
| `TaskController.EditForm` | app/Http/Controllers/TaskController.php:62-66 | the edit form offers the same choices as the create form, with the task |
| `TaskController.OfferedStatusesValidate` | app/Http/Controllers/TaskController.php:65 | every status the forms offer passes the update rule for status |
| `TaskController.ApplyPatch` | app/Http/Controllers/TaskController.php:76-79 | the update writes the six validated fields, keeps the assignee when employee_id was absent, and keeps created_by |
| `TaskController.Store` | app/Http/Controllers/TaskController.php:52-55 | adds exactly one task, the validated one, under a fresh key; nothing else changes |
| `TaskController.Update` | app/Http/Controllers/TaskController.php:76-79 | changes only the bound task, as `ApplyPatch` |
| `TaskController.Destroy` | app/Http/Controllers/TaskController.php:88-91 | removes only the bound task |
| `TaskController.StoredTaskListedForCreator` | app/Http/Controllers/TaskController.php:52-55 | a stored task joins a manager's list iff that manager created it; the rest of the list is unchanged |
| `TaskController.UpdateKeepsManagerView` | app/Http/Controllers/TaskController.php:76-79 | an update never moves a task into or out of a manager's list |
| `TaskController.DestroyRemovesFromEveryList` | app/Http/Controllers/TaskController.php:88-91 | after a delete every caller's list is the old list without that task |
| `UpdateTaskRequest.Authorize` | app/Http/Requests/Tasks/UpdateTaskRequest.php:12-15 | authorisation always succeeds |
| `UpdateTaskRequest.Validated` | app/Http/Requests/Tasks/UpdateTaskRequest.php:22-31 | validated data exists iff every rule passes; it then carries the name and description (at most 255 characters), the two dates, the status case and the assignee change: kept when employee_id is absent, cleared when null, otherwise the existing employee it names |
| `UpdateTaskRequest.KeyOf` | app/Http/Requests/Tasks/UpdateTaskRequest.php:29 | a non-negative integer or a non-empty digit string names the key it denotes; nothing else (null, a negative integer, the empty string, a string with a non-digit) names a key |
| `UpdateTaskRequest.PostedEmployeeIdAssigns` | app/Http/Requests/Tasks/UpdateTaskRequest.php:29 | the decimal string a form posts for an existing employee passes `exists:employees,id` and assigns exactly that employee |
| `UpdateTaskRequest.NameLengthBoundary` | app/Http/Requests/Tasks/UpdateTaskRequest.php:25 | a 255-character name passes the length rule and a 256-character one fails |
| `UpdateTaskRequest.DatesAreUnordered` | app/Http/Requests/Tasks/UpdateTaskRequest.php:27-28 | no order between start_date and end_date is enforced: swapping them keeps a request valid |
| `UpdateTaskRequest.AssigneeIsNullable` | app/Http/Requests/Tasks/UpdateTaskRequest.php:29 | a valid request stays valid with employee_id null |
| `UpdateTaskRequest.ParseStatus` | app/Http/Requests/Tasks/UpdateTaskRequest.php:30 | a string accepted as a status is the backing value of the case it yields |
| `UpdateTaskRequest.ParseStatusRoundTrip` | app/Http/Requests/Tasks/UpdateTaskRequest.php:30 | every status case is accepted back from its backing string |
| `UpdateTaskRequest.StatusRuleMatchesCases` | app/Http/Requests/Tasks/UpdateTaskRequest.php:30 | the `in:pending,in_progress,done` rule admits exactly the backing strings of the status cases |
| `ManagerCheck.Handle` | app/Http/Middleware/ManagerCheck.php:16-23 | the request is forwarded to the next handler, unchanged, iff manager_id is loosely null; otherwise a 404 abort, with no call to the next handler |
| `ManagerCheck.DecisionIgnoresRequest` | app/Http/Middleware/ManagerCheck.php:18 | the decision depends on the caller's manager_id only |
| `ManagerCheck.ListingManagersPass` | app/Http/Middleware/ManagerCheck.php:18-19 | every caller that the task listing treats as a manager is let through |
| `ManagerCheck.ZeroManagerIdPassesButListsAsEmployee` | app/Http/Middleware/ManagerCheck.php:18 | with manager_id 0 the loose guard lets the caller through, while the strict test of the task listing shows them their assigned tasks |

## Left out

- File I/O is a set of paths: `storeAs` adds a path and `Storage::delete` removes one. File contents are not modelled.
- `storeAs` reports a failure by returning false unless the disk is set to throw. The model treats a storage failure as an exception caught by the controller's catch block.
- Deleting the old image during an update is not a fault input. Only storing the file and writing the row can fail.
- `time()` is the parameter `now`.
- The database is not modelled: no transactions, no foreign-key constraints and no SQL. For example, the model does not say what the database does with tasks or reports of a deleted employee.
- New keys come from a per-table counter that moves only on a successful insert.
- Requests are sequential. Two concurrent uploads in the same second are not modelled; `ImageNamesCollideIff` states when their names would coincide.
- SQL `LIKE` is modelled as plain, case-sensitive substring containment. Collation, case folding, and `%` or `_` inside the term are left out.
- Authentication, routing, route-model binding, redirects and flash messages are left out. The bound row is a `requires` that the key is in its table, and each action's result is reduced to `Success` or `Error`.
- The rendering of views is left out, including `resources/views/employees/create.blade.php`. This covers the form-only actions `EmployeeController.create`/`edit` and `DepartmentController.create`/`edit`.
- The other form requests (employee and department forms, task creation) are not part of this model. Their validated data is an opaque input: `EmployeeFields`, `Department`, `Task`. The employee form is assumed not to carry the image column itself. The employee's account columns (`password` and its confirmation, posted by the employee form) are not part of `EmployeeFields`.
- Date parsing behind the `date` rule is the opaque predicate `isDate`, applied to string input only; the rule's acceptance of numeric (non-string) values is not modelled.
- The database check behind `exists:employees,id` is membership in the set of employee keys. An `employee_id` names a key as an integer or as a string of decimal digits; other strings the database might coerce (signs, decimals, exponents) are not modelled. Input is taken after the framework's trimming and empty-string-to-null conversion.
- A department row holds only its name; the department's manager relation, which no modelled action reads, is not part of the model.
- Salaries are unbounded integers, not decimals.
