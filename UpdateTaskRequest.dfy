/**
 * The validation of a task update: an always-true authorisation and a fixed rule table.
 *
 * The input is the request's field map after the framework's trimming and empty-to-null
 * conversion. Whether a string is a date is the opaque `isDate`; the `exists` rule is
 * membership of `staffIds`, the keys of the employee table.
 */
module UpdateTaskRequest {
  import opened Prelude
  import opened Schema

  datatype Value = Null | Str(s: string) | Int(i: int)

  type Input = map<string, Value>

  const MaxLength: nat := 255

  /** The `required` rule: present, not null, not the empty string. */
  predicate Required(input: Input, key: string)
  {
    key in input && input[key] != Null && input[key] != Str("")
  }

  /** Required, a string, and at most 255 characters long. */
  predicate BoundedText(input: Input, key: string)
  {
    Required(input, key) && input[key].Str? && |input[key].s| <= MaxLength
  }

  /** Required, a string, and one that `isDate` reads as a date. */
  predicate RequiredDate(input: Input, key: string, isDate: string -> bool)
  {
    Required(input, key) && input[key].Str? && isDate(input[key].s)
  }

  /** The key an integer or a numeric string names, if it names one. */
  function KeyOf(v: Value): (r: Option<nat>)
    ensures v.Int? && v.i >= 0 ==> r == Some(v.i as nat)
    ensures v.Str? && v.s != "" && AllDigits(v.s) ==> r == Some(DigitsToNat(v.s))
    ensures v.Null? ==> r == None
    ensures r.Some? ==> (v.Int? && v.i >= 0) || (v.Str? && v.s != "" && AllDigits(v.s))
  {
    match v
    case Int(i) => if i >= 0 then Some(i as nat) else None
    case Str(s) => if s != "" && AllDigits(s) then Some(DigitsToNat(s)) else None
    case Null => None
  }

  /**
   * May be absent or null; otherwise it must name an existing employee, given as an integer
   * or as the numeric string an HTML form posts.
   */
  predicate NullableEmployee(input: Input, key: string, staffIds: set<nat>)
  {
    key !in input || input[key] == Null || (KeyOf(input[key]).Some? && KeyOf(input[key]).value in staffIds)
  }

  /** The backed case whose string is `s`, if any. */
  function ParseStatus(s: string): (r: Option<TaskStatus>)
    ensures r.Some? ==> r.value.Value() == s
  {
    if s == "pending" then Some(Pending)
    else if s == "in_progress" then Some(InProgress)
    else if s == "done" then Some(Done)
    else None
  }

  /** Every status case is accepted back from its own string. */
  lemma ParseStatusRoundTrip(status: TaskStatus)
    ensures ParseStatus(status.Value()) == Some(status)
  {
  }

  /** Required, a string, and one of the three status strings. */
  predicate RequiredStatus(input: Input, key: string)
  {
    Required(input, key) && input[key].Str? && input[key].s in {"pending", "in_progress", "done"}
  }

  /** The status rule admits exactly the backing strings of the status cases. */
  lemma StatusRuleMatchesCases(input: Input)
    ensures RequiredStatus(input, "status") <==>
            ("status" in input && input["status"].Str? && ParseStatus(input["status"].s).Some?)
  {
  }

  function Authorize(): (r: bool)
    ensures r
  {
    true
  }

  /** The whole rule table. */
  predicate Passes(input: Input, isDate: string -> bool, staffIds: set<nat>)
  {
    && BoundedText(input, "name")
    && BoundedText(input, "description")
    && RequiredDate(input, "start_date", isDate)
    && RequiredDate(input, "end_date", isDate)
    && NullableEmployee(input, "employee_id", staffIds)
    && RequiredStatus(input, "status")
  }

  /** How the validated `employee_id` changes the assignee: an absent key leaves it alone. */
  datatype AssigneeChange = Keep | SetTo(employeeId: Option<nat>)

  /** The validated data: the six fields of the rule table. */
  datatype TaskPatch = TaskPatch(
    name: string,
    description: string,
    startDate: string,
    endDate: string,
    assignee: AssigneeChange,
    status: TaskStatus)

  /** The validated data when the request passes, nothing otherwise. */
  function Validated(input: Input, isDate: string -> bool, staffIds: set<nat>): (r: Option<TaskPatch>)
    ensures r.Some? <==> Authorize() && Passes(input, isDate, staffIds)
    ensures r.Some? ==>
              && r.value.name == input["name"].s && |r.value.name| <= MaxLength
              && r.value.description == input["description"].s && |r.value.description| <= MaxLength
              && r.value.startDate == input["start_date"].s && isDate(r.value.startDate)
              && r.value.endDate == input["end_date"].s && isDate(r.value.endDate)
              && r.value.status.Value() == input["status"].s
              && (r.value.assignee == Keep <==> "employee_id" !in input)
              && ("employee_id" in input ==> r.value.assignee == SetTo(KeyOf(input["employee_id"])))
              && (r.value.assignee.SetTo? && r.value.assignee.employeeId.Some? ==> r.value.assignee.employeeId.value in staffIds)
  {
    if !(Authorize() && Passes(input, isDate, staffIds)) then None
    else
      var assignee :=
        if "employee_id" !in input then Keep
        else if input["employee_id"] == Null then SetTo(None)
        else SetTo(KeyOf(input["employee_id"]));
      Some(TaskPatch(input["name"].s, input["description"].s, input["start_date"].s, input["end_date"].s,
                     assignee, ParseStatus(input["status"].s).value))
  }

  /** The numeric string a form posts for an existing employee passes and assigns that employee. */
  lemma {:induction false} PostedEmployeeIdAssigns(input: Input, isDate: string -> bool, staffIds: set<nat>, n: nat)
    requires Passes(input, isDate, staffIds) && n in staffIds
    ensures var posted := input["employee_id" := Str(NatToString(n))];
            Validated(posted, isDate, staffIds) == Some(Validated(input, isDate, staffIds).value.(assignee := SetTo(Some(n))))
  {
    NatToStringRoundTrip(n);
  }

  /** No order between the dates is enforced: swapping them keeps a passing request passing. */
  lemma DatesAreUnordered(input: Input, isDate: string -> bool, staffIds: set<nat>)
    requires Passes(input, isDate, staffIds)
    ensures Passes(input["start_date" := input["end_date"]]["end_date" := input["start_date"]], isDate, staffIds)
  {
  }

  /** The assignee may always be cleared: a passing request still passes with `employee_id` null. */
  lemma AssigneeIsNullable(input: Input, isDate: string -> bool, staffIds: set<nat>)
    requires Passes(input, isDate, staffIds)
    ensures Passes(input["employee_id" := Null], isDate, staffIds)
  {
  }

  /** A name of 255 characters passes the length rule, one of 256 does not. */
  lemma NameLengthBoundary(input: Input, short: string, long: string)
    requires |short| == 255 && |long| == 256
    ensures BoundedText(input["name" := Str(short)], "name")
    ensures !BoundedText(input["name" := Str(long)], "name")
  {
  }
}
