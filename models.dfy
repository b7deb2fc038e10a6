/**
 * The two document kinds of the system and the lookups the repositories and pages perform on
 * them. Employees name their department by text; departments list their members by id.
 */
module Models {
  import opened Seqs

  datatype Option<T> = None | Some(value: T)

  /** An operation that either yields a value or fails with the message of the thrown `Error`. */
  datatype Result<T> = Ok(value: T) | Err(message: string)

  /** An employee document, with the optional profile fields the forms read and write. */
  datatype Employee = Employee(
    id: string,
    name: string,
    email: string,
    department: string,
    active: bool,
    createdAt: string,
    position: Option<string>,
    admissionDate: Option<string>,
    hierarchyLevel: Option<string>,
    managerId: Option<string>,
    baseSalary: Option<int>)

  /** `EmployeeFormData`: an employee without `id` and `createdAt`. */
  datatype EmployeeFormData = EmployeeFormData(
    name: string,
    email: string,
    department: string,
    active: bool,
    position: Option<string>,
    admissionDate: Option<string>,
    hierarchyLevel: Option<string>,
    managerId: Option<string>,
    baseSalary: Option<int>)

  /** `Partial<Employee>` as callers pass it: every field optional (ids and timestamps are never passed). */
  datatype EmployeePatch = EmployeePatch(
    name: Option<string>,
    email: Option<string>,
    department: Option<string>,
    active: Option<bool>,
    position: Option<string>,
    admissionDate: Option<string>,
    hierarchyLevel: Option<string>,
    managerId: Option<string>,
    baseSalary: Option<int>)

  /** A department document. A missing `employeeIds` field is represented by the empty list. */
  datatype Department = Department(
    id: string,
    name: string,
    managerId: string,
    employeeIds: seq<string>,
    createdAt: string)

  /** `DepartmentFormData`: a department without `id` and `createdAt`. */
  datatype DepartmentFormData = DepartmentFormData(name: string, managerId: string, employeeIds: seq<string>)

  /** `Partial<Department>` as callers pass it. */
  datatype DepartmentPatch = DepartmentPatch(
    name: Option<string>,
    managerId: Option<string>,
    employeeIds: Option<seq<string>>)

  /** `{ id, ...data, createdAt }`: the document `create` writes and returns. */
  function NewEmployee(id: string, data: EmployeeFormData, createdAt: string): (e: Employee)
    ensures e.id == id && e.createdAt == createdAt
    ensures e.name == data.name && e.email == data.email && e.department == data.department
    ensures e.active == data.active && e.hierarchyLevel == data.hierarchyLevel
    ensures e.position == data.position && e.admissionDate == data.admissionDate
    ensures e.managerId == data.managerId && e.baseSalary == data.baseSalary
  {
    Employee(id, data.name, data.email, data.department, data.active, createdAt,
             data.position, data.admissionDate, data.hierarchyLevel, data.managerId, data.baseSalary)
  }

  function NewDepartment(id: string, data: DepartmentFormData, createdAt: string): (d: Department)
    ensures d.id == id && d.createdAt == createdAt
    ensures d.name == data.name && d.managerId == data.managerId && d.employeeIds == data.employeeIds
  {
    Department(id, data.name, data.managerId, data.employeeIds, createdAt)
  }

  function Pick<T>(o: Option<T>, current: T): T
  {
    match o
    case Some(v) => v
    case None => current
  }

  function PickOptional<T>(o: Option<T>, current: Option<T>): Option<T>
  {
    if o.Some? then o else current
  }

  /** `{ ...e, ...patch }`: each field present in the patch replaces the stored one. */
  function ApplyPatch(e: Employee, p: EmployeePatch): (r: Employee)
    ensures r.id == e.id && r.createdAt == e.createdAt
    ensures r.name == (if p.name.Some? then p.name.value else e.name)
    ensures r.email == (if p.email.Some? then p.email.value else e.email)
    ensures r.department == (if p.department.Some? then p.department.value else e.department)
    ensures r.active == (if p.active.Some? then p.active.value else e.active)
    ensures r.position == (if p.position.Some? then p.position else e.position)
    ensures r.admissionDate == (if p.admissionDate.Some? then p.admissionDate else e.admissionDate)
    ensures r.hierarchyLevel == (if p.hierarchyLevel.Some? then p.hierarchyLevel else e.hierarchyLevel)
    ensures r.managerId == (if p.managerId.Some? then p.managerId else e.managerId)
    ensures r.baseSalary == (if p.baseSalary.Some? then p.baseSalary else e.baseSalary)
  {
    Employee(e.id, Pick(p.name, e.name), Pick(p.email, e.email), Pick(p.department, e.department),
             Pick(p.active, e.active), e.createdAt, PickOptional(p.position, e.position),
             PickOptional(p.admissionDate, e.admissionDate), PickOptional(p.hierarchyLevel, e.hierarchyLevel),
             PickOptional(p.managerId, e.managerId), PickOptional(p.baseSalary, e.baseSalary))
  }

  /** `{ ...d, ...patch }` for departments. */
  function ApplyDepartmentPatch(d: Department, p: DepartmentPatch): (r: Department)
    ensures r.id == d.id && r.createdAt == d.createdAt
    ensures r.name == (if p.name.Some? then p.name.value else d.name)
    ensures r.managerId == (if p.managerId.Some? then p.managerId.value else d.managerId)
    ensures r.employeeIds == (if p.employeeIds.Some? then p.employeeIds.value else d.employeeIds)
  {
    Department(d.id, Pick(p.name, d.name), Pick(p.managerId, d.managerId),
               Pick(p.employeeIds, d.employeeIds), d.createdAt)
  }

  /** An empty patch changes nothing. */
  lemma EmptyPatchIsIdentity(e: Employee)
    ensures ApplyPatch(e, EmployeePatch(None, None, None, None, None, None, None, None, None)) == e
  {
  }

  // ---- keys and lookups ------------------------------------------------------------------

  function EmployeeKey(e: Employee): string { e.id }

  function DepartmentKey(d: Department): string { d.id }

  /** Document ids are unique within the employees collection. */
  ghost predicate EmployeeIdsDistinct(es: seq<Employee>)
  {
    DistinctBy(es, EmployeeKey)
  }

  /** Document ids are unique within the departments collection. */
  ghost predicate DepartmentIdsDistinct(ds: seq<Department>)
  {
    DistinctBy(ds, DepartmentKey)
  }

  /** `employees.find(emp => emp.id === id)`: the first employee with that id. */
  function FindEmployee(es: seq<Employee>, id: string): (r: Option<Employee>)
    ensures r.None? <==> forall k :: 0 <= k < |es| ==> es[k].id != id
    ensures r.Some? ==> r.value in es && r.value.id == id
    ensures r.Some? ==> exists k :: 0 <= k < |es| && es[k] == r.value && forall m :: 0 <= m < k ==> es[m].id != id
    decreases |es|
  {
    if |es| == 0 then None
    else if es[0].id == id then Some(es[0])
    else
      var r := FindEmployee(es[1..], id);
      assert forall m :: 0 < m < |es| ==> es[m] == es[1..][m - 1];
      r
  }

  /** With unique ids, the first employee with an id is the only one. */
  lemma FindEmployeeUnique(es: seq<Employee>, k: nat)
    requires EmployeeIdsDistinct(es) && k < |es|
    ensures FindEmployee(es, es[k].id) == Some(es[k])
  {
  }

  /** `where('email', '==', email)`, first document: the first employee with that email. */
  function EmployeeWithEmail(es: seq<Employee>, email: string): (r: Option<Employee>)
    ensures r.None? <==> forall k :: 0 <= k < |es| ==> es[k].email != email
    ensures r.Some? ==> r.value in es && r.value.email == email
    ensures r.Some? ==> exists k :: 0 <= k < |es| && es[k] == r.value && forall m :: 0 <= m < k ==> es[m].email != email
    decreases |es|
  {
    if |es| == 0 then None
    else if es[0].email == email then Some(es[0])
    else
      var r := EmployeeWithEmail(es[1..], email);
      assert forall m :: 0 < m < |es| ==> es[m] == es[1..][m - 1];
      r
  }

  /** `departments.find(d => d.name === name)` / `where('name', '==', name)`: position of the first match. */
  function DepartmentNamed(ds: seq<Department>, name: string): (r: Option<nat>)
    ensures r.None? <==> forall k :: 0 <= k < |ds| ==> ds[k].name != name
    ensures r.Some? ==> r.value < |ds| && ds[r.value].name == name
    ensures r.Some? ==> forall m :: 0 <= m < r.value ==> ds[m].name != name
    decreases |ds|
  {
    if |ds| == 0 then None
    else if ds[0].name == name then Some(0)
    else
      match DepartmentNamed(ds[1..], name)
      case None => None
      case Some(k) => Some(k + 1)
  }

  /** The lookup by name only reads the names. */
  lemma SameNamesSameLookup(ds: seq<Department>, ds': seq<Department>, name: string)
    requires |ds| == |ds'| && forall k :: 0 <= k < |ds| ==> ds[k].name == ds'[k].name
    ensures DepartmentNamed(ds, name) == DepartmentNamed(ds', name)
  {
  }

  /** The position of the department document with a given id. */
  function DepartmentAt(ds: seq<Department>, id: string): (r: Option<nat>)
    ensures r.None? <==> forall k :: 0 <= k < |ds| ==> ds[k].id != id
    ensures r.Some? ==> r.value < |ds| && ds[r.value].id == id
    ensures r.Some? ==> forall m :: 0 <= m < r.value ==> ds[m].id != id
    decreases |ds|
  {
    if |ds| == 0 then None
    else if ds[0].id == id then Some(0)
    else
      match DepartmentAt(ds[1..], id)
      case None => None
      case Some(k) => Some(k + 1)
  }

  /** Every employee document has its own email (the invariant the pre-checks protect). */
  ghost predicate EmailsUnique(es: seq<Employee>)
  {
    forall i, j :: 0 <= i < j < |es| ==> es[i].email != es[j].email
  }

  /** Every department document has its own name. */
  ghost predicate NamesUnique(ds: seq<Department>)
  {
    forall i, j :: 0 <= i < j < |ds| ==> ds[i].name != ds[j].name
  }
}
