/**
 * `EmployeeRepository`: employee documents plus the membership bookkeeping that keeps
 * department `employeeIds` lists in step with them. Creating and updating check that the
 * email is free; creating and moving an employee add its id to the department named by its
 * `department` text; deleting removes the id from every department first.
 *
 * A store read or write that fails is a flag parameter. The membership helpers used by
 * `create` and `update` swallow their failures; the one used by `delete` does not.
 */
module EmployeeRepository {
  import opened Seqs
  import opened Models
  import opened DocumentStore

  /** The error `create` and `update` throw for an email held by another employee. */
  const DuplicateEmail: string := "Já existe um colaborador cadastrado com este e-mail"

  /** The error of a store read or write that fails; the model does not distinguish causes. */
  const StoreFailure: string := "unavailable"

  // ---- membership writes --------------------------------------------------------------------

  /** `syncWithDepartment`: `arrayUnion` into the first department with that name, if any. */
  function JoinDepartment(ds: seq<Department>, id: string, name: string): (r: seq<Department>)
    ensures |r| == |ds|
    ensures forall k :: 0 <= k < |ds| ==> r[k].id == ds[k].id && r[k].name == ds[k].name
    ensures DepartmentNamed(ds, name).None? ==> r == ds
  {
    match DepartmentNamed(ds, name)
    case None => ds
    case Some(j) => UpdateIds(ds, ds[j].id, Union(id))
  }

  /** `unsyncFromDepartment`: `arrayRemove` from the first department with that name, if any. */
  function LeaveDepartment(ds: seq<Department>, id: string, name: string): (r: seq<Department>)
    ensures |r| == |ds|
    ensures forall k :: 0 <= k < |ds| ==> r[k].id == ds[k].id && r[k].name == ds[k].name
    ensures DepartmentNamed(ds, name).None? ==> r == ds
  {
    match DepartmentNamed(ds, name)
    case None => ds
    case Some(j) => UpdateIds(ds, ds[j].id, Remove(id))
  }

  /**
   * Joining lists the id in the first department with that name, exactly once when it was
   * not listed there before, keeps that department's list as a prefix and every other id's
   * count, and touches no other department.
   */
  lemma JoinDepartmentEffect(ds: seq<Department>, id: string, name: string, j: nat)
    requires DepartmentIdsDistinct(ds) && DepartmentNamed(ds, name) == Some(j)
    ensures id in JoinDepartment(ds, id, name)[j].employeeIds
    ensures id !in ds[j].employeeIds ==> multiset(JoinDepartment(ds, id, name)[j].employeeIds)[id] == 1
    ensures forall y :: y != id ==> multiset(JoinDepartment(ds, id, name)[j].employeeIds)[y] == multiset(ds[j].employeeIds)[y]
    ensures |ds[j].employeeIds| <= |JoinDepartment(ds, id, name)[j].employeeIds|
    ensures JoinDepartment(ds, id, name)[j].employeeIds[..|ds[j].employeeIds|] == ds[j].employeeIds
    ensures forall k :: 0 <= k < |ds| && k != j ==> JoinDepartment(ds, id, name)[k] == ds[k]
  {
    UpdateIdsAt(ds, j, Union(id));
  }

  /** Leaving unlists the id from the first department with that name and touches nothing else. */
  lemma LeaveDepartmentEffect(ds: seq<Department>, id: string, name: string, j: nat)
    requires DepartmentIdsDistinct(ds) && DepartmentNamed(ds, name) == Some(j)
    ensures id !in LeaveDepartment(ds, id, name)[j].employeeIds
    ensures forall y :: y != id ==> multiset(LeaveDepartment(ds, id, name)[j].employeeIds)[y] == multiset(ds[j].employeeIds)[y]
    ensures forall k :: 0 <= k < |ds| && k != j ==> LeaveDepartment(ds, id, name)[k] == ds[k]
  {
    UpdateIdsAt(ds, j, Remove(id));
  }

  /** `removeFromDepartments`: `arrayRemove` on every department whose list includes the id. */
  function WithoutMember(ds: seq<Department>, id: string): (r: seq<Department>)
    ensures |r| == |ds|
    ensures forall k :: 0 <= k < |ds| ==>
      r[k].id == ds[k].id && r[k].name == ds[k].name && r[k].managerId == ds[k].managerId && r[k].createdAt == ds[k].createdAt
    ensures forall k :: 0 <= k < |ds| ==> id !in r[k].employeeIds
    ensures forall k, y :: 0 <= k < |ds| && y != id ==> multiset(r[k].employeeIds)[y] == multiset(ds[k].employeeIds)[y]
  {
    seq(|ds|, k requires 0 <= k < |ds| =>
      if id in ds[k].employeeIds then ds[k].(employeeIds := ArrayRemove(ds[k].employeeIds, id)) else ds[k])
  }

  /** `removeFromDepartments` for each id in turn, as the loop of `deleteMultiple` runs it. */
  function WithoutMembers(ds: seq<Department>, ids: seq<string>): (r: seq<Department>)
    ensures |r| == |ds|
    ensures forall k :: 0 <= k < |ds| ==> r[k].id == ds[k].id && r[k].name == ds[k].name
    ensures forall k, x :: 0 <= k < |ds| && x in ids ==> x !in r[k].employeeIds
    ensures forall k, y :: 0 <= k < |ds| && y !in ids ==> multiset(r[k].employeeIds)[y] == multiset(ds[k].employeeIds)[y]
    decreases |ids|
  {
    if |ids| == 0 then ds
    else
      var init, last := ids[..|ids| - 1], ids[|ids| - 1];
      assert ids == init + [last];
      WithoutMember(WithoutMembers(ds, init), last)
  }

  /**
   * `update` moves membership: afterwards the employee is unlisted from the first department
   * with the old name and listed in the first department with the new name; nothing else
   * changes.
   */
  lemma MoveMembership(ds: seq<Department>, id: string, from: string, to: string)
    requires DepartmentIdsDistinct(ds) && from != to
    ensures var r := JoinDepartment(LeaveDepartment(ds, id, from), id, to);
      (DepartmentNamed(ds, from).Some? ==> id !in r[DepartmentNamed(ds, from).value].employeeIds) &&
      (DepartmentNamed(ds, to).Some? ==> id in r[DepartmentNamed(ds, to).value].employeeIds) &&
      forall k :: 0 <= k < |ds| && Some(k) != DepartmentNamed(ds, from) && Some(k) != DepartmentNamed(ds, to) ==> r[k] == ds[k]
  {
    var left := LeaveDepartment(ds, id, from);
    SameNamesSameLookup(ds, left, to);
    assert DepartmentIdsDistinct(left) by {
      forall a, b | 0 <= a < b < |left| ensures DepartmentKey(left[a]) != DepartmentKey(left[b]) {
        assert DepartmentKey(ds[a]) != DepartmentKey(ds[b]);
      }
    }
    if DepartmentNamed(ds, from).Some? {
      LeaveDepartmentEffect(ds, id, from, DepartmentNamed(ds, from).value);
    }
    if DepartmentNamed(ds, to).Some? {
      JoinDepartmentEffect(left, id, to, DepartmentNamed(ds, to).value);
    }
  }

  // ---- the checks of `update` ---------------------------------------------------------------

  /**
   * Lines 56-60: a non-empty email in the patch that the first employee with it holds under
   * another id. Some other employee always holds it then; with unique emails, that is also
   * enough.
   */
  function EmailTakenByOther(es: seq<Employee>, email: Option<string>, id: string): (taken: bool)
    ensures taken ==> email.Some? && email.value != ""
    ensures taken ==> exists k :: 0 <= k < |es| && es[k].email == email.value && es[k].id != id
    ensures EmailsUnique(es) && email.Some? && email.value != "" ==>
      (taken <==> exists k :: 0 <= k < |es| && es[k].email == email.value && es[k].id != id)
  {
    email.Some? && email.value != "" &&
    match EmployeeWithEmail(es, email.value)
    case Some(other) => other.id != id
    case None => false
  }

  /**
   * Lines 63-68: the department `update` moves the employee out of, if any: only for a
   * non-empty new department that differs from the stored one. `findById` is not defined in
   * the repository class; it is read here as the lookup of the employee by id.
   */
  function MoveFrom(es: seq<Employee>, id: string, department: Option<string>): (r: Option<string>)
    ensures r.Some? ==> department.Some? && department.value != "" && r.value != department.value
    ensures r.Some? <==> (department.Some? && department.value != "" &&
      FindEmployee(es, id).Some? && FindEmployee(es, id).value.department != department.value)
  {
    if department.Some? && department.value != "" then
      match FindEmployee(es, id)
      case Some(current) => if current.department != department.value then Some(current.department) else None
      case None => None
    else None
  }

  /**
   * The departments after the membership move, each half skipped when its write fails: a
   * write that goes through unlists the id from every department with the old name's id,
   * or lists it in every one with the new name's id.
   */
  function Moved(ds: seq<Department>, id: string, from: string, to: string, unsyncFails: bool, syncFails: bool): (r: seq<Department>)
    ensures |r| == |ds|
    ensures forall k :: 0 <= k < |ds| ==> r[k].id == ds[k].id && r[k].name == ds[k].name
    ensures unsyncFails && syncFails ==> r == ds
    ensures !syncFails && DepartmentNamed(ds, to).Some? ==> id in r[DepartmentNamed(ds, to).value].employeeIds
    ensures !unsyncFails && syncFails && DepartmentNamed(ds, from).Some? ==>
      id !in r[DepartmentNamed(ds, from).value].employeeIds
  {
    var left := if unsyncFails then ds else LeaveDepartment(ds, id, from);
    SameNamesSameLookup(ds, left, to);
    if syncFails then left else JoinDepartment(left, id, to)
  }

  /** Whether `update` gets past lines 56-61: the email lookup, when made, answers, and no other employee holds the email. */
  predicate PassesEmailCheck(es: seq<Employee>, id: string, patch: EmployeePatch, lookupFails: bool)
  {
    !(patch.email.Some? && patch.email.value != "" && lookupFails) && !EmailTakenByOther(es, patch.email, id)
  }

  /**
   * What `update` returns, reading line 64 as the lookup of the employee by id: the failing
   * email lookup, the duplicate email, the failing final write, or not-found for an unknown
   * id; success otherwise.
   */
  function UpdateOutcome(es: seq<Employee>, id: string, patch: EmployeePatch, lookupFails: bool, writeFails: bool): (r: Result<()>)
    ensures r == Err(DuplicateEmail) <==> !(patch.email.Some? && patch.email.value != "" && lookupFails) && EmailTakenByOther(es, patch.email, id)
    ensures r == Err(NotFound) <==> PassesEmailCheck(es, id, patch, lookupFails) && !writeFails && FindEmployee(es, id).None?
    ensures r.Ok? <==> PassesEmailCheck(es, id, patch, lookupFails) && !writeFails && FindEmployee(es, id).Some?
  {
    assert NotFound != DuplicateEmail && StoreFailure != DuplicateEmail && StoreFailure != NotFound;
    if patch.email.Some? && patch.email.value != "" && lookupFails then Err(StoreFailure)
    else if EmailTakenByOther(es, patch.email, id) then Err(DuplicateEmail)
    else if writeFails then Err(StoreFailure)
    else if FindEmployee(es, id).None? then Err(NotFound)
    else Ok(())
  }

  /** The `TypeError` line 64 throws as written: the class has no `findById` method. */
  const FindByIdMissing: string := "this.findById is not a function"

  /**
   * What `update` returns as written: once past the email check, a non-empty department in
   * the patch reaches the call of the missing `findById`, which throws before anything is
   * written. Without a department it agrees with `UpdateOutcome`.
   */
  function UpdateOutcomeAsWritten(es: seq<Employee>, id: string, patch: EmployeePatch, lookupFails: bool, writeFails: bool): (r: Result<()>)
    ensures PassesEmailCheck(es, id, patch, lookupFails) && patch.department.Some? && patch.department.value != "" ==>
      r == Err(FindByIdMissing)
    ensures r.Ok? ==> patch.department.None? || patch.department.value == ""
    ensures patch.department.None? || patch.department.value == "" ==> r == UpdateOutcome(es, id, patch, lookupFails, writeFails)
  {
    if PassesEmailCheck(es, id, patch, lookupFails) && patch.department.Some? && patch.department.value != "" then
      Err(FindByIdMissing)
    else UpdateOutcome(es, id, patch, lookupFails, writeFails)
  }

  /**
   * The discrepancy: editing a stored employee with a patch that names a department (as
   * every submit of the employee form does) fails as written, where the lookup `update`
   * evidently meant to call lets it succeed.
   */
  lemma EditWithDepartmentFailsAsWritten(es: seq<Employee>, e: Employee, patch: EmployeePatch)
    requires e in es && patch.department.Some? && patch.department.value != ""
    requires !EmailTakenByOther(es, patch.email, e.id)
    ensures UpdateOutcomeAsWritten(es, e.id, patch, false, false) == Err(FindByIdMissing)
    ensures UpdateOutcome(es, e.id, patch, false, false) == Ok(())
  {
  }

  // ---- emails stay unique -------------------------------------------------------------------

  /** `create` appends only an email nobody holds, so unique emails stay unique. */
  lemma CreateKeepsEmailsUnique(es: seq<Employee>, e: Employee)
    requires EmailsUnique(es) && EmployeeWithEmail(es, e.email).None?
    ensures EmailsUnique(es + [e])
  {
  }

  /**
   * `update` with a non-empty email that no other employee holds keeps emails unique (an
   * empty email skips the check; see `EmptyEmailSkipsCheck`).
   */
  lemma UpdateKeepsEmailsUnique(es: seq<Employee>, id: string, p: EmployeePatch)
    requires EmployeeIdsDistinct(es) && EmailsUnique(es)
    requires p.email != Some("") && !EmailTakenByOther(es, p.email, id)
    ensures EmailsUnique(PatchEmployees(es, id, p))
  {
    var r := PatchEmployees(es, id, p);
    if p.email.Some? {
      forall i, j | 0 <= i < j < |r| ensures r[i].email != r[j].email {
        if es[i].id == id || es[j].id == id {
          assert EmployeeKey(es[i]) != EmployeeKey(es[j]);
          var k := if es[i].id == id then j else i;
          assert es[k].id != id && r[k] == es[k];
        }
      }
    }
  }

  /** An empty email in the patch skips the check, and two employees can end up sharing it. */
  lemma EmptyEmailSkipsCheck()
    ensures var a := Employee("a", "Ana", "", "TI", true, "t0", None, None, None, None, None);
      var b := Employee("b", "Bia", "b@x.io", "TI", true, "t1", None, None, None, None, None);
      var p := EmployeePatch(None, Some(""), None, None, None, None, None, None, None);
      EmailsUnique([a, b]) && !EmailTakenByOther([a, b], p.email, "b") &&
      !EmailsUnique(PatchEmployees([a, b], "b", p))
  {
    var a := Employee("a", "Ana", "", "TI", true, "t0", None, None, None, None, None);
    var b := Employee("b", "Bia", "b@x.io", "TI", true, "t1", None, None, None, None, None);
    var p := EmployeePatch(None, Some(""), None, None, None, None, None, None, None);
    var r := PatchEmployees([a, b], "b", p);
    assert r[0].email == r[1].email;
  }

  // ---- the repository -----------------------------------------------------------------------

  class EmployeeRepository {
    const store: Store

    constructor (store: Store)
      ensures this.store == store
    {
      this.store := store;
    }

    /** `getAll()`: the employee documents in the order the store returns them. */
    method GetAll(fails: bool) returns (r: Result<seq<Employee>>)
      requires store.Valid()
      ensures fails ==> r == Err(StoreFailure)
      ensures !fails ==> r.Ok? && r.value == store.employees && EmployeeIdsDistinct(r.value)
    {
      if fails {
        return Err(StoreFailure);
      }
      r := Ok(store.employees);
    }

    /** `findByEmail(email)`: the first employee holding the email, or none. */
    method FindByEmail(email: string) returns (r: Option<Employee>)
      ensures r.None? <==> forall k :: 0 <= k < |store.employees| ==> store.employees[k].email != email
      ensures r.Some? ==> r.value in store.employees && r.value.email == email
      ensures r == EmployeeWithEmail(store.employees, email)
    {
      r := EmployeeWithEmail(store.employees, email);
    }

    /** `syncWithDepartment`: a failing read or write is swallowed and leaves the store as it was. */
    method SyncWithDepartment(employeeId: string, departmentName: string, fails: bool)
      requires store.Valid()
      modifies store
      ensures store.Valid() && store.employees == old(store.employees)
      ensures store.departments == if fails then old(store.departments) else JoinDepartment(old(store.departments), employeeId, departmentName)
    {
      if fails {
        return;
      }
      var target := DepartmentNamed(store.departments, departmentName);
      if target.Some? {
        store.UpdateDepartmentIds(store.departments[target.value].id, Union(employeeId));
      }
    }

    /** `unsyncFromDepartment`: a failing read or write is swallowed and leaves the store as it was. */
    method UnsyncFromDepartment(employeeId: string, departmentName: string, fails: bool)
      requires store.Valid()
      modifies store
      ensures store.Valid() && store.employees == old(store.employees)
      ensures store.departments == if fails then old(store.departments) else LeaveDepartment(old(store.departments), employeeId, departmentName)
    {
      if fails {
        return;
      }
      var target := DepartmentNamed(store.departments, departmentName);
      if target.Some? {
        store.UpdateDepartmentIds(store.departments[target.value].id, Remove(employeeId));
      }
    }

    /**
     * `removeFromDepartments`: one batch with an `arrayRemove` for each department listing the
     * id. A failure propagates, and a failed commit writes nothing.
     */
    method RemoveFromDepartments(employeeId: string, fails: bool) returns (r: Result<()>)
      requires store.Valid()
      modifies store
      ensures store.Valid() && store.employees == old(store.employees)
      ensures r == if fails then Err(StoreFailure) else Ok(())
      ensures store.departments == if fails then old(store.departments) else WithoutMember(old(store.departments), employeeId)
    {
      var departments := store.departments;
      var batch: map<string, IdsUpdate> := map[];
      for i := 0 to |departments|
        invariant forall x :: x in batch ==> batch[x] == Remove(employeeId)
        invariant forall k :: 0 <= k < |departments| ==>
          (departments[k].id in batch <==> exists m :: 0 <= m < i && departments[m].id == departments[k].id && employeeId in departments[m].employeeIds)
      {
        if employeeId in departments[i].employeeIds {
          batch := batch[departments[i].id := Remove(employeeId)];
        }
      }
      if fails {
        return Err(StoreFailure);
      }
      forall k | 0 <= k < |departments| ensures departments[k].id in batch <==> employeeId in departments[k].employeeIds {
        if departments[k].id in batch {
          var m :| 0 <= m < |departments| && departments[m].id == departments[k].id && employeeId in departments[m].employeeIds;
          assert DepartmentKey(departments[m]) == DepartmentKey(departments[k]);
        }
      }
      store.CommitDepartmentIds(batch);
      r := Ok(());
    }

    /**
     * `create(data)`: rejects an email some employee already holds; otherwise stores the data
     * with `createdAt` under the fresh id `newId`, lists it in the department its `department`
     * text names, and returns the stored record. `fails` is a failing lookup or add, which
     * propagates with nothing written; `syncFails` is a swallowed membership failure.
     */
    method Create(data: EmployeeFormData, newId: string, createdAt: string, fails: bool, syncFails: bool)
        returns (r: Result<Employee>)
      requires store.Valid() && FindEmployee(store.employees, newId).None?
      modifies store
      ensures store.Valid()
      ensures fails ==> r == Err(StoreFailure)
      ensures !fails && EmployeeWithEmail(old(store.employees), data.email).Some? ==> r == Err(DuplicateEmail)
      ensures r.Ok? <==> !fails && EmployeeWithEmail(old(store.employees), data.email).None?
      ensures r.Err? ==> store.employees == old(store.employees) && store.departments == old(store.departments)
      ensures r.Ok? ==> r.value == NewEmployee(newId, data, createdAt)
      ensures r.Ok? ==> store.employees == old(store.employees) + [r.value]
      ensures r.Ok? && syncFails ==> store.departments == old(store.departments)
      ensures r.Ok? && !syncFails ==> store.departments == JoinDepartment(old(store.departments), newId, data.department)
    {
      if fails {
        return Err(StoreFailure);
      }
      var existing := FindByEmail(data.email);
      if existing.Some? {
        return Err(DuplicateEmail);
      }
      var employee := NewEmployee(newId, data, createdAt);
      store.AddEmployee(employee);
      SyncWithDepartment(employee.id, employee.department, syncFails);
      r := Ok(employee);
    }

    /**
     * `update(id, data)`: rejects a non-empty email held by another employee; moves
     * membership when a non-empty new department differs from the stored one; then merges
     * the patch, which fails with not-found for an unknown id (after the move was written).
     * `lookupFails` is a failing email lookup, which writes nothing; `writeFails` a failing
     * final write, which leaves the move written and the employee document as it was.
     * Line 64 is read as the lookup of the employee by id (see `UpdateAsWritten`).
     */
    method Update(id: string, patch: EmployeePatch, lookupFails: bool, unsyncFails: bool, syncFails: bool, writeFails: bool)
        returns (r: Result<()>)
      requires store.Valid()
      modifies store
      ensures store.Valid()
      ensures r == UpdateOutcome(old(store.employees), id, patch, lookupFails, writeFails)
      ensures !PassesEmailCheck(old(store.employees), id, patch, lookupFails) ==>
        store.employees == old(store.employees) && store.departments == old(store.departments)
      ensures PassesEmailCheck(old(store.employees), id, patch, lookupFails) ==>
        store.departments == match MoveFrom(old(store.employees), id, patch.department)
          case None => old(store.departments)
          case Some(from) => Moved(old(store.departments), id, from, patch.department.value, unsyncFails, syncFails)
      ensures store.employees == if r.Ok? then PatchEmployees(old(store.employees), id, patch) else old(store.employees)
    {
      if patch.email.Some? && patch.email.value != "" {
        if lookupFails {
          return Err(StoreFailure);
        }
        var existing := FindByEmail(patch.email.value);
        if existing.Some? && existing.value.id != id {
          return Err(DuplicateEmail);
        }
      }
      if patch.department.Some? && patch.department.value != "" {
        var current := FindEmployee(store.employees, id);
        if current.Some? && current.value.department != patch.department.value {
          UnsyncFromDepartment(id, current.value.department, unsyncFails);
          SyncWithDepartment(id, patch.department.value, syncFails);
        }
      }
      if writeFails {
        return Err(StoreFailure);
      }
      r := store.UpdateEmployee(id, patch);
    }

    /**
     * `update(id, data)` as written: past the email check, a non-empty department reaches the
     * call of the missing `findById`, which throws with nothing written.
     */
    method UpdateAsWritten(id: string, patch: EmployeePatch, lookupFails: bool, writeFails: bool) returns (r: Result<()>)
      requires store.Valid()
      modifies store
      ensures store.Valid()
      ensures r == UpdateOutcomeAsWritten(old(store.employees), id, patch, lookupFails, writeFails)
      ensures store.departments == old(store.departments)
      ensures store.employees == if r.Ok? then PatchEmployees(old(store.employees), id, patch) else old(store.employees)
    {
      if patch.email.Some? && patch.email.value != "" {
        if lookupFails {
          return Err(StoreFailure);
        }
        var existing := FindByEmail(patch.email.value);
        if existing.Some? && existing.value.id != id {
          return Err(DuplicateEmail);
        }
      }
      if patch.department.Some? && patch.department.value != "" {
        return Err(FindByIdMissing);
      }
      if writeFails {
        return Err(StoreFailure);
      }
      r := store.UpdateEmployee(id, patch);
    }

    /**
     * `delete(id)`: unlists the id everywhere, then deletes the document. A failed unlisting
     * aborts with nothing written; a failed delete (`deleteFails`) leaves the id unlisted
     * everywhere and the employee document in place.
     */
    method Delete(id: string, removeFails: bool, deleteFails: bool) returns (r: Result<()>)
      requires store.Valid()
      modifies store
      ensures store.Valid()
      ensures r == if removeFails || deleteFails then Err(StoreFailure) else Ok(())
      ensures store.departments == if removeFails then old(store.departments) else WithoutMember(old(store.departments), id)
      ensures store.employees == if r.Ok? then WithoutEmployees(old(store.employees), {id}) else old(store.employees)
    {
      r := RemoveFromDepartments(id, removeFails);
      if r.Err? {
        return;
      }
      if deleteFails {
        return Err(StoreFailure);
      }
      store.DeleteEmployees({id});
    }

    /**
     * `deleteMultiple(ids)`: unlists each id in turn, then deletes all the documents in one
     * batch. `failAt == Some(i)` makes the unlisting of `ids[i]` fail, or the final batch
     * when `i == |ids|`; the unlistings already written stay written and no employee is
     * deleted.
     */
    method DeleteMultiple(ids: seq<string>, failAt: Option<nat>) returns (r: Result<()>)
      requires store.Valid()
      modifies store
      ensures store.Valid()
      ensures r.Err? <==> failAt.Some? && failAt.value <= |ids|
      ensures r.Err? ==> store.employees == old(store.employees)
      ensures r.Err? ==> store.departments == WithoutMembers(old(store.departments), ids[..failAt.value])
      ensures r.Ok? ==> store.departments == WithoutMembers(old(store.departments), ids)
      ensures r.Ok? ==> store.employees == WithoutEmployees(old(store.employees), set x | x in ids)
    {
      for i := 0 to |ids|
        invariant store.Valid() && store.employees == old(store.employees)
        invariant failAt.Some? ==> i <= failAt.value
        invariant store.departments == WithoutMembers(old(store.departments), ids[..i])
      {
        assert ids[..i + 1][..i] == ids[..i];
        r := RemoveFromDepartments(ids[i], failAt == Some(i));
        if r.Err? {
          return;
        }
      }
      assert ids[..|ids|] == ids;
      if failAt == Some(|ids|) {
        return Err(StoreFailure);
      }
      store.DeleteEmployees(set x | x in ids);
      r := Ok(());
    }
  }
}
