/**
 * The document store the repositories talk to, reduced to the operations they use:
 * add, partial update (merge), delete and batched delete of documents, and updates of a
 * department's `employeeIds` array with `arrayUnion` / `arrayRemove` / plain replacement,
 * singly or in one batch. `arrayUnion` and `arrayRemove` follow the store library's documented
 * behaviour; they are assumptions of this model, not code of the application.
 */
module DocumentStore {
  import opened Seqs
  import opened Models

  /** `arrayUnion(x)`: appends `x` unless it is already present. */
  function ArrayUnion(ids: seq<string>, x: string): (r: seq<string>)
    ensures x in r && |ids| <= |r| && r[..|ids|] == ids
    ensures multiset(r)[x] == if x in ids then multiset(ids)[x] else 1
    ensures forall y :: y != x ==> multiset(r)[y] == multiset(ids)[y]
  {
    if x in ids then ids else ids + [x]
  }

  /** `arrayRemove(x)`: removes every occurrence of `x` and keeps the rest in order. */
  function ArrayRemove(ids: seq<string>, x: string): (r: seq<string>)
    ensures x !in r
    ensures forall y :: y != x ==> multiset(r)[y] == multiset(ids)[y]
  {
    Filter(ids, (y: string) => y != x)
  }

  /** The value written to an `employeeIds` field. */
  datatype IdsUpdate = Union(id: string) | Remove(id: string) | Replace(ids: seq<string>)

  function ApplyIdsUpdate(ids: seq<string>, u: IdsUpdate): seq<string>
  {
    match u
    case Union(x) => ArrayUnion(ids, x)
    case Remove(x) => ArrayRemove(ids, x)
    case Replace(v) => v
  }

  /** `updateDoc(doc('departments', deptId), { employeeIds: u })`: only that document's list changes. */
  function UpdateIds(ds: seq<Department>, deptId: string, u: IdsUpdate): (r: seq<Department>)
    ensures |r| == |ds|
    ensures forall k :: 0 <= k < |ds| ==>
      r[k].id == ds[k].id && r[k].name == ds[k].name && r[k].managerId == ds[k].managerId && r[k].createdAt == ds[k].createdAt
    ensures forall k :: 0 <= k < |ds| && ds[k].id != deptId ==> r[k] == ds[k]
    ensures forall k :: 0 <= k < |ds| && ds[k].id == deptId ==> r[k].employeeIds == ApplyIdsUpdate(ds[k].employeeIds, u)
  {
    seq(|ds|, k requires 0 <= k < |ds| =>
      if ds[k].id == deptId then ds[k].(employeeIds := ApplyIdsUpdate(ds[k].employeeIds, u)) else ds[k])
  }

  /** With distinct department ids, an update of one id's list changes exactly one position. */
  lemma UpdateIdsAt(ds: seq<Department>, j: nat, u: IdsUpdate)
    requires DepartmentIdsDistinct(ds) && j < |ds|
    ensures UpdateIds(ds, ds[j].id, u) == ds[j := ds[j].(employeeIds := ApplyIdsUpdate(ds[j].employeeIds, u))]
  {
    forall k | 0 <= k < |ds| && k != j ensures ds[k].id != ds[j].id {
      assert DepartmentKey(ds[k]) != DepartmentKey(ds[j]);
    }
  }

  /** A committed `writeBatch` of `employeeIds` updates, at most one per department document. */
  function CommitIds(ds: seq<Department>, batch: map<string, IdsUpdate>): (r: seq<Department>)
    ensures |r| == |ds|
    ensures forall k :: 0 <= k < |ds| ==>
      r[k].id == ds[k].id && r[k].name == ds[k].name && r[k].managerId == ds[k].managerId && r[k].createdAt == ds[k].createdAt
    ensures forall k :: 0 <= k < |ds| && ds[k].id !in batch ==> r[k] == ds[k]
    ensures forall k :: 0 <= k < |ds| && ds[k].id in batch ==> r[k].employeeIds == ApplyIdsUpdate(ds[k].employeeIds, batch[ds[k].id])
  {
    seq(|ds|, k requires 0 <= k < |ds| =>
      if ds[k].id in batch then ds[k].(employeeIds := ApplyIdsUpdate(ds[k].employeeIds, batch[ds[k].id])) else ds[k])
  }

  /** `updateDoc(doc('employees', id), patch)` applied to every document with that id. */
  function PatchEmployees(es: seq<Employee>, id: string, p: EmployeePatch): (r: seq<Employee>)
    ensures |r| == |es|
    ensures forall k :: 0 <= k < |es| && es[k].id != id ==> r[k] == es[k]
    ensures forall k :: 0 <= k < |es| && es[k].id == id ==> r[k] == ApplyPatch(es[k], p)
  {
    seq(|es|, k requires 0 <= k < |es| => if es[k].id == id then ApplyPatch(es[k], p) else es[k])
  }

  /** `updateDoc(doc('departments', id), patch)` applied to every document with that id. */
  function PatchDepartments(ds: seq<Department>, id: string, p: DepartmentPatch): (r: seq<Department>)
    ensures |r| == |ds|
    ensures forall k :: 0 <= k < |ds| && ds[k].id != id ==> r[k] == ds[k]
    ensures forall k :: 0 <= k < |ds| && ds[k].id == id ==> r[k] == ApplyDepartmentPatch(ds[k], p)
  {
    seq(|ds|, k requires 0 <= k < |ds| => if ds[k].id == id then ApplyDepartmentPatch(ds[k], p) else ds[k])
  }

  /** The employees whose id is not in `ids`, in their order (`deleteDoc` / batched `delete`). */
  function WithoutEmployees(es: seq<Employee>, ids: set<string>): (r: seq<Employee>)
    ensures forall e :: multiset(r)[e] == if e.id in ids then 0 else multiset(es)[e]
    ensures forall e :: e in r <==> e in es && e.id !in ids
  {
    Filter(es, (e: Employee) => e.id !in ids)
  }

  /** The departments whose id is not in `ids`, in their order. */
  function WithoutDepartments(ds: seq<Department>, ids: set<string>): (r: seq<Department>)
    ensures forall d :: multiset(r)[d] == if d.id in ids then 0 else multiset(ds)[d]
    ensures forall d :: d in r <==> d in ds && d.id !in ids
  {
    Filter(ds, (d: Department) => d.id !in ids)
  }

  /** Deleting documents keeps the remaining ids distinct. */
  lemma WithoutEmployeesDistinct(es: seq<Employee>, ids: set<string>)
    requires EmployeeIdsDistinct(es)
    ensures EmployeeIdsDistinct(WithoutEmployees(es, ids))
  {
    FilterKeepsDistinct(es, (e: Employee) => e.id !in ids, EmployeeKey);
  }

  lemma WithoutDepartmentsDistinct(ds: seq<Department>, ids: set<string>)
    requires DepartmentIdsDistinct(ds)
    ensures DepartmentIdsDistinct(WithoutDepartments(ds, ids))
  {
    FilterKeepsDistinct(ds, (d: Department) => d.id !in ids, DepartmentKey);
  }

  /**
   * The two collections. Ids are distinct within each collection, as document ids are.
   */
  class Store {
    var employees: seq<Employee>
    var departments: seq<Department>

    ghost predicate Valid()
      reads this
    {
      EmployeeIdsDistinct(employees) && DepartmentIdsDistinct(departments)
    }

    constructor (es: seq<Employee>, ds: seq<Department>)
      requires EmployeeIdsDistinct(es) && DepartmentIdsDistinct(ds)
      ensures Valid() && employees == es && departments == ds
    {
      employees, departments := es, ds;
    }

    /** `addDoc(collection('employees'), e)` under a generated id not yet in use. */
    method AddEmployee(e: Employee)
      requires Valid() && FindEmployee(employees, e.id).None?
      modifies this
      ensures Valid()
      ensures employees == old(employees) + [e] && departments == old(departments)
    {
      employees := employees + [e];
    }

    /**
     * `updateDoc(doc('employees', id), patch)`: merges the patch; fails with the store's
     * not-found error when no document has that id.
     */
    method UpdateEmployee(id: string, p: EmployeePatch) returns (r: Result<()>)
      requires Valid()
      modifies this
      ensures Valid() && departments == old(departments)
      ensures r == if FindEmployee(old(employees), id).None? then Err(NotFound) else Ok(())
      ensures employees == if r.Err? then old(employees) else PatchEmployees(old(employees), id, p)
    {
      if FindEmployee(employees, id).None? {
        return Err(NotFound);
      }
      employees := PatchEmployees(employees, id, p);
      r := Ok(());
    }

    /** `deleteDoc` on each id, or one batch of deletes; a missing document is not an error. */
    method DeleteEmployees(ids: set<string>)
      requires Valid()
      modifies this
      ensures Valid() && departments == old(departments)
      ensures employees == WithoutEmployees(old(employees), ids)
    {
      WithoutEmployeesDistinct(employees, ids);
      employees := WithoutEmployees(employees, ids);
    }

    /** `addDoc(collection('departments'), d)` under a generated id not yet in use. */
    method AddDepartment(d: Department)
      requires Valid() && DepartmentAt(departments, d.id).None?
      modifies this
      ensures Valid()
      ensures departments == old(departments) + [d] && employees == old(employees)
    {
      departments := departments + [d];
    }

    /** `updateDoc(doc('departments', id), patch)`; fails with not-found when the id is unknown. */
    method UpdateDepartment(id: string, p: DepartmentPatch) returns (r: Result<()>)
      requires Valid()
      modifies this
      ensures Valid() && employees == old(employees)
      ensures r == if DepartmentAt(old(departments), id).None? then Err(NotFound) else Ok(())
      ensures departments == if r.Err? then old(departments) else PatchDepartments(old(departments), id, p)
    {
      if DepartmentAt(departments, id).None? {
        return Err(NotFound);
      }
      departments := PatchDepartments(departments, id, p);
      r := Ok(());
    }

    /** `deleteDoc` on each id, or one batch of deletes. */
    method DeleteDepartments(ids: set<string>)
      requires Valid()
      modifies this
      ensures Valid() && employees == old(employees)
      ensures departments == WithoutDepartments(old(departments), ids)
    {
      WithoutDepartmentsDistinct(departments, ids);
      departments := WithoutDepartments(departments, ids);
    }

    /** `updateDoc(doc('departments', deptId), { employeeIds: u })`. */
    method UpdateDepartmentIds(deptId: string, u: IdsUpdate)
      requires Valid()
      modifies this
      ensures Valid() && employees == old(employees)
      ensures departments == UpdateIds(old(departments), deptId, u)
    {
      departments := UpdateIds(departments, deptId, u);
      assert DepartmentIdsDistinct(departments) by {
        forall i, j | 0 <= i < j < |departments|
          ensures DepartmentKey(departments[i]) != DepartmentKey(departments[j])
        {
          assert DepartmentKey(old(departments)[i]) != DepartmentKey(old(departments)[j]);
        }
      }
    }

    /** `batch.commit()` of a batch of `employeeIds` updates. */
    method CommitDepartmentIds(batch: map<string, IdsUpdate>)
      requires Valid()
      modifies this
      ensures Valid() && employees == old(employees)
      ensures departments == CommitIds(old(departments), batch)
    {
      departments := CommitIds(departments, batch);
      assert DepartmentIdsDistinct(departments) by {
        forall i, j | 0 <= i < j < |departments|
          ensures DepartmentKey(departments[i]) != DepartmentKey(departments[j])
        {
          assert DepartmentKey(old(departments)[i]) != DepartmentKey(old(departments)[j]);
        }
      }
    }
  }

  /** The store's error for an update of a document that does not exist. */
  const NotFound: string := "not-found"
}
