/**
 * The bulk repair pass `syncAllEmployeesWithDepartments`.
 *
 * Phase 1 rewrites every department's `employeeIds`, keeping (in order) the ids that name an
 * existing, active employee and counting every other occurrence in `cleanCount`; the rewrites
 * go to the store in one batch. Phase 2 walks the employees in order and, for each active one
 * whose `department` text names a department of the snapshot taken before phase 1, appends
 * its id to the first such department unless that department's snapshot list already holds
 * it, counting each append in `syncCount`.
 *
 * Phase 1 keeps the id of an active employee even when its `department` field names another
 * department, so after a repair an employee can be listed by two departments.
 */
module SyncEmployeesDepartments {
  import opened Seqs
  import opened Models
  import opened DocumentStore

  // ---- phase 1: orphan cleanup -------------------------------------------------------------

  /** The id names an existing employee (the first with that id) and that employee is active. */
  predicate KeepsId(es: seq<Employee>, id: string)
  {
    match FindEmployee(es, id)
    case Some(e) => e.active
    case None => false
  }

  function KeepsIn(es: seq<Employee>): string -> bool
  {
    (id: string) => KeepsId(es, id)
  }

  /** The list one department keeps, in order. */
  function ValidIds(es: seq<Employee>, ids: seq<string>): seq<string>
  {
    Filter(ids, KeepsIn(es))
  }

  /** The occurrences phase 1 drops from one department, in order. */
  function Orphans(es: seq<Employee>, ids: seq<string>): seq<string>
  {
    Reject(ids, KeepsIn(es))
  }

  /**
   * Cleanup keeps exactly the occurrences of ids that name an existing active employee, and
   * drops every other occurrence.
   */
  lemma ValidIdsExact(es: seq<Employee>, ids: seq<string>)
    ensures forall x :: multiset(ValidIds(es, ids))[x] == if KeepsId(es, x) then multiset(ids)[x] else 0
    ensures forall x :: x in Orphans(es, ids) <==> x in ids && !KeepsId(es, x)
    ensures |ValidIds(es, ids)| + |Orphans(es, ids)| == |ids|
  {
    PartitionLength(ids, KeepsIn(es));
  }

  /** Every department with its list cleaned; the other fields are as they were. */
  function Cleaned(es: seq<Employee>, ds: seq<Department>): (r: seq<Department>)
    ensures |r| == |ds|
    ensures forall k :: 0 <= k < |ds| ==>
      r[k].id == ds[k].id && r[k].name == ds[k].name && r[k].managerId == ds[k].managerId && r[k].createdAt == ds[k].createdAt
    ensures forall k :: 0 <= k < |ds| ==> r[k].employeeIds == ValidIds(es, ds[k].employeeIds)
  {
    seq(|ds|, k requires 0 <= k < |ds| => ds[k].(employeeIds := ValidIds(es, ds[k].employeeIds)))
  }

  /** `cleanCount`: the dropped occurrences, summed over the departments. */
  function CleanCount(es: seq<Employee>, ds: seq<Department>): nat
    decreases |ds|
  {
    if |ds| == 0 then 0
    else CleanCount(es, ds[..|ds| - 1]) + |Orphans(es, ds[|ds| - 1].employeeIds)|
  }

  /** The number of ids listed over all departments, duplicates included. */
  function TotalIds(ds: seq<Department>): nat
    decreases |ds|
  {
    if |ds| == 0 then 0 else TotalIds(ds[..|ds| - 1]) + |ds[|ds| - 1].employeeIds|
  }

  // ---- phase 2: adding active employees ----------------------------------------------------

  /**
   * Lines 51-57: the employee is active, names a department, and the first department of the
   * snapshot `ds` with that name exists and does not list the employee's id.
   */
  predicate NeedsSync(ds: seq<Department>, e: Employee)
  {
    e.active && e.department != "" &&
    match DepartmentNamed(ds, e.department)
    case Some(j) => e.id !in ds[j].employeeIds
    case None => false
  }

  function NeedsSyncIn(ds: seq<Department>): Employee -> bool
  {
    (e: Employee) => NeedsSync(ds, e)
  }

  /** One iteration of the loop of lines 50-67, on the current store departments `cur`. */
  function SyncStep(ds: seq<Department>, cur: seq<Department>, e: Employee): seq<Department>
  {
    if NeedsSync(ds, e) then UpdateIds(cur, ds[DepartmentNamed(ds, e.department).value].id, Union(e.id))
    else cur
  }

  /**
   * The loop of lines 50-67 over the employees `es`, starting from the departments `cur`.
   * Only `employeeIds` change; lists only grow; what they gain are ids of employees that
   * needed syncing.
   */
  function Synced(es: seq<Employee>, ds: seq<Department>, cur: seq<Department>): (r: seq<Department>)
    ensures |r| == |cur|
    ensures forall k :: 0 <= k < |cur| ==>
      r[k].id == cur[k].id && r[k].name == cur[k].name && r[k].managerId == cur[k].managerId && r[k].createdAt == cur[k].createdAt
    ensures forall k, x :: 0 <= k < |cur| && x in cur[k].employeeIds ==> x in r[k].employeeIds
    ensures forall k, x :: 0 <= k < |cur| && x in r[k].employeeIds ==>
      x in cur[k].employeeIds || exists e :: e in es && e.id == x && NeedsSync(ds, e)
    decreases |es|
  {
    if |es| == 0 then cur
    else
      var init, e := es[..|es| - 1], es[|es| - 1];
      var mid := Synced(init, ds, cur);
      assert forall e' :: e' in init ==> e' in es;
      SyncStep(ds, mid, e)
  }

  /** `syncCount`: the employees that needed syncing. */
  function SyncCount(es: seq<Employee>, ds: seq<Department>): nat
  {
    |Filter(es, NeedsSyncIn(ds))|
  }

  /** What one pass produces from the employees `es` and the departments `ds` it reads. */
  datatype Repair = Repair(departments: seq<Department>, syncCount: nat, cleanCount: nat)

  function RepairOf(es: seq<Employee>, ds: seq<Department>): Repair
  {
    Repair(Synced(es, ds, Cleaned(es, ds)), SyncCount(es, ds), CleanCount(es, ds))
  }

  // ---- what the pass guarantees -----------------------------------------------------------

  lemma CleanedPrefix(es: seq<Employee>, ds: seq<Department>, n: nat)
    requires n <= |ds|
    ensures Cleaned(es, ds[..n]) == Cleaned(es, ds)[..n]
  {
  }

  /** `cleanCount` is the number of listed ids minus the number kept, over all departments. */
  lemma {:induction false} CleanCountIsDropped(es: seq<Employee>, ds: seq<Department>)
    ensures TotalIds(Cleaned(es, ds)) + CleanCount(es, ds) == TotalIds(ds)
    decreases |ds|
  {
    if |ds| > 0 {
      var n := |ds| - 1;
      CleanCountIsDropped(es, ds[..n]);
      CleanedPrefix(es, ds, n);
      ValidIdsExact(es, ds[n].employeeIds);
      assert TotalIds(Cleaned(es, ds)) == TotalIds(Cleaned(es, ds)[..n]) + |Cleaned(es, ds)[n].employeeIds|;
    }
  }

  /**
   * With unique employee ids, cleanup keeps the id of every active employee, whatever
   * department its `department` field names.
   */
  lemma ActiveIdKept(es: seq<Employee>, e: Employee)
    requires EmployeeIdsDistinct(es) && e in es && e.active
    ensures KeepsId(es, e.id)
  {
    var k :| 0 <= k < |es| && es[k] == e;
    FindEmployeeUnique(es, k);
  }

  /**
   * Phase 2 tests membership on the snapshot taken before cleanup; for an active employee
   * that is the same test as on the cleaned list.
   */
  lemma SnapshotTestAgrees(es: seq<Employee>, ds: seq<Department>, e: Employee, j: nat)
    requires EmployeeIdsDistinct(es) && e in es && e.active && j < |ds|
    ensures e.id in ds[j].employeeIds <==> e.id in Cleaned(es, ds)[j].employeeIds
  {
    ActiveIdKept(es, e);
  }

  /** After the pass every listed id names an existing active employee. */
  lemma RepairLeavesOnlyActiveIds(es: seq<Employee>, ds: seq<Department>, k: nat, x: string)
    requires EmployeeIdsDistinct(es)
    requires k < |ds| && x in RepairOf(es, ds).departments[k].employeeIds
    ensures KeepsId(es, x)
  {
    if x !in Cleaned(es, ds)[k].employeeIds {
      var e :| e in es && e.id == x && NeedsSync(ds, e);
      ActiveIdKept(es, e);
    }
  }

  /** One step of phase 2 never removes an id. */
  lemma SyncStepKeeps(ds: seq<Department>, cur: seq<Department>, e: Employee, k: nat, x: string)
    requires k < |cur| && x in cur[k].employeeIds
    ensures x in SyncStep(ds, cur, e)[k].employeeIds
  {
    if NeedsSync(ds, e) {
      var ids := cur[k].employeeIds;
      var p :| 0 <= p < |ids| && ids[p] == x;
      assert ArrayUnion(ids, e.id)[..|ids|][p] == x;
    }
  }

  /** One step of phase 2 lists the employee in its target department when it needed syncing. */
  lemma SyncStepAdds(ds: seq<Department>, cur: seq<Department>, e: Employee)
    requires |cur| == |ds| && forall k :: 0 <= k < |ds| ==> cur[k].id == ds[k].id
    requires NeedsSync(ds, e)
    ensures e.id in SyncStep(ds, cur, e)[DepartmentNamed(ds, e.department).value].employeeIds
  {
  }

  /** Phase 2 puts the id of each employee that needed syncing into its target department. */
  lemma {:induction false} SyncedAdds(es: seq<Employee>, ds: seq<Department>, cur: seq<Department>, i: nat)
    requires |cur| == |ds| && forall k :: 0 <= k < |ds| ==> cur[k].id == ds[k].id
    requires i < |es| && NeedsSync(ds, es[i])
    ensures es[i].id in Synced(es, ds, cur)[DepartmentNamed(ds, es[i].department).value].employeeIds
    decreases |es|
  {
    var n := |es| - 1;
    var mid := Synced(es[..n], ds, cur);
    var j := DepartmentNamed(ds, es[i].department).value;
    assert Synced(es, ds, cur) == SyncStep(ds, mid, es[n]);
    if i < n {
      assert es[..n][i] == es[i];
      SyncedAdds(es[..n], ds, cur, i);
      SyncStepKeeps(ds, mid, es[n], j, es[i].id);
    } else {
      SyncStepAdds(ds, mid, es[n]);
    }
  }

  /** After the pass every active employee whose department name matches is listed there. */
  lemma RepairSyncsActiveEmployees(es: seq<Employee>, ds: seq<Department>, e: Employee)
    requires EmployeeIdsDistinct(es)
    requires e in es && e.active && e.department != "" && DepartmentNamed(ds, e.department).Some?
    ensures e.id in RepairOf(es, ds).departments[DepartmentNamed(ds, e.department).value].employeeIds
  {
    var j := DepartmentNamed(ds, e.department).value;
    if e.id in ds[j].employeeIds {
      SnapshotTestAgrees(es, ds, e, j);
    } else {
      var i :| 0 <= i < |es| && es[i] == e;
      SyncedAdds(es, ds, Cleaned(es, ds), i);
    }
  }

  lemma {:induction false} TotalIdsUpdate(ds: seq<Department>, j: nat, d: Department)
    requires j < |ds|
    ensures TotalIds(ds[j := d]) + |ds[j].employeeIds| == TotalIds(ds) + |d.employeeIds|
    decreases |ds|
  {
    var n := |ds| - 1;
    if j < n {
      assert ds[j := d][..n] == ds[..n][j := d];
      TotalIdsUpdate(ds[..n], j, d);
    } else {
      assert ds[j := d][..n] == ds[..n];
    }
  }

  /** A step that appends an id not yet listed adds exactly one to the total. */
  lemma SyncStepTotal(ds: seq<Department>, cur: seq<Department>, e: Employee)
    requires DepartmentIdsDistinct(ds)
    requires |cur| == |ds| && forall k :: 0 <= k < |ds| ==> cur[k].id == ds[k].id
    requires NeedsSync(ds, e) ==> e.id !in cur[DepartmentNamed(ds, e.department).value].employeeIds
    ensures TotalIds(SyncStep(ds, cur, e)) == TotalIds(cur) + if NeedsSync(ds, e) then 1 else 0
  {
    if NeedsSync(ds, e) {
      var j := DepartmentNamed(ds, e.department).value;
      assert DepartmentIdsDistinct(cur) by {
        forall a, b | 0 <= a < b < |cur| ensures DepartmentKey(cur[a]) != DepartmentKey(cur[b]) {
          assert DepartmentKey(ds[a]) != DepartmentKey(ds[b]);
        }
      }
      UpdateIdsAt(cur, j, Union(e.id));
      TotalIdsUpdate(cur, j, cur[j].(employeeIds := ArrayUnion(cur[j].employeeIds, e.id)));
    }
  }

  /**
   * Before the step for the employee at `n`, its id is not in its target department: the
   * snapshot lacked it, cleanup only drops ids, and no earlier employee has that id.
   */
  lemma NotYetListed(es: seq<Employee>, ds: seq<Department>, cur: seq<Department>, n: nat)
    requires EmployeeIdsDistinct(es) && n < |es| && NeedsSync(ds, es[n])
    requires |cur| == |ds|
    requires forall k, x :: 0 <= k < |ds| && x in cur[k].employeeIds ==> x in ds[k].employeeIds
    ensures es[n].id !in Synced(es[..n], ds, cur)[DepartmentNamed(ds, es[n].department).value].employeeIds
  {
    var mid := Synced(es[..n], ds, cur);
    var j := DepartmentNamed(ds, es[n].department).value;
    forall x | x in mid[j].employeeIds ensures x != es[n].id {
      if x !in cur[j].employeeIds {
        var e' :| e' in es[..n] && e'.id == x && NeedsSync(ds, e');
        var m :| 0 <= m < n && es[..n][m] == e';
        assert EmployeeKey(es[m]) != EmployeeKey(es[n]);
      }
    }
  }

  /** Each employee that needed syncing adds exactly one id. */
  lemma {:induction false} SyncedTotal(es: seq<Employee>, ds: seq<Department>, cur: seq<Department>)
    requires EmployeeIdsDistinct(es) && DepartmentIdsDistinct(ds)
    requires |cur| == |ds| && forall k :: 0 <= k < |ds| ==> cur[k].id == ds[k].id
    requires forall k, x :: 0 <= k < |ds| && x in cur[k].employeeIds ==> x in ds[k].employeeIds
    ensures TotalIds(Synced(es, ds, cur)) == TotalIds(cur) + SyncCount(es, ds)
    decreases |es|
  {
    if |es| > 0 {
      var n := |es| - 1;
      assert EmployeeIdsDistinct(es[..n]) by {
        forall a, b | 0 <= a < b < n ensures EmployeeKey(es[..n][a]) != EmployeeKey(es[..n][b]) {
          assert EmployeeKey(es[a]) != EmployeeKey(es[b]);
        }
      }
      SyncedTotal(es[..n], ds, cur);
      assert es[..n + 1] == es;
      SyncedSnoc(es, ds, cur, n);
      if NeedsSync(ds, es[n]) {
        NotYetListed(es, ds, cur, n);
      }
      SyncStepTotal(ds, Synced(es[..n], ds, cur), es[n]);
    }
  }

  /**
   * Over the whole pass: the ids listed afterwards are the ids listed before, less
   * `cleanCount`, plus `syncCount`.
   */
  lemma RepairCounts(es: seq<Employee>, ds: seq<Department>)
    requires EmployeeIdsDistinct(es) && DepartmentIdsDistinct(ds)
    ensures TotalIds(RepairOf(es, ds).departments) + RepairOf(es, ds).cleanCount
         == TotalIds(ds) + RepairOf(es, ds).syncCount
  {
    CleanCountIsDropped(es, ds);
    SyncedTotal(es, ds, Cleaned(es, ds));
  }

  /** With nothing left to sync, phase 2 writes nothing. */
  lemma {:induction false} SyncedNothingToDo(es: seq<Employee>, ds: seq<Department>, cur: seq<Department>)
    requires forall i :: 0 <= i < |es| ==> !NeedsSync(ds, es[i])
    ensures Synced(es, ds, cur) == cur
    decreases |es|
  {
    if |es| > 0 {
      SyncedNothingToDo(es[..|es| - 1], ds, cur);
    }
  }

  /**
   * On a store nobody else writes to, a second pass finds nothing to clean and nothing to
   * sync, and leaves the departments as the first pass left them.
   */
  lemma RepairIdempotent(es: seq<Employee>, ds: seq<Department>)
    requires EmployeeIdsDistinct(es) && DepartmentIdsDistinct(ds)
    ensures RepairOf(es, RepairOf(es, ds).departments) == Repair(RepairOf(es, ds).departments, 0, 0)
  {
    var r := RepairOf(es, ds).departments;
    forall k | 0 <= k < |r| ensures ValidIds(es, r[k].employeeIds) == r[k].employeeIds {
      forall i | 0 <= i < |r[k].employeeIds| ensures KeepsIn(es)(r[k].employeeIds[i]) {
        RepairLeavesOnlyActiveIds(es, ds, k, r[k].employeeIds[i]);
      }
      FilterKeepsAll(r[k].employeeIds, KeepsIn(es));
    }
    assert Cleaned(es, r) == r;
    CleanCountIsDropped(es, r);
    forall i | 0 <= i < |es| ensures !NeedsSync(r, es[i]) {
      var e := es[i];
      if e.active && e.department != "" {
        SameNamesSameLookup(ds, r, e.department);
        if DepartmentNamed(ds, e.department).Some? {
          RepairSyncsActiveEmployees(es, ds, e);
        }
      }
    }
    FilterKeepsNone(es, NeedsSyncIn(r));
    SyncedNothingToDo(es, r, r);
  }

  // ---- the pass ----------------------------------------------------------------------------

  /** Lines 28-40: one department's surviving ids, and how many occurrences were dropped. */
  method ValidEmployeeIds(employees: seq<Employee>, currentIds: seq<string>) returns (valid: seq<string>, removed: nat)
    ensures valid == ValidIds(employees, currentIds)
    ensures removed == |Orphans(employees, currentIds)|
  {
    valid, removed := [], 0;
    for i := 0 to |currentIds|
      invariant valid == ValidIds(employees, currentIds[..i])
      invariant removed == |Orphans(employees, currentIds[..i])|
    {
      var empId := currentIds[i];
      FilterSnoc(currentIds, KeepsIn(employees), i);
      var employee := FindEmployee(employees, empId);
      if employee.Some? && employee.value.active {
        valid := valid + [empId];
      } else {
        removed := removed + 1;
      }
    }
    assert currentIds[..|currentIds|] == currentIds;
  }

  /**
   * Lines 21-47: the cleanup batch, one replacement list per department, and the number of
   * occurrences dropped. Committing the batch gives exactly the cleaned departments.
   */
  method CleanupBatch(employees: seq<Employee>, departments: seq<Department>)
      returns (batch: map<string, IdsUpdate>, cleanCount: nat)
    requires DepartmentIdsDistinct(departments)
    ensures CommitIds(departments, batch) == Cleaned(employees, departments)
    ensures cleanCount == CleanCount(employees, departments)
  {
    batch, cleanCount := map[], 0;
    for i := 0 to |departments|
      invariant cleanCount == CleanCount(employees, departments[..i])
      invariant forall k :: 0 <= k < i ==>
        departments[k].id in batch && batch[departments[k].id] == Replace(ValidIds(employees, departments[k].employeeIds))
    {
      var department := departments[i];
      var validEmployeeIds, removed := ValidEmployeeIds(employees, department.employeeIds);
      assert departments[..i + 1][..i] == departments[..i];
      cleanCount := cleanCount + removed;
      forall k | 0 <= k < i ensures departments[k].id != department.id {
        assert DepartmentKey(departments[k]) != DepartmentKey(departments[i]);
      }
      batch := batch[department.id := Replace(validEmployeeIds)];
    }
    assert departments[..|departments|] == departments;
  }

  /** One more employee through phase 2. */
  lemma SyncedSnoc(es: seq<Employee>, ds: seq<Department>, cur: seq<Department>, i: nat)
    requires i < |es|
    ensures Synced(es[..i + 1], ds, cur) == SyncStep(ds, Synced(es[..i], ds, cur), es[i])
    ensures SyncCount(es[..i + 1], ds) == SyncCount(es[..i], ds) + if NeedsSync(ds, es[i]) then 1 else 0
  {
    assert es[..i + 1][..i] == es[..i];
    FilterSnoc(es, NeedsSyncIn(ds), i);
  }

  /** `syncAllEmployeesWithDepartments()` on the store: phase 1 as one batch, then phase 2. */
  method SyncAllEmployeesWithDepartments(store: Store) returns (syncCount: nat, cleanCount: nat)
    requires store.Valid()
    modifies store
    ensures store.Valid() && store.employees == old(store.employees)
    ensures store.departments == RepairOf(old(store.employees), old(store.departments)).departments
    ensures syncCount == RepairOf(old(store.employees), old(store.departments)).syncCount
    ensures cleanCount == RepairOf(old(store.employees), old(store.departments)).cleanCount
  {
    var employees := store.employees;
    var departments := store.departments;
    var batch;
    batch, cleanCount := CleanupBatch(employees, departments);
    store.CommitDepartmentIds(batch);
    ghost var cleaned := Cleaned(employees, departments);

    syncCount := 0;
    for i := 0 to |employees|
      invariant store.Valid() && store.employees == employees
      invariant store.departments == Synced(employees[..i], departments, cleaned)
      invariant syncCount == SyncCount(employees[..i], departments)
    {
      var employee := employees[i];
      SyncedSnoc(employees, departments, cleaned, i);
      if employee.active && employee.department != "" {
        var target := DepartmentNamed(departments, employee.department);
        if target.Some? {
          var targetDepartment := departments[target.value];
          if employee.id !in targetDepartment.employeeIds {
            store.UpdateDepartmentIds(targetDepartment.id, Union(employee.id));
            syncCount := syncCount + 1;
          }
        }
      }
    }
    assert employees[..|employees|] == employees;
  }
}
