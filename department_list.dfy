/**
 * `DepartmentList`: the departments table with each department's member count and manager,
 * and a modal listing the members of the selected department.
 */
module DepartmentList {
  import opened Seqs
  import opened Models

  const NoManager: string := "Não definido"

  /**
   * `getEmployeeCount`: the length of the id list, duplicates and orphan ids included, so
   * never fewer than the different ids listed, and exactly that many when none repeats.
   */
  function EmployeeCount(d: Department): (n: nat)
    ensures |set x | x in d.employeeIds| <= n
    ensures (forall i, j :: 0 <= i < j < |d.employeeIds| ==> d.employeeIds[i] != d.employeeIds[j]) ==>
      n == |set x | x in d.employeeIds|
  {
    DistinctIdsSize(d.employeeIds);
    |d.employeeIds|
  }

  /** `getManagerName`: the name of the first employee with the manager's id, otherwise the placeholder. */
  function ManagerName(es: seq<Employee>, managerId: string): (r: string)
    ensures (forall k :: 0 <= k < |es| ==> es[k].id != managerId) ==> r == NoManager
    ensures (exists k :: 0 <= k < |es| && es[k].id == managerId) ==>
      exists k :: 0 <= k < |es| && es[k].id == managerId && r == es[k].name && forall m :: 0 <= m < k ==> es[m].id != managerId
  {
    match FindEmployee(es, managerId)
    case Some(e) => e.name
    case None => NoManager
  }

  predicate Listed(d: Department, e: Employee)
  {
    e.id in d.employeeIds
  }

  function ListedIn(d: Department): Employee -> bool
  {
    (e: Employee) => Listed(d, e)
  }

  /** `getDepartmentEmployees`: the employees, in their order, whose id the department lists. */
  function DepartmentEmployees(es: seq<Employee>, d: Department): (r: seq<Employee>)
    ensures forall e :: e in r <==> e in es && e.id in d.employeeIds
    ensures forall e :: multiset(r)[e] == if e.id in d.employeeIds then multiset(es)[e] else 0
  {
    Filter(es, ListedIn(d))
  }

  /**
   * The modal keeps the order of the employee list: listing one more employee of it appends
   * that employee when the department lists its id, and a prefix of the list gives a prefix
   * of the modal's rows.
   */
  lemma DepartmentEmployeesInOrder(es: seq<Employee>, d: Department, i: nat)
    requires i < |es|
    ensures DepartmentEmployees(es[..i + 1], d) ==
      DepartmentEmployees(es[..i], d) + (if es[i].id in d.employeeIds then [es[i]] else [])
    ensures DepartmentEmployees(es[..i], d) <= DepartmentEmployees(es, d)
  {
    FilterSnoc(es, ListedIn(d), i);
    FilterPrefix(es, ListedIn(d), i);
  }

  /** The ids of a sequence of employees. */
  ghost function IdSet(es: seq<Employee>): set<string>
  {
    set e | e in es :: e.id
  }

  /** Employees with distinct ids have as many ids as there are employees. */
  lemma {:induction false} IdSetSize(es: seq<Employee>)
    requires EmployeeIdsDistinct(es)
    ensures |IdSet(es)| == |es|
    decreases |es|
  {
    if |es| > 0 {
      var init, last := es[..|es| - 1], es[|es| - 1];
      assert es == init + [last];
      assert EmployeeIdsDistinct(init);
      IdSetSize(init);
      assert IdSet(es) == IdSet(init) + {last.id};
      forall e | e in init ensures e.id != last.id {
        var i :| 0 <= i < |init| && init[i] == e;
        assert EmployeeKey(es[i]) != EmployeeKey(es[|es| - 1]);
      }
    }
  }

  /** A list holds at most as many different ids as it has entries, and exactly that many when none repeats. */
  lemma {:induction false} DistinctIdsSize(ids: seq<string>)
    ensures |set x | x in ids| <= |ids|
    ensures (forall i, j :: 0 <= i < j < |ids| ==> ids[i] != ids[j]) ==> |set x | x in ids| == |ids|
    decreases |ids|
  {
    if |ids| > 0 {
      var init, last := ids[..|ids| - 1], ids[|ids| - 1];
      assert ids == init + [last];
      DistinctIdsSize(init);
      assert (set x | x in ids) == (set x | x in init) + {last};
      if forall i, j :: 0 <= i < j < |ids| ==> ids[i] != ids[j] {
        assert last !in init by {
          forall i | 0 <= i < |init| ensures init[i] != last {
            assert ids[i] != ids[|ids| - 1];
          }
        }
      }
    }
  }

  /** A subset is no larger than the set holding it. */
  lemma SubsetSize(a: set<string>, b: set<string>)
    requires a <= b
    ensures |a| <= |b|
  {
    assert b == a + (b - a);
    assert a * (b - a) == {};
  }

  /**
   * With distinct employee ids the modal lists each member once, so it never shows more
   * employees than the table's count; duplicate and orphan ids are what make the count larger.
   */
  lemma ListedAtMostCount(es: seq<Employee>, d: Department)
    requires EmployeeIdsDistinct(es)
    ensures EmployeeIdsDistinct(DepartmentEmployees(es, d))
    ensures |DepartmentEmployees(es, d)| <= EmployeeCount(d)
  {
    var r := DepartmentEmployees(es, d);
    FilterKeepsDistinct(es, ListedIn(d), EmployeeKey);
    IdSetSize(r);
    DistinctIdsSize(d.employeeIds);
    SubsetSize(IdSet(r), set x | x in d.employeeIds);
  }

  /** Without duplicate or orphan ids, the modal lists exactly as many employees as the table counts. */
  lemma ListedMatchesCount(es: seq<Employee>, d: Department)
    requires EmployeeIdsDistinct(es)
    requires forall i, j :: 0 <= i < j < |d.employeeIds| ==> d.employeeIds[i] != d.employeeIds[j]
    requires forall x :: x in d.employeeIds ==> exists k :: 0 <= k < |es| && es[k].id == x
    ensures |DepartmentEmployees(es, d)| == EmployeeCount(d)
  {
    var r := DepartmentEmployees(es, d);
    FilterKeepsDistinct(es, ListedIn(d), EmployeeKey);
    IdSetSize(r);
    DistinctIdsSize(d.employeeIds);
    forall x | x in d.employeeIds ensures x in IdSet(r) {
      var k :| 0 <= k < |es| && es[k].id == x;
      assert es[k] in r;
    }
    assert IdSet(r) == set x | x in d.employeeIds;
  }

  /** The members modal: whether it is open and which department it shows. */
  class MembersModal {
    var selected: Option<Department>
    var open: bool

    constructor ()
      ensures selected == None && !open
    {
      selected, open := None, false;
    }

    /** `handleViewEmployees`: opens the modal on that department. */
    method ViewEmployees(d: Department)
      modifies this
      ensures selected == Some(d) && open
    {
      selected, open := Some(d), true;
    }

    /** `handleCloseModal`: closes the modal and forgets the department. */
    method Close()
      modifies this
      ensures selected == None && !open
    {
      selected, open := None, false;
    }

    /**
     * The modal's edit button, shown only while a department is selected: closes the modal and
     * hands the department that was selected to `onEdit`.
     */
    method EditSelected() returns (edited: Department)
      requires selected.Some?
      modifies this
      ensures edited == old(selected).value
      ensures selected == None && !open
    {
      edited := selected.value;
      Close();
    }
  }
}
