/**
 * `DepartmentForm`: creating or editing a department. The form offers the active managers,
 * lists the active employees as checkboxes, and disables the box of every employee some
 * other department already lists: the one place that keeps an employee in at most one
 * department.
 */
module DepartmentForm {
  import opened Seqs
  import opened Models
  import opened Text
  import opened DocumentStore

  const NameRequired: string := "Nome do departamento é obrigatório"
  const ManagerRequired: string := "Gestor responsável é obrigatório"

  /** Line 60: an active employee at the `gestor` level. */
  predicate IsManager(e: Employee)
  {
    e.hierarchyLevel == Some("gestor") && e.active
  }

  /** `managers`: the active employees at the `gestor` level, in order. */
  function Managers(es: seq<Employee>): (r: seq<Employee>)
    ensures forall e :: e in r <==> e in es && IsManager(e)
    ensures forall e :: multiset(r)[e] == if IsManager(e) then multiset(es)[e] else 0
  {
    Filter(es, IsManager)
  }

  /**
   * The managers keep the order of the employee list: one more employee of it appends that
   * employee when it is a manager, and a prefix of the list gives a prefix of the managers.
   */
  lemma ManagersInOrder(es: seq<Employee>, i: nat)
    requires i < |es|
    ensures Managers(es[..i + 1]) == Managers(es[..i]) + (if IsManager(es[i]) then [es[i]] else [])
    ensures Managers(es[..i]) <= Managers(es)
  {
    FilterSnoc(es, IsManager, i);
    FilterPrefix(es, IsManager, i);
  }

  /**
   * The ids listed by departments other than the one being edited (`editing` is its id; when
   * creating there is none and every department counts).
   */
  function OtherMembers(ds: seq<Department>, editing: Option<string>): (r: set<string>)
    ensures forall x :: x in r <==> exists k :: 0 <= k < |ds| && Some(ds[k].id) != editing && x in ds[k].employeeIds
    decreases |ds|
  {
    if |ds| == 0 then {}
    else
      var init, last := ds[..|ds| - 1], ds[|ds| - 1];
      var rest := OtherMembers(init, editing);
      assert forall k :: 0 <= k < |init| ==> init[k] == ds[k];
      rest + (if Some(last.id) != editing then set x | x in last.employeeIds else {})
  }

  /** When creating, the other-departments set covers every department. */
  lemma OtherMembersOnCreate(ds: seq<Department>, x: string)
    ensures x in OtherMembers(ds, None) <==> exists k :: 0 <= k < |ds| && x in ds[k].employeeIds
  {
  }

  /** `getEmployeesInOtherDepartments()`: the set filled department by department, id by id. */
  method EmployeesInOtherDepartments(departments: seq<Department>, editing: Option<string>) returns (inOther: set<string>)
    ensures inOther == OtherMembers(departments, editing)
  {
    inOther := {};
    for i := 0 to |departments|
      invariant inOther == OtherMembers(departments[..i], editing)
    {
      var dept := departments[i];
      assert departments[..i + 1][..i] == departments[..i];
      if Some(dept.id) != editing {
        for j := 0 to |dept.employeeIds|
          invariant inOther == OtherMembers(departments[..i], editing) + set x | x in dept.employeeIds[..j]
        {
          assert dept.employeeIds[..j + 1] == dept.employeeIds[..j] + [dept.employeeIds[j]];
          inOther := inOther + {dept.employeeIds[j]};
        }
        assert dept.employeeIds[..|dept.employeeIds|] == dept.employeeIds;
      }
    }
    assert departments[..|departments|] == departments;
  }

  /** Line 76: an active employee no other department lists. */
  predicate IsAvailable(inOther: set<string>, e: Employee)
  {
    e.active && e.id !in inOther
  }

  function AvailableIn(inOther: set<string>): Employee -> bool
  {
    (e: Employee) => IsAvailable(inOther, e)
  }

  /** `availableEmployees`: the active employees whose id no other department lists, in order. */
  function AvailableEmployees(es: seq<Employee>, inOther: set<string>): (r: seq<Employee>)
    ensures forall e :: e in r <==> e in es && e.active && e.id !in inOther
  {
    Filter(es, AvailableIn(inOther))
  }

  /** The errors `validate` records, one per failing field. */
  datatype FormErrors = FormErrors(name: Option<string>, managerId: Option<string>)

  /** Lines 87-100: the name must not be blank, a manager must be chosen. */
  function Validation(name: string, managerId: string): (r: FormErrors)
    ensures r.name.Some? <==> AllSpace(name)
    ensures r.managerId.Some? <==> managerId == ""
    ensures r.name.Some? ==> r.name.value == NameRequired
    ensures r.managerId.Some? ==> r.managerId.value == ManagerRequired
  {
    TrimEmptyIffBlank(name);
    FormErrors(if Trim(name) == [] then Some(NameRequired) else None,
               if managerId == "" then Some(ManagerRequired) else None)
  }

  /** `validate()` passes exactly when the trimmed name and the manager are both non-empty. */
  lemma ValidationPasses(name: string, managerId: string)
    ensures Validation(name, managerId) == FormErrors(None, None) <==> Trim(name) != [] && managerId != ""
  {
    TrimEmptyIffBlank(name);
  }

  /** The checkbox: checking appends the id, unchecking removes every occurrence. */
  function Toggled(ids: seq<string>, id: string, checked: bool): (r: seq<string>)
    ensures checked ==> r == ids + [id]
    ensures !checked ==> id !in r && forall y :: y != id ==> multiset(r)[y] == multiset(ids)[y]
  {
    if checked then ids + [id] else ArrayRemove(ids, id)
  }

  /**
   * Toggling only enabled boxes (employees no other department lists) never puts into the
   * form an id another department lists.
   */
  lemma ToggleKeepsExclusive(ids: seq<string>, inOther: set<string>, id: string, checked: bool)
    requires forall x :: x in ids ==> x !in inOther
    requires id !in inOther
    ensures forall x :: x in Toggled(ids, id, checked) ==> x !in inOther
  {
    if !checked {
      forall x | x in Toggled(ids, id, checked) ensures x !in inOther {
        assert multiset(Toggled(ids, id, checked))[x] > 0;
      }
    }
  }

  /**
   * A box shows as checked exactly when its id is listed, so checking fires only for an id not
   * yet listed: toggling keeps the list free of repeats.
   */
  lemma {:induction false} ToggleKeepsDistinct(ids: seq<string>, id: string, checked: bool)
    requires forall i, j :: 0 <= i < j < |ids| ==> ids[i] != ids[j]
    requires checked ==> id !in ids
    ensures var r := Toggled(ids, id, checked); forall i, j :: 0 <= i < j < |r| ==> r[i] != r[j]
  {
    if !checked {
      var r := Toggled(ids, id, checked);
      forall i, j | 0 <= i < j < |r| ensures r[i] != r[j] {
        if r[i] == r[j] {
          assert multiset(r)[r[i]] >= 2 by {
            assert r == r[..i] + [r[i]] + r[i + 1..j] + [r[j]] + r[j + 1..];
          }
          var y := r[i];
          assert multiset(ids)[y] >= 2;
          DistinctCountsOne(ids, y);
        }
      }
    }
  }

  /** In a list without repeats every id occurs at most once. */
  lemma {:induction false} DistinctCountsOne(ids: seq<string>, y: string)
    requires forall i, j :: 0 <= i < j < |ids| ==> ids[i] != ids[j]
    ensures multiset(ids)[y] <= 1
    decreases |ids|
  {
    if |ids| > 0 {
      var init := ids[..|ids| - 1];
      assert ids == init + [ids[|ids| - 1]];
      DistinctCountsOne(init, y);
      if ids[|ids| - 1] == y {
        assert y !in init by {
          forall i | 0 <= i < |init| ensures init[i] != y {
            assert ids[i] != ids[|ids| - 1];
          }
        }
      }
    }
  }

  /** The first other department that lists the id. */
  function FirstOtherListing(ds: seq<Department>, editing: Option<string>, id: string): (r: Option<nat>)
    ensures r.None? <==> forall k :: 0 <= k < |ds| ==> !(Some(ds[k].id) != editing && id in ds[k].employeeIds)
    ensures r.Some? ==> r.value < |ds| && Some(ds[r.value].id) != editing && id in ds[r.value].employeeIds
    ensures r.Some? ==> forall m :: 0 <= m < r.value ==> !(Some(ds[m].id) != editing && id in ds[m].employeeIds)
    decreases |ds|
  {
    if |ds| == 0 then None
    else if Some(ds[0].id) != editing && id in ds[0].employeeIds then Some(0)
    else
      match FirstOtherListing(ds[1..], editing, id)
      case None => None
      case Some(k) => Some(k + 1)
  }

  /** `otherDeptName`: the name of the first other department listing the employee, for a disabled box. */
  function OtherDeptName(ds: seq<Department>, editing: Option<string>, id: string): (r: Option<string>)
    ensures r.Some? <==> id in OtherMembers(ds, editing)
    ensures r.Some? ==> r == Some(ds[FirstOtherListing(ds, editing, id).value].name)
  {
    if id in OtherMembers(ds, editing) then
      match FirstOtherListing(ds, editing, id)
      case Some(k) => Some(ds[k].name)
      case None => None
    else None
  }

  /** The form's state: the three inputs and the recorded errors. */
  class DepartmentFormState {
    var name: string
    var managerId: string
    var employeeIds: seq<string>
    var errors: FormErrors

    /** Empty inputs, then the copy of the department being edited when there is one. */
    constructor (initialData: Option<Department>)
      ensures initialData.None? ==> name == "" && managerId == "" && employeeIds == []
      ensures initialData.Some? ==> (name == initialData.value.name && managerId == initialData.value.managerId &&
        employeeIds == initialData.value.employeeIds)
      ensures errors == FormErrors(None, None)
    {
      if initialData.Some? {
        name, managerId, employeeIds := initialData.value.name, initialData.value.managerId, initialData.value.employeeIds;
      } else {
        name, managerId, employeeIds := "", "", [];
      }
      errors := FormErrors(None, None);
    }

    /**
     * The checkbox of an employee: it shows as checked exactly when the id is listed, so it fires
     * with the opposite state; a disabled box (listed by another department) cannot fire.
     */
    method Toggle(id: string, checked: bool, inOther: set<string>)
      requires id !in inOther && checked == (id !in employeeIds)
      modifies this
      ensures employeeIds == Toggled(old(employeeIds), id, checked)
      ensures name == old(name) && managerId == old(managerId) && errors == old(errors)
    {
      if checked {
        employeeIds := employeeIds + [id];
      } else {
        employeeIds := ArrayRemove(employeeIds, id);
      }
    }

    /** `handleSubmit`: records the errors and, when there are none, hands the inputs over untrimmed. */
    method HandleSubmit() returns (submitted: Option<DepartmentFormData>)
      modifies this
      ensures errors == Validation(name, managerId)
      ensures submitted.Some? <==> Trim(name) != [] && managerId != ""
      ensures submitted.Some? ==> submitted.value == DepartmentFormData(name, managerId, employeeIds)
      ensures name == old(name) && managerId == old(managerId) && employeeIds == old(employeeIds)
    {
      errors := Validation(name, managerId);
      ValidationPasses(name, managerId);
      if errors == FormErrors(None, None) {
        submitted := Some(DepartmentFormData(name, managerId, employeeIds));
      } else {
        submitted := None;
      }
    }
  }
}
