/**
 * `DepartmentRepository`: department documents. Creating and renaming check that no other
 * department holds the name; deleting never touches the employees that name the department.
 */
module DepartmentRepository {
  import opened Seqs
  import opened Models
  import opened DocumentStore

  /** The error `create` and `update` throw for a name held by another department. */
  const DuplicateName: string := "Já existe um departamento cadastrado com este nome"

  /** The error of a store read or write that fails; the model does not distinguish causes. */
  const StoreFailure: string := "unavailable"

  /**
   * Lines 50-54: a non-empty name in the patch that the first department with it holds under
   * another id. Some other department always holds it then; with unique names, that is also
   * enough.
   */
  function NameTakenByOther(ds: seq<Department>, name: Option<string>, id: string): (taken: bool)
    ensures taken ==> name.Some? && name.value != ""
    ensures taken ==> exists k :: 0 <= k < |ds| && ds[k].name == name.value && ds[k].id != id
    ensures NamesUnique(ds) && name.Some? && name.value != "" ==>
      (taken <==> exists k :: 0 <= k < |ds| && ds[k].name == name.value && ds[k].id != id)
  {
    name.Some? && name.value != "" &&
    match DepartmentNamed(ds, name.value)
    case Some(j) => ds[j].id != id
    case None => false
  }

  /** `create` appends only a name nobody holds, so unique names stay unique. */
  lemma CreateKeepsNamesUnique(ds: seq<Department>, d: Department)
    requires NamesUnique(ds) && DepartmentNamed(ds, d.name).None?
    ensures NamesUnique(ds + [d])
  {
  }

  /**
   * `update` with a non-empty name that no other department holds keeps names unique;
   * keeping a department's own name is allowed.
   */
  lemma UpdateKeepsNamesUnique(ds: seq<Department>, id: string, p: DepartmentPatch)
    requires DepartmentIdsDistinct(ds) && NamesUnique(ds)
    requires p.name != Some("") && !NameTakenByOther(ds, p.name, id)
    ensures NamesUnique(PatchDepartments(ds, id, p))
  {
    var r := PatchDepartments(ds, id, p);
    if p.name.Some? {
      forall i, j | 0 <= i < j < |r| ensures r[i].name != r[j].name {
        if ds[i].id == id || ds[j].id == id {
          assert DepartmentKey(ds[i]) != DepartmentKey(ds[j]);
          var k := if ds[i].id == id then j else i;
          assert ds[k].id != id && r[k] == ds[k];
        }
      }
    }
  }

  /** An empty name in the patch skips the check, and two departments can end up sharing it. */
  lemma EmptyNameSkipsCheck()
    ensures var a := Department("a", "", "m", [], "t0");
      var b := Department("b", "TI", "m", [], "t1");
      var p := DepartmentPatch(Some(""), None, None);
      NamesUnique([a, b]) && !NameTakenByOther([a, b], p.name, "b") &&
      !NamesUnique(PatchDepartments([a, b], "b", p))
  {
    var a := Department("a", "", "m", [], "t0");
    var b := Department("b", "TI", "m", [], "t1");
    var p := DepartmentPatch(Some(""), None, None);
    var r := PatchDepartments([a, b], "b", p);
    assert r[0].name == r[1].name;
  }

  class DepartmentRepository {
    const store: Store

    constructor (store: Store)
      ensures this.store == store
    {
      this.store := store;
    }

    /** `getAll()`: the department documents in the order the store returns them. */
    method GetAll(fails: bool) returns (r: Result<seq<Department>>)
      requires store.Valid()
      ensures fails ==> r == Err(StoreFailure)
      ensures !fails ==> r.Ok? && r.value == store.departments && DepartmentIdsDistinct(r.value)
    {
      if fails {
        return Err(StoreFailure);
      }
      r := Ok(store.departments);
    }

    /** `findByName(name)`: the first department with exactly that name, or none. */
    method FindByName(name: string) returns (r: Option<Department>)
      ensures r.None? <==> forall k :: 0 <= k < |store.departments| ==> store.departments[k].name != name
      ensures r.Some? ==> r.value.name == name
      ensures r.Some? ==> exists k :: (0 <= k < |store.departments| && store.departments[k] == r.value &&
        forall m :: 0 <= m < k ==> store.departments[m].name != name)
    {
      var found := DepartmentNamed(store.departments, name);
      if found.None? {
        return None;
      }
      r := Some(store.departments[found.value]);
    }

    /**
     * `create(data)`: rejects a name some department already holds; otherwise stores the data
     * with `createdAt` under the fresh id `newId` and returns the stored record. `fails` is a
     * failing lookup or add, which propagates with nothing written.
     */
    method Create(data: DepartmentFormData, newId: string, createdAt: string, fails: bool) returns (r: Result<Department>)
      requires store.Valid() && DepartmentAt(store.departments, newId).None?
      modifies store
      ensures store.Valid() && store.employees == old(store.employees)
      ensures fails ==> r == Err(StoreFailure)
      ensures !fails && DepartmentNamed(old(store.departments), data.name).Some? ==> r == Err(DuplicateName)
      ensures r.Ok? <==> !fails && DepartmentNamed(old(store.departments), data.name).None?
      ensures r.Err? ==> store.departments == old(store.departments)
      ensures r.Ok? ==> r.value == NewDepartment(newId, data, createdAt)
      ensures r.Ok? ==> store.departments == old(store.departments) + [r.value]
    {
      if fails {
        return Err(StoreFailure);
      }
      var existing := FindByName(data.name);
      if existing.Some? {
        return Err(DuplicateName);
      }
      var department := NewDepartment(newId, data, createdAt);
      store.AddDepartment(department);
      r := Ok(department);
    }

    /**
     * `update(id, data)`: rejects a non-empty name held by another department, then merges
     * the patch, which fails with not-found for an unknown id. `fails` is a failing name
     * lookup or write; either way nothing is written.
     */
    method Update(id: string, patch: DepartmentPatch, fails: bool) returns (r: Result<()>)
      requires store.Valid()
      modifies store
      ensures store.Valid() && store.employees == old(store.employees)
      ensures fails ==> r == Err(StoreFailure)
      ensures !fails && NameTakenByOther(old(store.departments), patch.name, id) ==> r == Err(DuplicateName)
      ensures !fails && !NameTakenByOther(old(store.departments), patch.name, id) ==>
        r == if DepartmentAt(old(store.departments), id).None? then Err(NotFound) else Ok(())
      ensures store.departments == if r.Ok? then PatchDepartments(old(store.departments), id, patch) else old(store.departments)
    {
      if fails {
        return Err(StoreFailure);
      }
      if patch.name.Some? && patch.name.value != "" {
        var existing := FindByName(patch.name.value);
        if existing.Some? && existing.value.id != id {
          return Err(DuplicateName);
        }
      }
      r := store.UpdateDepartment(id, patch);
    }

    /** `delete(id)`: only that department goes and no employee document changes; a failed delete removes nothing. */
    method Delete(id: string, fails: bool) returns (r: Result<()>)
      requires store.Valid()
      modifies store
      ensures store.Valid() && store.employees == old(store.employees)
      ensures r.Err? <==> fails
      ensures store.departments == if fails then old(store.departments) else WithoutDepartments(old(store.departments), {id})
    {
      if fails {
        return Err(StoreFailure);
      }
      store.DeleteDepartments({id});
      r := Ok(());
    }

    /** `deleteMultiple(ids)`: one batch deleting exactly the listed ids; a failed commit deletes nothing. */
    method DeleteMultiple(ids: seq<string>, fails: bool) returns (r: Result<()>)
      requires store.Valid()
      modifies store
      ensures store.Valid() && store.employees == old(store.employees)
      ensures r.Err? <==> fails
      ensures store.departments == if fails then old(store.departments) else WithoutDepartments(old(store.departments), set x | x in ids)
    {
      var batch: set<string> := {};
      for i := 0 to |ids|
        invariant batch == set x | x in ids[..i]
      {
        assert ids[..i + 1] == ids[..i] + [ids[i]];
        batch := batch + {ids[i]};
      }
      assert ids[..|ids|] == ids;
      if fails {
        return Err(StoreFailure);
      }
      store.DeleteDepartments(batch);
      r := Ok(());
    }
  }
}
