/**
 * `useDepartmentViewModel`: a cached list of departments kept in step with the repository
 * calls it makes. On a failure the list stays as it was; adding and updating record the
 * error's message in `error`, deleting only passes the error on.
 */
module DepartmentViewModel {
  import opened Models
  import opened DocumentStore
  import opened DepartmentRepository

  const LoadError: string := "Erro ao carregar departamentos"
  const AddError: string := "Erro ao adicionar departamento"
  const UpdateError: string := "Erro ao atualizar departamento"

  /** `err.message || fallback`. */
  function MessageOr(message: string, fallback: string): (r: string)
    ensures fallback != "" ==> r != ""
    ensures message != "" ==> r == message
    ensures message == "" ==> r == fallback
  {
    if message != "" then message else fallback
  }

  class DepartmentListCache {
    var departments: seq<Department>
    var loading: bool
    var error: Option<string>
    const repository: DepartmentRepository

    ghost predicate Valid()
      reads this, repository.store
    {
      repository.store.Valid()
    }

    /** The hook's initial state, before the first load. */
    constructor (repository: DepartmentRepository)
      ensures this.repository == repository
      ensures departments == [] && loading && error == None
    {
      this.repository := repository;
      departments := [];
      loading := true;
      error := None;
    }

    /** `loadDepartments()`: on success the list and a cleared error, else the load error; loading ends either way. */
    method LoadDepartments(fails: bool)
      requires Valid()
      modifies this
      ensures Valid() && !loading
      ensures fails ==> departments == old(departments) && error == Some(LoadError)
      ensures !fails ==> departments == repository.store.departments && error == None
    {
      loading := true;
      var data := repository.GetAll(fails);
      if data.Err? {
        error := Some(LoadError);
      } else {
        departments := data.value;
        error := None;
      }
      loading := false;
    }

    /** `addDepartment(data)`: the created department goes to the head of the list and is returned. */
    method AddDepartment(data: DepartmentFormData, newId: string, createdAt: string, fails: bool)
        returns (r: Result<Department>)
      requires Valid() && DepartmentAt(repository.store.departments, newId).None?
      modifies this, repository.store
      ensures Valid() && loading == old(loading)
      ensures r.Ok? <==> !fails && DepartmentNamed(old(repository.store.departments), data.name).None?
      ensures r.Ok? ==> r.value == NewDepartment(newId, data, createdAt)
      ensures r.Ok? ==> departments == [r.value] + old(departments) && error == old(error)
      ensures r.Err? ==> departments == old(departments) && error == Some(r.message)
      ensures r.Err? ==> r.message == (if fails then StoreFailure else DuplicateName)
      ensures repository.store.employees == old(repository.store.employees)
      ensures repository.store.departments ==
        if r.Ok? then old(repository.store.departments) + [r.value] else old(repository.store.departments)
    {
      var created := repository.Create(data, newId, createdAt, fails);
      if created.Err? {
        var message := MessageOr(created.message, AddError);
        error := Some(message);
        return Err(message);
      }
      departments := [created.value] + departments;
      r := created;
    }

    /** `updateDepartment(id, data)`: merges the patch into the cached entries with that id. */
    method UpdateDepartment(id: string, patch: DepartmentPatch, fails: bool) returns (r: Result<()>)
      requires Valid()
      modifies this, repository.store
      ensures Valid() && loading == old(loading)
      ensures r.Err? <==> fails || NameTakenByOther(old(repository.store.departments), patch.name, id) ||
                          DepartmentAt(old(repository.store.departments), id).None?
      ensures r.Ok? ==> departments == PatchDepartments(old(departments), id, patch) && error == old(error)
      ensures r.Err? ==> departments == old(departments) && error == Some(r.message)
      ensures repository.store.employees == old(repository.store.employees)
      ensures repository.store.departments ==
        if r.Ok? then PatchDepartments(old(repository.store.departments), id, patch) else old(repository.store.departments)
    {
      var updated := repository.Update(id, patch, fails);
      if updated.Err? {
        var message := MessageOr(updated.message, UpdateError);
        error := Some(message);
        return Err(message);
      }
      departments := PatchDepartments(departments, id, patch);
      r := Ok(());
    }

    /** `deleteDepartment(id)`: drops the cached entries with that id; a failure leaves `error` alone. */
    method DeleteDepartment(id: string, fails: bool) returns (r: Result<()>)
      requires Valid()
      modifies this, repository.store
      ensures Valid() && loading == old(loading) && error == old(error)
      ensures r.Err? <==> fails
      ensures departments == if fails then old(departments) else WithoutDepartments(old(departments), {id})
      ensures repository.store.employees == old(repository.store.employees)
      ensures repository.store.departments ==
        if fails then old(repository.store.departments) else WithoutDepartments(old(repository.store.departments), {id})
    {
      r := repository.Delete(id, fails);
      if r.Ok? {
        departments := WithoutDepartments(departments, {id});
      }
    }

    /** `deleteMultipleDepartments(ids)`: drops exactly the cached entries whose id is listed. */
    method DeleteMultipleDepartments(ids: seq<string>, fails: bool) returns (r: Result<()>)
      requires Valid()
      modifies this, repository.store
      ensures Valid() && loading == old(loading) && error == old(error)
      ensures r.Err? <==> fails
      ensures departments == if fails then old(departments) else WithoutDepartments(old(departments), set x | x in ids)
      ensures repository.store.employees == old(repository.store.employees)
      ensures repository.store.departments ==
        if fails then old(repository.store.departments) else WithoutDepartments(old(repository.store.departments), set x | x in ids)
    {
      r := repository.DeleteMultiple(ids, fails);
      if r.Ok? {
        departments := WithoutDepartments(departments, set x | x in ids);
      }
    }
  }
}
