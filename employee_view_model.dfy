/**
 * `useEmployeeViewModel`: a cached list of employees kept in step with the repository calls
 * it makes. Every mutation clears `error` first; on a repository failure the list stays as
 * it was, `error` gets the operation's message and the repository's error is passed on.
 */
module EmployeeViewModel {
  import opened Models
  import opened DocumentStore
  import opened EmployeeRepository

  const LoadError: string := "Erro ao carregar colaboradores"
  const AddError: string := "Erro ao adicionar colaborador"
  const DeleteError: string := "Erro ao deletar colaborador"
  const UpdateError: string := "Erro ao atualizar colaborador"

  class EmployeeListCache {
    var employees: seq<Employee>
    var isLoading: bool
    var error: Option<string>
    const repository: EmployeeRepository

    ghost predicate Valid()
      reads this, repository.store
    {
      repository.store.Valid()
    }

    /** The hook's initial state, before the first load. */
    constructor (repository: EmployeeRepository)
      ensures this.repository == repository
      ensures employees == [] && isLoading && error == None
    {
      this.repository := repository;
      employees := [];
      isLoading := true;
      error := None;
    }

    /** `loadEmployees()`: the repository's list, or the load error; loading ends either way. */
    method LoadEmployees(fails: bool)
      requires Valid()
      modifies this
      ensures Valid() && !isLoading
      ensures fails ==> employees == old(employees) && error == Some(LoadError)
      ensures !fails ==> employees == repository.store.employees && error == None
    {
      isLoading := true;
      error := None;
      var data := repository.GetAll(fails);
      if data.Err? {
        error := Some(LoadError);
      } else {
        employees := data.value;
      }
      isLoading := false;
    }

    /** `addEmployee(data)`: the created employee goes to the head of the list. */
    method AddEmployee(data: EmployeeFormData, newId: string, createdAt: string, fails: bool, syncFails: bool)
        returns (r: Result<()>)
      requires Valid() && FindEmployee(repository.store.employees, newId).None?
      modifies this, repository.store
      ensures Valid() && isLoading == old(isLoading)
      ensures r.Ok? <==> !fails && EmployeeWithEmail(old(repository.store.employees), data.email).None?
      ensures r.Ok? ==> employees == [NewEmployee(newId, data, createdAt)] + old(employees) && error == None
      ensures r.Err? ==> employees == old(employees) && error == Some(AddError)
      ensures r.Err? ==> r.message == (if fails then StoreFailure else DuplicateEmail)
      ensures r.Err? ==> repository.store.employees == old(repository.store.employees) &&
                         repository.store.departments == old(repository.store.departments)
      ensures r.Ok? ==> repository.store.employees == old(repository.store.employees) + [NewEmployee(newId, data, createdAt)]
      ensures r.Ok? ==> (repository.store.departments ==
        if syncFails then old(repository.store.departments) else JoinDepartment(old(repository.store.departments), newId, data.department))
    {
      error := None;
      var created := repository.Create(data, newId, createdAt, fails, syncFails);
      if created.Err? {
        error := Some(AddError);
        return Err(created.message);
      }
      employees := [created.value] + employees;
      r := Ok(());
    }

    /** `deleteEmployee(id)`: every cached entry with that id goes; the others keep their order. */
    method DeleteEmployee(id: string, removeFails: bool, deleteFails: bool) returns (r: Result<()>)
      requires Valid()
      modifies this, repository.store
      ensures Valid() && isLoading == old(isLoading)
      ensures r.Err? <==> removeFails || deleteFails
      ensures r.Ok? ==> employees == WithoutEmployees(old(employees), {id}) && error == None
      ensures r.Err? ==> employees == old(employees) && error == Some(DeleteError) && r.message == StoreFailure
      ensures repository.store.departments ==
        if removeFails then old(repository.store.departments) else WithoutMember(old(repository.store.departments), id)
      ensures repository.store.employees ==
        if r.Ok? then WithoutEmployees(old(repository.store.employees), {id}) else old(repository.store.employees)
    {
      error := None;
      var deleted := repository.Delete(id, removeFails, deleteFails);
      if deleted.Err? {
        error := Some(DeleteError);
        return Err(deleted.message);
      }
      employees := WithoutEmployees(employees, {id});
      r := Ok(());
    }

    /** `updateEmployee(id, data)`: merges the patch into the cached entries with that id. */
    method UpdateEmployee(id: string, patch: EmployeePatch, lookupFails: bool, unsyncFails: bool, syncFails: bool, writeFails: bool)
        returns (r: Result<()>)
      requires Valid()
      modifies this, repository.store
      ensures Valid() && isLoading == old(isLoading)
      ensures r == UpdateOutcome(old(repository.store.employees), id, patch, lookupFails, writeFails)
      ensures r.Ok? ==> employees == PatchEmployees(old(employees), id, patch) && error == None
      ensures r.Err? ==> employees == old(employees) && error == Some(UpdateError)
      ensures !PassesEmailCheck(old(repository.store.employees), id, patch, lookupFails) ==>
        repository.store.departments == old(repository.store.departments)
      ensures PassesEmailCheck(old(repository.store.employees), id, patch, lookupFails) ==>
        repository.store.departments == match MoveFrom(old(repository.store.employees), id, patch.department)
          case None => old(repository.store.departments)
          case Some(from) => Moved(old(repository.store.departments), id, from, patch.department.value, unsyncFails, syncFails)
      ensures repository.store.employees ==
        if r.Ok? then PatchEmployees(old(repository.store.employees), id, patch) else old(repository.store.employees)
    {
      error := None;
      var updated := repository.Update(id, patch, lookupFails, unsyncFails, syncFails, writeFails);
      if updated.Err? {
        error := Some(UpdateError);
        return Err(updated.message);
      }
      employees := PatchEmployees(employees, id, patch);
      r := Ok(());
    }
  }
}
