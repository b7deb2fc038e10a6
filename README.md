# Employee and department administration: a Dafny model

The application keeps two document collections: employees and departments. An employee
names its department by text in its `department` field. A department keeps an
`employeeIds` list of its members. This project models the logic that keeps the two
collections consistent, and the form and validation rules around them. It proves what that
logic promises. The modelled parts are:

- **The bulk repair pass** (`syncAllEmployeesWithDepartments`). Phase 1 strips every id that
  does not name an existing active employee and counts the removals (`cleanCount`). Phase 2
  appends each active employee to the first department named by its `department` field,
  unless that department already lists it, and counts the additions (`syncCount`). The
  imperative method is proved equal to a functional specification, `RepairOf`. The lemmas
  prove the following about `RepairOf`:
  - cleanup exactness;
  - the counting identities;
  - only active ids remain;
  - every active, matching employee is listed;
  - a second pass on an unchanged store has nothing left to clean or add.
- **The employee repository.** `create` and `update` check that the email is free. They also
  add the employee's id to, or move it between, departments looked up by name. Those
  membership writes swallow their failures. `delete` and `deleteMultiple` remove the id from
  every department first; that removal does not swallow its failure, so a failure aborts the
  delete.
- **The department repository**, with its name-uniqueness pre-checks.
- **The two-step employee form state machine**: per-field validation, step validation, the
  touched discipline, step navigation and reset.
- **The list view models.** Each keeps a cached sequence and an error field that it updates
  after each repository call.
- **The department form and lists**:
  - the department form's membership exclusion and validation;
  - the department list's derived values and members modal;
  - the employee list's avatar initials;
  - the register page's password pre-checks and its error-code mapping.

The document store is the class `DocumentStore.Store`. It holds the employees and the
departments as sequences with distinct ids, and offers these primitives:
- add;
- partial-field merge, which fails with not-found for an unknown id;
- delete and batched delete;
- `employeeIds` updates with `arrayUnion` (append the id when it is absent) and
  `arrayRemove` (remove every occurrence), singly or in one batch.

These two array operations follow the store library's documented behaviour. They are
assumptions of the model, not code of the application. A store read or write that fails is
a boolean parameter of the repository operation that performs it (see "## Left out" for
which calls have one). Generated document ids and `createdAt` timestamps are parameters too.

`EmployeeRepository.update` calls `this.findById` (src/repositories/EmployeeRepository.ts:64),
but the repository class does not define it. `EmployeeRepository.EmployeeRepository.Update`,
which the view model uses, reads it as a lookup of the employee by id in the store
(`EmployeeRepository.MoveFrom`). The code as written is modelled beside it; see "## Findings".

## Model

| member | source | states |
|---|---|---|
| Models.NewEmployee | src/repositories/EmployeeRepository.ts:38-48 | the stored record is the form data with the generated id and `createdAt` added |
| Models.NewDepartment | src/repositories/DepartmentRepository.ts:36-46 | the stored record keeps the given name, `managerId` and `employeeIds` and adds the id and `createdAt` |
| Models.ApplyPatch | src/repositories/EmployeeRepository.ts:71-72 | each field present in the partial data replaces the stored one; every absent field, the id and `createdAt` are kept |
| Models.ApplyDepartmentPatch | src/repositories/DepartmentRepository.ts:57-58 | the same merge for departments: present fields replace, absent ones are kept |
| Models.EmptyPatchIsIdentity | src/repositories/EmployeeRepository.ts:71-72 | merging empty partial data leaves the employee unchanged |
| Models.FindEmployee | src/utils/syncEmployeesDepartments.ts:32 | the first employee with the id; none exactly when no employee has that id |
| Models.FindEmployeeUnique | src/utils/syncEmployeesDepartments.ts:32 | with distinct ids, the lookup of an employee's own id returns that employee |
| Models.EmployeeWithEmail | src/repositories/EmployeeRepository.ts:94-105 | the first employee with the email; none exactly when no employee has it |
| Models.DepartmentNamed | src/repositories/DepartmentRepository.ts:75-86 | the position of the first department with that exact name; none exactly when no name matches |
| Models.SameNamesSameLookup | src/repositories/EmployeeRepository.ts:127-131 | the lookup by name depends only on the names, so a membership write never changes which department a later lookup finds |
| Models.DepartmentAt | src/repositories/DepartmentRepository.ts:57-58 | the position of the first department document with the id; none exactly when there is none |
| DocumentStore.ArrayUnion | src/repositories/EmployeeRepository.ts:134-136 | the id is present afterwards and the old list is a prefix; the id occurs once if it was absent; other ids keep their counts |
| DocumentStore.ArrayRemove | src/repositories/EmployeeRepository.ts:153-155 | the id is absent afterwards and every other id keeps its number of occurrences |
| DocumentStore.UpdateIds | src/repositories/EmployeeRepository.ts:132-136 | only the list of the department with that id changes; ids, names and managers are kept |
| DocumentStore.UpdateIdsAt | src/repositories/EmployeeRepository.ts:132-136 | with distinct department ids, the update changes exactly one position |
| DocumentStore.CommitIds | src/utils/syncEmployeesDepartments.ts:42-46 | a committed batch replaces the list of each department in the batch and nothing else |
| DocumentStore.PatchEmployees | src/repositories/EmployeeRepository.ts:71-72 | the merge applies to the document with the id; every other employee is unchanged and the length is kept |
| DocumentStore.PatchDepartments | src/repositories/DepartmentRepository.ts:57-58 | the merge applies to the department with the id; every other department is unchanged |
| DocumentStore.WithoutEmployees | src/repositories/EmployeeRepository.ts:86-91 | exactly the employees whose id is not deleted remain, each as often as before |
| DocumentStore.WithoutDepartments | src/repositories/DepartmentRepository.ts:66-73 | exactly the departments whose id is not deleted remain, each as often as before |
| DocumentStore.WithoutEmployeesDistinct | src/repositories/EmployeeRepository.ts:77-78 | deleting employee documents keeps the remaining ids distinct |
| DocumentStore.WithoutDepartmentsDistinct | src/repositories/DepartmentRepository.ts:62-63 | deleting department documents keeps the remaining ids distinct |
| DocumentStore.Store.constructor | src/repositories/EmployeeRepository.ts:18-21 | a store of two collections with distinct ids |
| DocumentStore.Store.AddEmployee | src/repositories/EmployeeRepository.ts:43 | the new document is appended under an unused id; departments are unchanged |
| DocumentStore.Store.UpdateEmployee | src/repositories/EmployeeRepository.ts:71-72 | an unknown id fails with not-found and changes nothing; otherwise exactly the merge is applied |
| DocumentStore.Store.DeleteEmployees | src/repositories/EmployeeRepository.ts:86-91 | exactly the listed employee documents go; departments are unchanged |
| DocumentStore.Store.AddDepartment | src/repositories/DepartmentRepository.ts:41 | the new department is appended under an unused id; employees are unchanged |
| DocumentStore.Store.UpdateDepartment | src/repositories/DepartmentRepository.ts:57-58 | an unknown id fails with not-found and changes nothing; otherwise exactly the merge is applied |
| DocumentStore.Store.DeleteDepartments | src/repositories/DepartmentRepository.ts:66-73 | exactly the listed department documents go; employees are unchanged |
| DocumentStore.Store.UpdateDepartmentIds | src/repositories/EmployeeRepository.ts:132-136 | one department's `employeeIds` write; ids stay distinct and employees are unchanged |
| DocumentStore.Store.CommitDepartmentIds | src/utils/syncEmployeesDepartments.ts:42-46 | a batch of `employeeIds` writes is committed; ids stay distinct and employees are unchanged |
| Text.Trim | src/viewmodels/FormViewModel.ts:53 | the result neither starts nor ends with whitespace |
| Text.TrimIsInfix | src/viewmodels/FormViewModel.ts:53 | the trimmed text is a slice of the input with only whitespace cut on either side |
| Text.TrimEmptyIffBlank | src/viewmodels/FormViewModel.ts:53 | trimming gives the empty string exactly when the input is all whitespace |
| Text.Upper | src/views/pages/EmployeeList.tsx:33 | the same length, with each character upper-cased |
| Text.Split | src/views/pages/EmployeeList.tsx:33 | at least one piece, and no piece contains the separator |
| Text.JoinSplit | src/views/pages/EmployeeList.tsx:33 | joining the pieces with the separator gives back the input |
| Text.SplitWithoutSeparator | src/views/pages/EmployeeList.tsx:33 | a text without the separator is a single piece |
| SyncEmployeesDepartments.ValidIdsExact | src/utils/syncEmployeesDepartments.ts:31-40 | the kept ids are exactly the occurrences naming an existing active employee; the removed ones are the others; together they account for every occurrence |
| SyncEmployeesDepartments.Cleaned | src/utils/syncEmployeesDepartments.ts:27-44 | cleanup replaces only `employeeIds`, with the kept ids, on every department |
| SyncEmployeesDepartments.CleanCountIsDropped | src/utils/syncEmployeesDepartments.ts:27-44 | `cleanCount` is the total number of id occurrences before cleanup minus the total kept |
| SyncEmployeesDepartments.ActiveIdKept | src/utils/syncEmployeesDepartments.ts:34 | an active employee's id is always kept, whatever department its `department` field names |
| SyncEmployeesDepartments.SnapshotTestAgrees | src/utils/syncEmployeesDepartments.ts:55-57 | for an active employee, the membership test on the pre-cleanup snapshot agrees with the test on the cleaned list |
| SyncEmployeesDepartments.Synced | src/utils/syncEmployeesDepartments.ts:50-67 | the sync phase only adds ids, and every added id belongs to an active employee whose department name matches |
| SyncEmployeesDepartments.SyncStepKeeps | src/utils/syncEmployeesDepartments.ts:59-61 | one `arrayUnion` never removes a listed id |
| SyncEmployeesDepartments.SyncStepAdds | src/utils/syncEmployeesDepartments.ts:59-61 | an employee that needs syncing is listed in its first matching department after its step |
| SyncEmployeesDepartments.SyncedAdds | src/utils/syncEmployeesDepartments.ts:50-61 | after the whole phase, every employee that needed syncing is listed in its first matching department |
| SyncEmployeesDepartments.RepairLeavesOnlyActiveIds | src/utils/syncEmployeesDepartments.ts:31-61 | after the pass, every id in every department names an existing active employee |
| SyncEmployeesDepartments.RepairSyncsActiveEmployees | src/utils/syncEmployeesDepartments.ts:50-61 | after the pass, every active employee with a non-empty department that some department has as its name is listed in the first such department |
| SyncEmployeesDepartments.SyncStepTotal | src/utils/syncEmployeesDepartments.ts:57-62 | each counted step adds exactly one id occurrence, and an uncounted step adds none |
| SyncEmployeesDepartments.NotYetListed | src/utils/syncEmployeesDepartments.ts:55-57 | an employee the snapshot does not list has not been added by earlier employees either, given distinct ids |
| SyncEmployeesDepartments.SyncedTotal | src/utils/syncEmployeesDepartments.ts:50-67 | `syncCount` equals the number of ids the sync phase appends |
| SyncEmployeesDepartments.RepairCounts | src/utils/syncEmployeesDepartments.ts:21-67 | ids after the pass plus `cleanCount` equal ids before the pass plus `syncCount` |
| SyncEmployeesDepartments.SyncedNothingToDo | src/utils/syncEmployeesDepartments.ts:57 | when no employee needs syncing, the phase writes nothing |
| SyncEmployeesDepartments.RepairIdempotent | src/utils/syncEmployeesDepartments.ts:34-57 | on an unchanged store, a second pass leaves the departments as they are and returns `cleanCount = 0` and `syncCount = 0` |
| SyncEmployeesDepartments.ValidEmployeeIds | src/utils/syncEmployeesDepartments.ts:28-40 | the inner loop builds exactly the kept ids, in order, and counts exactly the removed ones |
| SyncEmployeesDepartments.CleanupBatch | src/utils/syncEmployeesDepartments.ts:25-44 | the cleanup loop's batch, once committed, gives the cleaned departments; the counter ends at `cleanCount` |
| SyncEmployeesDepartments.SyncedSnoc | src/utils/syncEmployeesDepartments.ts:50-62 | one more employee of the sync loop is one more step and at most one more count |
| SyncEmployeesDepartments.SyncAllEmployeesWithDepartments | src/utils/syncEmployeesDepartments.ts:4-70 | the pass leaves employees untouched and ends with the departments and both counters of the specification `RepairOf` |
| EmployeeRepository.JoinDepartment | src/repositories/EmployeeRepository.ts:124-141 | only the `employeeIds` of the first department with the name can change; nothing changes when no name matches |
| EmployeeRepository.LeaveDepartment | src/repositories/EmployeeRepository.ts:143-160 | only the `employeeIds` of the first department with the name can change; nothing changes when no name matches |
| EmployeeRepository.JoinDepartmentEffect | src/repositories/EmployeeRepository.ts:124-141 | the matching department then contains the id, exactly once if it was absent; its old list is a prefix of the new one and every other id keeps its count; every other department is unchanged |
| EmployeeRepository.LeaveDepartmentEffect | src/repositories/EmployeeRepository.ts:143-160 | the matching department then lacks the id and keeps every other id; other departments are unchanged |
| EmployeeRepository.WithoutMember | src/repositories/EmployeeRepository.ts:107-122 | no department lists the id; every other id keeps its count; names and ids are kept |
| EmployeeRepository.WithoutMembers | src/repositories/EmployeeRepository.ts:81-84 | after removing each listed id, no department lists any of them and other ids keep their counts |
| EmployeeRepository.MoveMembership | src/repositories/EmployeeRepository.ts:63-69 | a move takes the id out of the old name's department, puts it into the new name's department, and touches no other department |
| EmployeeRepository.MoveFrom | src/repositories/EmployeeRepository.ts:63-65 | a move happens exactly for a non-empty new department that differs from the stored one of an existing employee |
| EmployeeRepository.EmailTakenByOther | src/repositories/EmployeeRepository.ts:56-61 | the check rejects only a non-empty email that another employee holds; with unique emails it rejects every such email |
| EmployeeRepository.Moved | src/repositories/EmployeeRepository.ts:63-69 | ids and names are kept; a join that goes through lists the id in the new name's department; an unlisting that goes through, with the join failing, leaves it out of the old name's department; with both failing nothing changes |
| EmployeeRepository.UpdateOutcome | src/repositories/EmployeeRepository.ts:55-73 | the duplicate-email error exactly when the lookup answers and another employee holds the email; not-found exactly when the checks pass, the write goes through and the id is unknown; success exactly when they pass and the id is stored |
| EmployeeRepository.UpdateOutcomeAsWritten | src/repositories/EmployeeRepository.ts:63-64 | past the email check, a non-empty department in the patch always fails with the missing-method error; without one the outcome is the intended one |
| EmployeeRepository.EditWithDepartmentFailsAsWritten | src/repositories/EmployeeRepository.ts:63-64 | editing a stored employee with a department and a free email fails as written and succeeds as intended |
| EmployeeRepository.CreateKeepsEmailsUnique | src/repositories/EmployeeRepository.ts:32-36 | adding an employee whose email nobody holds keeps emails unique |
| EmployeeRepository.UpdateKeepsEmailsUnique | src/repositories/EmployeeRepository.ts:55-61 | an update whose non-empty email passes the check keeps emails unique |
| EmployeeRepository.EmptyEmailSkipsCheck | src/repositories/EmployeeRepository.ts:56 | an empty email in the update skips the check, and two employees can end up sharing it |
| EmployeeRepository.EmployeeRepository.GetAll | src/repositories/EmployeeRepository.ts:23-30 | the employee documents, or the store's error |
| EmployeeRepository.EmployeeRepository.FindByEmail | src/repositories/EmployeeRepository.ts:94-105 | the first employee with that email, or none exactly when no one has it |
| EmployeeRepository.EmployeeRepository.SyncWithDepartment | src/repositories/EmployeeRepository.ts:124-141 | the id is joined to the first department with the name; a failure is swallowed and writes nothing |
| EmployeeRepository.EmployeeRepository.UnsyncFromDepartment | src/repositories/EmployeeRepository.ts:143-160 | the id is removed from the first department with the name; a failure is swallowed and writes nothing |
| EmployeeRepository.EmployeeRepository.RemoveFromDepartments | src/repositories/EmployeeRepository.ts:107-122 | one batch removes the id from every department listing it; a failure propagates and writes nothing |
| EmployeeRepository.EmployeeRepository.Create | src/repositories/EmployeeRepository.ts:32-53 | a held email throws and nothing changes; otherwise the record is stored, returned, and joined to its department; a failed join is swallowed |
| EmployeeRepository.EmployeeRepository.Update | src/repositories/EmployeeRepository.ts:55-73 | a failing email lookup or an email held by another id throws and nothing changes; otherwise membership moves when the department changes, and then the merge is applied, unless the final write fails or the id is unknown, which leave the move written |
| EmployeeRepository.EmployeeRepository.UpdateAsWritten | src/repositories/EmployeeRepository.ts:55-73 | as written: no department is ever written, and a patch with a department that passes the email check throws with nothing written |
| EmployeeRepository.EmployeeRepository.Delete | src/repositories/EmployeeRepository.ts:75-79 | memberships go first; their failure aborts with nothing written; a failing document delete leaves the id unlisted everywhere and the employee in place |
| EmployeeRepository.EmployeeRepository.DeleteMultiple | src/repositories/EmployeeRepository.ts:81-92 | each id is removed from every department, in order; a failure stops the loop before any employee is deleted; otherwise exactly the listed employees go |
| DepartmentRepository.NameTakenByOther | src/repositories/DepartmentRepository.ts:50-55 | the check rejects only a non-empty name that another department holds; with unique names it rejects every such name |
| DepartmentRepository.CreateKeepsNamesUnique | src/repositories/DepartmentRepository.ts:30-34 | adding a department whose name nobody holds keeps names unique |
| DepartmentRepository.UpdateKeepsNamesUnique | src/repositories/DepartmentRepository.ts:49-59 | an update whose non-empty name passes the check keeps names unique; keeping its own name is allowed |
| DepartmentRepository.EmptyNameSkipsCheck | src/repositories/DepartmentRepository.ts:50 | an empty name in the update skips the check, and two departments can end up sharing it |
| DepartmentRepository.DepartmentRepository.GetAll | src/repositories/DepartmentRepository.ts:21-28 | the department documents, or the store's error |
| DepartmentRepository.DepartmentRepository.FindByName | src/repositories/DepartmentRepository.ts:75-86 | the first department with that exact name, or none exactly when no name matches |
| DepartmentRepository.DepartmentRepository.Create | src/repositories/DepartmentRepository.ts:30-47 | a held name throws and nothing is written; otherwise the record is appended and returned |
| DepartmentRepository.DepartmentRepository.Update | src/repositories/DepartmentRepository.ts:49-59 | a failing lookup or write, or a non-empty name held by another id, throws and nothing is written; otherwise the merge applies, or not-found for an unknown id |
| DepartmentRepository.DepartmentRepository.Delete | src/repositories/DepartmentRepository.ts:61-64 | only that department goes and no employee changes |
| DepartmentRepository.DepartmentRepository.DeleteMultiple | src/repositories/DepartmentRepository.ts:66-73 | exactly the listed departments go, in one batch; a failed commit deletes nothing |
| FormViewModel.IndexOf | src/viewmodels/FormViewModel.ts:67 | the first position of the character, or the length when it is absent |
| FormViewModel.EmailShape | src/viewmodels/FormViewModel.ts:67-68 | an accepted address has no whitespace, exactly one `@`, and at least five characters |
| FormViewModel.EmailShapeIsPattern | src/viewmodels/FormViewModel.ts:67-68 | the executable check agrees with the pattern: non-whitespace, one `@` after a non-empty part, and a `.` neither first nor last in the part after it |
| FormViewModel.NameError | src/viewmodels/FormViewModel.ts:52-62 | exactly when blank, the required error; exactly when the trimmed length is 1, the too-short error; exactly when it is over 100, the too-long error; otherwise it passes |
| FormViewModel.EmailError | src/viewmodels/FormViewModel.ts:63-74 | exactly when blank, the required error; exactly when the trimmed value is off the pattern, the invalid error; exactly when on the pattern and over 255 long, the too-long error; otherwise it passes |
| FormViewModel.SalaryError | src/viewmodels/FormViewModel.ts:80-89 | exactly when negative, the negative error; exactly when over 1,000,000, the too-high error; it passes exactly when absent or between 0 and 1,000,000 |
| FormViewModel.ValidateField | src/viewmodels/FormViewModel.ts:50-92 | the name, email and salary rules with their messages; the department-required error exactly when the department is empty; every profile field passes |
| FormViewModel.StepFields | src/viewmodels/FormViewModel.ts:94-109 | step 0 checks name and email, step 1 the department, and no step checks a profile field |
| FormViewModel.StepErrors | src/viewmodels/FormViewModel.ts:94-109 | the error map holds exactly the failing fields of the step, with their messages |
| FormViewModel.StepPassesIffFieldsValid | src/viewmodels/FormViewModel.ts:107-108 | the step passes exactly when every field of the step is valid |
| FormViewModel.SetError | src/viewmodels/FormViewModel.ts:118 | only that field's entry changes; `undefined` removes it |
| FormViewModel.SetField | src/viewmodels/FormViewModel.ts:115 | exactly the named field takes the value, for each of the nine fields |
| FormViewModel.SetFieldKeepsOtherErrors | src/viewmodels/FormViewModel.ts:115-119 | writing one field never changes another field's validation |
| FormViewModel.FromEmployee | src/viewmodels/FormViewModel.ts:32-46 | every field is loaded from the employee, with a missing position, admission date or manager as an empty string |
| FormViewModel.EmployeeForm.constructor | src/viewmodels/FormViewModel.ts:17-46 | step 0, no errors, nothing touched, and either the employee's data or the initial data |
| FormViewModel.EmployeeForm.GetProgress | src/viewmodels/FormViewModel.ts:161-163 | 50 at step 0 and 100 at step 1 |
| FormViewModel.EmployeeForm.ValidateStep | src/viewmodels/FormViewModel.ts:94-109 | the whole error map is replaced by the step's errors; true exactly when it is empty |
| FormViewModel.EmployeeForm.UpdateField | src/viewmodels/FormViewModel.ts:111-120 | the field is written; its error is recomputed only when it is touched, and no other error changes |
| FormViewModel.EmployeeForm.HandleBlur | src/viewmodels/FormViewModel.ts:122-126 | the field becomes touched and its error is set from the current value |
| FormViewModel.EmployeeForm.NextStep | src/viewmodels/FormViewModel.ts:128-136 | advances only when the step passes; on the last step it submits the data and stays; the step stays in [0,1] |
| FormViewModel.EmployeeForm.PreviousStep | src/viewmodels/FormViewModel.ts:138-142 | back one step, never below 0 |
| FormViewModel.EmployeeForm.ResetForm | src/viewmodels/FormViewModel.ts:144-159 | step 0, the initial data, and empty errors and touched |
| FormViewModel.InitialDataDefaults | src/viewmodels/FormViewModel.ts:18-28 | empty name and email, active, and both fail as required |
| FormViewModel.EmptyEmailIsRequired | src/viewmodels/FormViewModel.ts:64-66 | an empty email gives the required error |
| FormViewModel.EmailWithoutAtIsInvalid | src/viewmodels/FormViewModel.ts:67-70 | a non-blank email without `@` gives the invalid error |
| FormViewModel.PatternAddressPasses | src/viewmodels/FormViewModel.ts:63-74 | an email whose trimmed value matches the pattern and is at most 255 long passes |
| EmployeeViewModel.EmployeeListCache.constructor | src/viewmodels/EmployeeViewModel.ts:6-8 | an empty list, loading, and no error |
| EmployeeViewModel.EmployeeListCache.LoadEmployees | src/viewmodels/EmployeeViewModel.ts:14-26 | the list becomes the repository's employees, or the load error is set; loading ends false on both paths |
| EmployeeViewModel.EmployeeListCache.AddEmployee | src/viewmodels/EmployeeViewModel.ts:28-38 | the created employee is put first and the rest keep their order; a failure sets the error, keeps the list and rethrows; the store takes the repository's writes: the appended record and its membership, or nothing on failure |
| EmployeeViewModel.EmployeeListCache.DeleteEmployee | src/viewmodels/EmployeeViewModel.ts:40-50 | every entry with the id is removed and every other entry remains as often as before; a failure sets the error and keeps the list; the store loses the id's memberships unless their removal failed, and the document only on success |
| EmployeeViewModel.EmployeeListCache.UpdateEmployee | src/viewmodels/EmployeeViewModel.ts:52-64 | entries with the id take the merge; the length and other entries are unchanged; a failure sets the error and keeps the list; the store takes the repository's membership move and, only on success, the merge |
| DepartmentViewModel.MessageOr | src/viewmodels/DepartmentViewModel.ts:34 | the error's message when it has one, otherwise the fallback |
| DepartmentViewModel.DepartmentListCache.constructor | src/viewmodels/DepartmentViewModel.ts:6-8 | an empty list, loading, and no error |
| DepartmentViewModel.DepartmentListCache.LoadDepartments | src/viewmodels/DepartmentViewModel.ts:14-26 | success sets the list and clears the error; failure sets the load error; loading ends false on both paths |
| DepartmentViewModel.DepartmentListCache.AddDepartment | src/viewmodels/DepartmentViewModel.ts:28-39 | the created department is put first; a failure keeps the list and sets the error to the thrown message; the store gains the record only on success |
| DepartmentViewModel.DepartmentListCache.UpdateDepartment | src/viewmodels/DepartmentViewModel.ts:41-53 | the entry with the id takes the merge and others are unchanged; a failure keeps the list and sets the error; the store takes the merge only on success |
| DepartmentViewModel.DepartmentListCache.DeleteDepartment | src/viewmodels/DepartmentViewModel.ts:55-63 | entries with the id are removed; a failure keeps the list and does not set the error; the store loses the document only on success |
| DepartmentViewModel.DepartmentListCache.DeleteMultipleDepartments | src/viewmodels/DepartmentViewModel.ts:65-73 | exactly the entries whose id is listed are removed; a failure keeps the list and does not set the error; the store loses those documents only on success |
| DepartmentForm.Managers | src/views/pages/DepartmentForm.tsx:60 | exactly the active employees at the `gestor` level, each as often as in the employee list |
| DepartmentForm.ManagersInOrder | src/views/pages/DepartmentForm.tsx:60 | the managers keep the employee list's order: one more employee appends it when it is a manager, and a prefix gives a prefix |
| DepartmentForm.OtherMembers | src/views/pages/DepartmentForm.tsx:62-72 | an id is in the set exactly when some department other than the edited one lists it |
| DepartmentForm.OtherMembersOnCreate | src/views/pages/DepartmentForm.tsx:66 | when creating, every department counts |
| DepartmentForm.EmployeesInOtherDepartments | src/views/pages/DepartmentForm.tsx:62-72 | the nested loops build exactly that set |
| DepartmentForm.AvailableEmployees | src/views/pages/DepartmentForm.tsx:75-77 | exactly the active employees whose id no other department lists |
| DepartmentForm.Validation | src/views/pages/DepartmentForm.tsx:87-100 | the errors name exactly the failing fields: a blank name, an empty manager |
| DepartmentForm.ValidationPasses | src/views/pages/DepartmentForm.tsx:87-100 | validation passes exactly when the trimmed name and the manager are non-empty |
| DepartmentForm.Toggled | src/views/pages/DepartmentForm.tsx:212-218 | checking appends the id; unchecking removes every occurrence and keeps the other ids |
| DepartmentForm.ToggleKeepsExclusive | src/views/pages/DepartmentForm.tsx:211 | toggling only enabled boxes never puts into the form an id another department lists |
| DepartmentForm.ToggleKeepsDistinct | src/views/pages/DepartmentForm.tsx:210-214 | since a box is checked exactly when listed, toggling keeps the list without repeats |
| DepartmentForm.FirstOtherListing | src/views/pages/DepartmentForm.tsx:200-202 | the first department other than the edited one that lists the id, or none exactly when there is none |
| DepartmentForm.OtherDeptName | src/views/pages/DepartmentForm.tsx:199-203 | a name exactly when the id is in the other-departments set, and then the first such department's name |
| DepartmentForm.DepartmentFormState.constructor | src/views/pages/DepartmentForm.tsx:79-85 | empty inputs, or the edited department's name, manager and ids |
| DepartmentForm.DepartmentFormState.Toggle | src/views/pages/DepartmentForm.tsx:209-218 | the employee list becomes the toggled list; the other inputs and the errors are unchanged |
| DepartmentForm.DepartmentFormState.HandleSubmit | src/views/pages/DepartmentForm.tsx:104-114 | the errors are recorded; the data is submitted, untrimmed, exactly when validation passes |
| DepartmentList.ManagerName | src/views/pages/DepartmentList.tsx:66-69 | the name of the first employee with the manager's id, otherwise `Não definido` |
| DepartmentList.EmployeeCount | src/views/pages/DepartmentList.tsx:62-64 | the count is never below the number of different ids listed, and equals it when no id repeats |
| DepartmentList.DepartmentEmployees | src/views/pages/DepartmentList.tsx:71-73 | exactly the employees whose id the department lists, each as often as in the employee list; orphan ids contribute nothing |
| DepartmentList.DepartmentEmployeesInOrder | src/views/pages/DepartmentList.tsx:71-73 | the modal keeps the employee list's order: one more employee appends it when listed, and a prefix gives a prefix |
| DepartmentList.ListedAtMostCount | src/views/pages/DepartmentList.tsx:62-73 | with distinct employee ids each member is listed once, and the modal never shows more than the count |
| DepartmentList.ListedMatchesCount | src/views/pages/DepartmentList.tsx:62-73 | without repeated or orphan ids, the modal shows exactly as many employees as the count |
| DepartmentList.MembersModal.constructor | src/views/pages/DepartmentList.tsx:59-60 | closed, with nothing selected |
| DepartmentList.MembersModal.ViewEmployees | src/views/pages/DepartmentList.tsx:75-78 | open, with that department selected |
| DepartmentList.MembersModal.Close | src/views/pages/DepartmentList.tsx:80-83 | closed, with nothing selected |
| DepartmentList.MembersModal.EditSelected | src/views/pages/DepartmentList.tsx:329-333 | closes the modal and hands over the department that was selected |
| EmployeeList.FirstCharsAreWordStarts | src/views/pages/EmployeeList.tsx:33 | the first characters of the space-separated pieces are exactly the word starts, in order |
| EmployeeList.WordStarts | src/views/pages/EmployeeList.tsx:33 | word starts are never spaces and never outnumber the characters |
| EmployeeList.Initials | src/views/pages/EmployeeList.tsx:32-34 | at most two characters: the first two word starts, upper-cased |
| EmployeeList.WordContinues | src/views/pages/EmployeeList.tsx:33 | characters inside a word add no initial |
| EmployeeList.LeadingSpaceIgnored | src/views/pages/EmployeeList.tsx:33 | an empty piece from a leading space contributes nothing |
| EmployeeList.EmptyNameNoInitials | src/views/pages/EmployeeList.tsx:33 | an empty name gives no initials |
| EmployeeList.SingleWordOneLetter | src/views/pages/EmployeeList.tsx:33 | a word without a space, even one with tabs, gives one letter |
| EmployeeList.TwoWordsTwoLetters | src/views/pages/EmployeeList.tsx:33 | two words separated by a space give the first letter of each |
| Register.PasswordError | src/views/pages/Register.tsx:37-45 | a mismatch is reported exactly when the two differ; otherwise a password shorter than 6 gets the length error; length 6 passes |
| Register.MismatchReportedFirst | src/views/pages/Register.tsx:37-45 | a short pair that also differs reports the mismatch |
| Register.SignUpErrorMessage | src/views/pages/Register.tsx:54-62 | each of the three known codes gets its own message, and every other code gets the generic one |
| Register.RegisterPage.constructor | src/views/pages/Register.tsx:28-29 | no error, not loading |
| Register.RegisterPage.HandleSubmit | src/views/pages/Register.tsx:33-66 | the error is cleared; a failed pre-check sets its message and skips `signUp`; otherwise `signUp` runs, a failure code sets its message, and success goes home; loading ends false on every path |

## Left out

- Transport: queries, `getDocs`, `addDoc`, `updateDoc`, batches and document-id generation are reduced to the store class. The order `getAll` returns is the store's order; the `createdAt` ordering of the query is not modelled.
- Failures: a transport failure is a boolean, not a cause. The employee repository has one per store call of `create` (lookup or add), of each membership write, of `removeFromDepartments`, of the `update` email lookup and final write, and of the `delete` document delete; `deleteMultiple` picks the failing step. The department repository has one per operation, covering its lookup and its write.
- EmployeeRepository.EmployeeRepository.FindByEmail and DepartmentRepository.DepartmentRepository.FindByName have no failure flag of their own: their failure is the flag of the operation that calls them, and the intended by-id lookup of `update` is given none.
- Missing `employeeIds`: the department form (src/views/pages/DepartmentForm.tsx:67 and :202) and the members modal (src/views/pages/DepartmentList.tsx:72) read `employeeIds` without a fallback, so a department document without that field makes them throw. The model's `Department` always has a list, so that crash is not modelled.
- Asynchrony and races between clients are not modelled. This covers the read-then-write email and name checks and the non-atomic phases of delete and repair. Each handler runs as one sequential method.
- SyncEmployeesDepartments.SyncAllEmployeesWithDepartments: a failing read or write inside the pass, which rethrows after partial writes, is not modelled.
- React specifics (`useState` batching, `useEffect` timing) are not modelled; state is plain fields updated in sequence. The effects that copy `initialData` into the employee form and the department form run in their constructors. The mount-time `loadEmployees`/`loadDepartments` effect is not run by the list-cache constructors, which stop in the pre-load state; a caller constructs the cache and then calls `LoadEmployees`/`LoadDepartments`.
- Rendering, JSX and layout; the employee form page, which only renders the form state machine; the login page; and the page components that toggle views around confirmations and toasts are not modelled. Neither are configuration, test mocks, seed data, or `console` logging.
- The `deleteMultipleEmployees` call that the employee page expects from the employee view model is not modelled, because the view model does not return it.
- Salary parsing: `FormViewModel.SalaryError` takes the salary as an optional integer. It does not model the `Number()` conversion, `NaN`, fractional values, or the empty-string case.
- Characters: `trim` and `\s` use ASCII whitespace (space and characters 9 to 13). `toUpperCase` maps only `a` to `z`. Unicode whitespace and case mappings (`ß` to `SS`) are not modelled.
- String length: `Register.PasswordError` counts characters, while the source's `length` counts UTF-16 code units; they differ only outside the Basic Multilingual Plane.
- `createdAt` values are parameters, not clock readings.
- EmployeeRepository.MoveFrom: `findById` is undefined in the repository class; the model reads it as the lookup of the employee by id.
- EmployeeRepository.EmployeeRepository.Update: models the evidently intended lookup, not the code as written. As written, every update whose data has a non-empty `department` and passes the email check throws a `TypeError` at line 64, before any write. Every edit submitted from the employee form carries a department, so every such edit fails and writes nothing. `UpdateAsWritten` models that behaviour; see "## Findings".
- FormViewModel.EmployeeForm.UpdateField: the field and value are a typed pair (`Fits`), so a value of the wrong type for a field cannot be written.

## Findings

| source | as written | input that shows it | evidently intended | confidence | as-written member | corrected member |
|---|---|---|---|---|---|---|
| src/repositories/EmployeeRepository.ts:63-64 | `update` calls `this.findById`, which the class does not define, whenever `data.department` is non-empty | a stored employee edited with data whose `department` is `"TI"` and whose email no other employee holds: `EditWithDepartmentFailsAsWritten` | look the employee up by id, move its membership when the department changes, then merge the data | high (not executed) | EmployeeRepository.EmployeeRepository.UpdateAsWritten | EmployeeRepository.EmployeeRepository.Update |
