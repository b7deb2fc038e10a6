/**
 * `useFormViewModel`: the two-step employee form. Step 0 asks for name and email, step 1 for
 * the department and the profile fields; `nextStep` on the last step hands the data to the
 * submit callback. Field errors appear only once a field has been touched (blurred).
 *
 * An error set to `undefined` is represented by the field being absent from `errors`.
 */
module FormViewModel {
  import opened Models
  import opened Text

  datatype Field = Name | Email | Department | Active | Position | AdmissionDate | HierarchyLevel | ManagerId | BaseSalary

  /** A value `updateField` can write: text, the active flag, the optional level or the optional salary. */
  datatype FieldValue = Text(s: string) | Flag(b: bool) | Level(level: Option<string>) | Salary(amount: Option<int>)

  const TotalSteps: nat := 2

  const NameRequired: string := "Nome é obrigatório"
  const NameTooShort: string := "Nome deve ter no mínimo 2 caracteres"
  const NameTooLong: string := "Nome deve ter no máximo 100 caracteres"
  const EmailRequired: string := "E-mail é obrigatório"
  const EmailInvalid: string := "E-mail inválido"
  const EmailTooLong: string := "E-mail deve ter no máximo 255 caracteres"
  const DepartmentRequired: string := "Departamento é obrigatório"
  const SalaryNegative: string := "Salário deve ser um número positivo"
  const SalaryTooHigh: string := "Salário não pode exceder R$ 1.000.000"

  /** The form data the hook starts from and `resetForm` restores. */
  const InitialData: EmployeeFormData :=
    EmployeeFormData("", "", "", true, Some(""), Some(""), None, Some(""), None)

  // ---- the email pattern ------------------------------------------------------------------

  /** No whitespace and no `@`: the class `[^\s@]`. */
  predicate PlainChars(s: string)
  {
    forall k :: 0 <= k < |s| ==> !IsSpace(s[k]) && s[k] != '@'
  }

  /** `^[^\s@]+@[^\s@]+\.[^\s@]+$`, read as a split of `s` into its three runs. */
  ghost predicate MatchesEmailPattern(s: string)
  {
    exists i, j :: 0 < i && i + 1 < j && j + 1 < |s| && s[i] == '@' && s[j] == '.' &&
      PlainChars(s[..i]) && PlainChars(s[i + 1..j]) && PlainChars(s[j + 1..])
  }

  /** The position of the first occurrence of `c` in `s`, or `|s|` when there is none. */
  function IndexOf(s: string, c: char): (i: nat)
    ensures i <= |s| && c !in s[..i]
    ensures i < |s| ==> s[i] == c
    ensures i == |s| <==> c !in s
    decreases |s|
  {
    if |s| == 0 then 0
    else if s[0] == c then 0
    else
      assert s[1..] == s[1..][..|s| - 1];
      var k := IndexOf(s[1..], c);
      assert s[..k + 1] == [s[0]] + s[1..][..k];
      k + 1
  }

  /**
   * The email shape: no whitespace, exactly one `@`, something before it, and a `.` inside
   * the part after it (neither its first nor its last character).
   */
  function EmailShape(s: string): (ok: bool)
    ensures ok ==> NoSpace(s) && 5 <= |s| && multiset(s)['@'] == 1
  {
    var i := IndexOf(s, '@');
    if NoSpace(s) && 0 < i && i + 3 <= |s| && '@' !in s[i + 1..] && '.' in s[i + 2..|s| - 1] then
      SingleAt(s, i);
      true
    else false
  }

  /** A character found at `i` and nowhere else occurs exactly once. */
  lemma SingleAt(s: string, i: nat)
    requires i < |s| && s[i] !in s[..i] && s[i] !in s[i + 1..]
    ensures multiset(s)[s[i]] == 1
  {
    assert s == s[..i] + [s[i]] + s[i + 1..];
  }

  /** The shape is exactly what the regular expression accepts. */
  lemma EmailShapeIsPattern(s: string)
    ensures EmailShape(s) <==> MatchesEmailPattern(s)
  {
    var i := IndexOf(s, '@');
    if EmailShape(s) {
      var q :| 0 <= q < |s[i + 2..|s| - 1]| && s[i + 2..|s| - 1][q] == '.';
      var j := i + 2 + q;
      assert s[j] == '.';
      forall k | 0 <= k < |s| && k != i ensures s[k] != '@' {
        if k < i {
          assert s[k] == s[..i][k];
        } else {
          assert s[k] == s[i + 1..][k - i - 1];
        }
      }
      assert PlainChars(s[..i]) && PlainChars(s[i + 1..j]) && PlainChars(s[j + 1..]);
    }
    if MatchesEmailPattern(s) {
      var i', j :| 0 < i' && i' + 1 < j && j + 1 < |s| && s[i'] == '@' && s[j] == '.' &&
        PlainChars(s[..i']) && PlainChars(s[i' + 1..j]) && PlainChars(s[j + 1..]);
      forall k | 0 <= k < |s| ensures !IsSpace(s[k]) && (s[k] == '@' ==> k == i') {
        if k < i' {
          assert s[k] == s[..i'][k];
        } else if i' < k < j {
          assert s[k] == s[i' + 1..j][k - i' - 1];
        } else if j < k {
          assert s[k] == s[j + 1..][k - j - 1];
        }
      }
      assert i == i';
      assert s[i + 2..|s| - 1][j - i - 2] == '.';
    }
  }

  // ---- validateField ----------------------------------------------------------------------

  function NameError(s: string): (r: Option<string>)
    ensures r == Some(NameRequired) <==> AllSpace(s)
    ensures r == Some(NameTooShort) <==> 0 < |Trim(s)| < 2
    ensures r == Some(NameTooLong) <==> |Trim(s)| > 100
    ensures r.None? <==> 2 <= |Trim(s)| <= 100
  {
    TrimEmptyIffBlank(s);
    if Trim(s) == [] then Some(NameRequired)
    else if |Trim(s)| < 2 then Some(NameTooShort)
    else if |Trim(s)| > 100 then Some(NameTooLong)
    else None
  }

  function EmailError(s: string): (r: Option<string>)
    ensures r == Some(EmailRequired) <==> AllSpace(s)
    ensures r == Some(EmailInvalid) <==> !AllSpace(s) && !EmailShape(Trim(s))
    ensures r == Some(EmailTooLong) <==> EmailShape(Trim(s)) && |Trim(s)| > 255
    ensures r.None? <==> EmailShape(Trim(s)) && |Trim(s)| <= 255
  {
    TrimEmptyIffBlank(s);
    if Trim(s) == [] then Some(EmailRequired)
    else if !EmailShape(Trim(s)) then Some(EmailInvalid)
    else if |Trim(s)| > 255 then Some(EmailTooLong)
    else None
  }

  function SalaryError(v: Option<int>): (r: Option<string>)
    ensures r == Some(SalaryNegative) <==> v.Some? && v.value < 0
    ensures r == Some(SalaryTooHigh) <==> v.Some? && v.value > 1000000
    ensures r.None? <==> v.None? || 0 <= v.value <= 1000000
  {
    match v
    case None => None
    case Some(n) =>
      if n < 0 then Some(SalaryNegative)
      else if n > 1000000 then Some(SalaryTooHigh)
      else None
  }

  /** `validateField(field, formData[field])`: the error of one field of the form data, if any. */
  function ValidateField(f: Field, d: EmployeeFormData): (r: Option<string>)
    ensures f == Name ==> (r.None? <==> 2 <= |Trim(d.name)| <= 100) && r == NameError(d.name)
    ensures f == Email ==> (r.None? <==> EmailShape(Trim(d.email)) && |Trim(d.email)| <= 255) && r == EmailError(d.email)
    ensures f == Field.Department ==> (r == Some(DepartmentRequired) <==> d.department == "") && (r.None? <==> d.department != "")
    ensures f == BaseSalary ==> (r.None? <==> d.baseSalary.None? || 0 <= d.baseSalary.value <= 1000000) && r == SalaryError(d.baseSalary)
    ensures f !in {Name, Email, Field.Department, BaseSalary} ==> r.None?
  {
    match f
    case Name => NameError(d.name)
    case Email => EmailError(d.email)
    case Department => if d.department == "" then Some(DepartmentRequired) else None
    case BaseSalary => SalaryError(d.baseSalary)
    case _ => None
  }

  /** The fields each step checks: name and email on the first, the department on the second, none of the profile fields. */
  function StepFields(step: int): (fs: set<Field>)
    ensures Name in fs <==> step == 0
    ensures Email in fs <==> step == 0
    ensures Field.Department in fs <==> step == 1
    ensures forall f :: f in fs ==> f == Name || f == Email || f == Field.Department
  {
    if step == 0 then {Name, Email} else if step == 1 then {Field.Department} else {}
  }

  /** `validateStep(step)`'s new error map: the failing fields of the step, with their errors. */
  function StepErrors(step: int, d: EmployeeFormData): (m: map<Field, string>)
    ensures forall f :: f in m <==> f in StepFields(step) && ValidateField(f, d).Some?
    ensures forall f :: f in m ==> Some(m[f]) == ValidateField(f, d)
  {
    map f | f in StepFields(step) && ValidateField(f, d).Some? :: ValidateField(f, d).value
  }

  /** A step passes exactly when each of its fields is valid. */
  lemma StepPassesIffFieldsValid(step: int, d: EmployeeFormData)
    ensures StepErrors(step, d) == map[] <==> forall f :: f in StepFields(step) ==> ValidateField(f, d).None?
  {
    if StepErrors(step, d) != map[] {
      var f :| f in StepErrors(step, d);
    }
  }

  /** `{ ...errors, [field]: error }`, an `undefined` error removing the field. */
  function SetError(m: map<Field, string>, f: Field, e: Option<string>): (r: map<Field, string>)
    ensures f in r <==> e.Some?
    ensures e.Some? ==> r[f] == e.value
    ensures forall g :: g != f ==> (g in r <==> g in m) && (g in r ==> r[g] == m[g])
  {
    if e.Some? then m[f := e.value] else m - {f}
  }

  /** `{ ...formData, [field]: value }` for a value of the field's type. */
  predicate Fits(f: Field, v: FieldValue)
  {
    match f
    case Active => v.Flag?
    case HierarchyLevel => v.Level?
    case BaseSalary => v.Salary?
    case _ => v.Text?
  }

  function SetField(d: EmployeeFormData, f: Field, v: FieldValue): (r: EmployeeFormData)
    requires Fits(f, v)
    ensures f == Name ==> r == d.(name := v.s)
    ensures f == Email ==> r == d.(email := v.s)
    ensures f == Field.Department ==> r == d.(department := v.s)
    ensures f == Active ==> r == d.(active := v.b)
    ensures f == Position ==> r == d.(position := Some(v.s))
    ensures f == AdmissionDate ==> r == d.(admissionDate := Some(v.s))
    ensures f == HierarchyLevel ==> r == d.(hierarchyLevel := v.level)
    ensures f == ManagerId ==> r == d.(managerId := Some(v.s))
    ensures f == BaseSalary ==> r == d.(baseSalary := v.amount)
  {
    match f
    case Name => d.(name := v.s)
    case Email => d.(email := v.s)
    case Department => d.(department := v.s)
    case Active => d.(active := v.b)
    case Position => d.(position := Some(v.s))
    case AdmissionDate => d.(admissionDate := Some(v.s))
    case HierarchyLevel => d.(hierarchyLevel := v.level)
    case ManagerId => d.(managerId := Some(v.s))
    case BaseSalary => d.(baseSalary := v.amount)
  }

  /** Setting one field leaves the errors of the other fields as they were. */
  lemma SetFieldKeepsOtherErrors(d: EmployeeFormData, f: Field, v: FieldValue, g: Field)
    requires Fits(f, v) && g != f
    ensures ValidateField(g, SetField(d, f, v)) == ValidateField(g, d)
  {
  }

  function OrEmpty(o: Option<string>): string
  {
    if o.Some? then o.value else ""
  }

  /** The `useEffect` copy of an employee being edited into the form data. */
  function FromEmployee(e: Employee): (d: EmployeeFormData)
    ensures d.name == e.name && d.email == e.email && d.department == e.department && d.active == e.active
    ensures d.position == Some(OrEmpty(e.position)) && d.admissionDate == Some(OrEmpty(e.admissionDate))
    ensures d.managerId == Some(OrEmpty(e.managerId))
    ensures d.hierarchyLevel == e.hierarchyLevel && d.baseSalary == e.baseSalary
  {
    EmployeeFormData(e.name, e.email, e.department, e.active, Some(OrEmpty(e.position)),
                     Some(OrEmpty(e.admissionDate)), e.hierarchyLevel, Some(OrEmpty(e.managerId)), e.baseSalary)
  }

  // ---- the hook's state -------------------------------------------------------------------

  class EmployeeForm {
    var currentStep: int
    var formData: EmployeeFormData
    var errors: map<Field, string>
    var touched: set<Field>

    /** The step stays within the two steps. */
    ghost predicate Valid()
      reads this
    {
      0 <= currentStep < TotalSteps
    }

    /** The hook's initial state, then the copy of `initialData` when one is given. */
    constructor (initialData: Option<Employee>)
      ensures Valid() && currentStep == 0 && errors == map[] && touched == {}
      ensures formData == if initialData.Some? then FromEmployee(initialData.value) else InitialData
    {
      currentStep := 0;
      formData := if initialData.Some? then FromEmployee(initialData.value) else InitialData;
      errors := map[];
      touched := {};
    }

    /** `getProgress()`: the percentage of the steps reached. */
    function GetProgress(): (p: int)
      reads this
      ensures currentStep == 0 ==> p == 50
      ensures currentStep == 1 ==> p == 100
    {
      (currentStep + 1) * 100 / TotalSteps
    }

    /** `validateStep(step)`: replaces the whole error map; true when it is empty. */
    method ValidateStep(step: int) returns (ok: bool)
      modifies this
      ensures errors == StepErrors(step, formData)
      ensures ok <==> forall f :: f in StepFields(step) ==> ValidateField(f, formData).None?
      ensures currentStep == old(currentStep) && formData == old(formData) && touched == old(touched)
    {
      errors := StepErrors(step, formData);
      StepPassesIffFieldsValid(step, formData);
      ok := errors == map[];
    }

    /** `updateField(field, value)`: writes the field; re-validates it only when it was touched. */
    method UpdateField(f: Field, v: FieldValue)
      requires Fits(f, v)
      modifies this
      ensures formData == SetField(old(formData), f, v)
      ensures f in touched ==> errors == SetError(old(errors), f, ValidateField(f, formData))
      ensures f !in touched ==> errors == old(errors)
      ensures currentStep == old(currentStep) && touched == old(touched)
    {
      formData := SetField(formData, f, v);
      if f in touched {
        errors := SetError(errors, f, ValidateField(f, formData));
      }
    }

    /** `handleBlur(field)`: marks the field touched and sets its error from the current data. */
    method HandleBlur(f: Field)
      modifies this
      ensures currentStep == old(currentStep) && formData == old(formData)
      ensures touched == old(touched) + {f}
      ensures errors == SetError(old(errors), f, ValidateField(f, old(formData)))
    {
      var error := ValidateField(f, formData);
      errors := SetError(errors, f, error);
      touched := touched + {f};
    }

    /**
     * `nextStep()`: validates the current step; when it passes, advances, or on the last step
     * returns the data for the submit callback and stays.
     */
    method NextStep() returns (submitted: Option<EmployeeFormData>)
      requires Valid()
      modifies this
      ensures Valid()
      ensures errors == StepErrors(old(currentStep), formData) && formData == old(formData) && touched == old(touched)
      ensures var passes := forall f :: f in StepFields(old(currentStep)) ==> ValidateField(f, formData).None?;
        currentStep == (if passes && old(currentStep) < TotalSteps - 1 then old(currentStep) + 1 else old(currentStep)) &&
        (submitted.Some? <==> passes && old(currentStep) == TotalSteps - 1) &&
        (submitted.Some? ==> submitted.value == formData)
    {
      var ok := ValidateStep(currentStep);
      submitted := None;
      if ok {
        if currentStep == TotalSteps - 1 {
          submitted := Some(formData);
        } else {
          currentStep := currentStep + 1;
        }
      }
    }

    /** `previousStep()`: back one step, never below the first. */
    method PreviousStep()
      requires Valid()
      modifies this
      ensures Valid()
      ensures currentStep == if old(currentStep) > 0 then old(currentStep) - 1 else 0
      ensures formData == old(formData) && errors == old(errors) && touched == old(touched)
    {
      if currentStep > 0 {
        currentStep := currentStep - 1;
      }
    }

    /** `resetForm()`: the initial state. */
    method ResetForm()
      modifies this
      ensures Valid() && currentStep == 0 && formData == InitialData && errors == map[] && touched == {}
    {
      formData := InitialData;
      currentStep := 0;
      errors := map[];
      touched := {};
    }
  }

  /** The initial data has the empty name and email and is active. */
  lemma InitialDataDefaults()
    ensures InitialData.name == "" && InitialData.email == "" && InitialData.active
    ensures ValidateField(Name, InitialData) == Some(NameRequired) && ValidateField(Email, InitialData) == Some(EmailRequired)
  {
  }

  /** An empty email is required. */
  lemma EmptyEmailIsRequired()
    ensures EmailError("") == Some(EmailRequired)
  {
  }

  /** A non-blank address without `@` (the form's `email-invalido`) is invalid. */
  lemma EmailWithoutAtIsInvalid(s: string)
    requires !AllSpace(s) && '@' !in s
    ensures EmailError(s) == Some(EmailInvalid)
  {
    var i, j := TrimIsInfix(s);
    assert '@' !in Trim(s) by {
      forall k | 0 <= k < |Trim(s)| ensures Trim(s)[k] != '@' {
        assert Trim(s)[k] == s[i + k];
      }
    }
  }

  /** An address the pattern accepts (the form's `teste@flugo.com`) passes when it is at most 255 long. */
  lemma PatternAddressPasses(s: string)
    requires MatchesEmailPattern(Trim(s)) && |Trim(s)| <= 255
    ensures EmailError(s).None?
  {
    EmailShapeIsPattern(Trim(s));
  }
}
