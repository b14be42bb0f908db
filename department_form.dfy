/** The add-department page: its validation schema, its default values, the
    payload it builds and its submit handler. */
module DepartmentForm {
  import opened Schema
  import opened Actions
  import opened Forms

  const NameTooShort := "Department name must be at least 2 characters."
  const CodeTooShort := "Department code must be at least 2 characters."
  const CodeTooLong := "Department code must be at most 10 characters."
  const DepartmentsPath := "/departments"

  datatype DepartmentField = Name | Code | Description

  datatype DepartmentFormValues = DepartmentFormValues(name: string, code: string, description: Option<string>)

  /** What the schema accepts: a name of at least 2 characters and a code
      of 2 to 10; the description is free. */
  predicate DepartmentFormValid(v: DepartmentFormValues) {
    Utf16Length(v.name) >= 2 && 2 <= Utf16Length(v.code) <= 10
  }

  /** The issues the resolver reports, in field order. */
  function DepartmentFormErrors(v: DepartmentFormValues): (errs: seq<FieldError<DepartmentField>>)
    ensures errs == [] <==> DepartmentFormValid(v)
    ensures FieldError(Name, NameTooShort) in errs <==> Utf16Length(v.name) < 2
    ensures FieldError(Code, CodeTooShort) in errs <==> Utf16Length(v.code) < 2
    ensures FieldError(Code, CodeTooLong) in errs <==> Utf16Length(v.code) > 10
    ensures forall i | 0 <= i < |errs| :: errs[i].field != Description
  {
    MinLength(Name, v.name, 2, NameTooShort)
    + MinLength(Code, v.code, 2, CodeTooShort)
    + MaxLength(Code, v.code, 10, CodeTooLong)
  }

  function DepartmentDefaults(): (v: DepartmentFormValues)
    ensures v.name == "" && v.code == "" && v.description == Some("")
  {
    DepartmentFormValues("", "", Some(""))
  }

  /** The untouched form is refused on its name and its code only. */
  lemma DefaultsAreRefused()
    ensures DepartmentFormErrors(DepartmentDefaults()) == [FieldError(Name, NameTooShort), FieldError(Code, CodeTooShort)]
  {
  }

  /** A code the form accepts always fits the `varchar(10)` column, so an
      accepted form can only be refused by the store for a duplicate code. */
  lemma AcceptedCodeFitsColumn(v: DepartmentFormValues)
    requires DepartmentFormValid(v)
    ensures |v.code| <= CodeMaxLength
  {
  }

  /** The object handed to `addDepartment`: the description is never
      missing, an absent one is sent as the empty string. */
  function DepartmentPayload(v: DepartmentFormValues): (p: NewDepartment)
    ensures p.name == v.name && p.code == v.code
    ensures p.description.Some?
    ensures v.description.Some? ==> p.description == v.description
    ensures v.description.None? ==> p.description == Some("")
  {
    NewDepartment(v.name, v.code, Some(OrEmpty(v.description)))
  }

  /** `onSubmit`, called by the form only once the schema accepts `values`.
      On success the page navigates to the department list and stays in its
      submitting state; on failure it leaves the location alone and clears
      the flag. */
  method Submit(page: PageState, store: RecordStore, values: DepartmentFormValues, now: Timestamp)
    returns (r: Outcome<Department>)
    requires DepartmentFormValid(values)
    requires store.Valid()
    modifies page, store
    ensures store.Valid()
    ensures r.Ok? <==> forall k | k in old(store.db.departments) :: old(store.db.departments)[k].code != values.code
    ensures r.Ok? ==> && r.value == Department(old(store.db.nextDepartmentId), values.name, values.code,
                                               Some(OrEmpty(values.description)), now, now)
                      && store.db == old(store.db).(departments := old(store.db.departments)[r.value.id := r.value],
                                                    nextDepartmentId := old(store.db.nextDepartmentId) + 1)
                      && page.isSubmitting && page.location == Some(DepartmentsPath)
    ensures r.Failed? ==> && store.db == old(store.db)
                          && !page.isSubmitting && page.location == old(page.location)
  {
    page.isSubmitting := true;
    r := store.AddDepartment(DepartmentPayload(values), now);
    if r.Ok? {
      page.location := Some(DepartmentsPath);
    } else {
      page.isSubmitting := false;
    }
  }
}
