/** The add-course page: its validation schema, its default values, the
    student checkboxes, and the submit handler that adds the course and then
    enrolls every selected student in it. */
module CourseForm {
  import opened Schema
  import opened Actions
  import opened Forms

  const CodeTooShort := "Course code must be at least 2 characters."
  const NameTooShort := "Course name must be at least 3 characters."
  const CreditsTooSmall := "Credits must be at least 1."
  const YearTooSmall := "Number must be greater than or equal to 2000"
  const YearTooLarge := "Number must be less than or equal to 2100"
  const CoursesPath := "/courses"

  /** The labels of the `semester` enum, as the select offers them. */
  function SemesterName(s: Semester): string {
    match s
    case Fall => "Fall"
    case Spring => "Spring"
    case Summer => "Summer"
  }

  /** `z.enum(semesterEnum.enumValues)`: exactly the three labels. */
  function ParseSemester(t: string): (r: Option<Semester>)
    ensures r.Some? <==> t in {"Fall", "Spring", "Summer"}
  {
    if t == "Fall" then Some(Fall)
    else if t == "Spring" then Some(Spring)
    else if t == "Summer" then Some(Summer)
    else None
  }

  lemma SemesterNamesParse(s: Semester)
    ensures ParseSemester(SemesterName(s)) == Some(s)
  {
  }

  lemma ParsedSemesterIsItsName(t: string)
    requires ParseSemester(t).Some?
    ensures SemesterName(ParseSemester(t).value) == t
  {
  }

  function SemesterInvalid(received: string): string {
    "Invalid enum value. Expected 'Fall' | 'Spring' | 'Summer', received '" + received + "'"
  }

  datatype CourseField =
    | Code | Name | Description | Credits | DepartmentId | FacultyId | IsActive
    | SelectedStudents | SemesterField | Year

  /** The values the form holds after coercion. */
  datatype CourseFormValues = CourseFormValues(
    code: string, name: string, description: Option<string>, credits: int,
    departmentId: Option<Id>, facultyId: Option<Id>, isActive: bool,
    selectedStudents: Option<seq<Id>>, semester: string, year: int)

  /** What the schema accepts: a code of at least 2 characters, a name of
      at least 3, at least 1 credit, one of the semester labels and a year
      from 2000 to 2100. */
  predicate CourseFormValid(v: CourseFormValues) {
    && Utf16Length(v.code) >= 2 && Utf16Length(v.name) >= 3 && v.credits >= 1
    && ParseSemester(v.semester).Some? && 2000 <= v.year <= 2100
  }

  /** The issues the resolver reports, in field order. */
  function CourseFormErrors(v: CourseFormValues): (errs: seq<FieldError<CourseField>>)
    ensures errs == [] <==> CourseFormValid(v)
    ensures FieldError(Code, CodeTooShort) in errs <==> Utf16Length(v.code) < 2
    ensures FieldError(Name, NameTooShort) in errs <==> Utf16Length(v.name) < 3
    ensures FieldError(Credits, CreditsTooSmall) in errs <==> v.credits < 1
    ensures FieldError(SemesterField, SemesterInvalid(v.semester)) in errs <==> ParseSemester(v.semester).None?
    ensures FieldError(Year, YearTooSmall) in errs <==> v.year < 2000
    ensures FieldError(Year, YearTooLarge) in errs <==> v.year > 2100
  {
    TextErrors(v) + TermErrors(v)
  }

  /** The issues on the code, the name and the credits. */
  function TextErrors(v: CourseFormValues): (errs: seq<FieldError<CourseField>>)
    ensures errs == [] <==> Utf16Length(v.code) >= 2 && Utf16Length(v.name) >= 3 && v.credits >= 1
    ensures forall i | 0 <= i < |errs| :: errs[i].field in {Code, Name, Credits}
    ensures FieldError(Code, CodeTooShort) in errs <==> Utf16Length(v.code) < 2
    ensures FieldError(Name, NameTooShort) in errs <==> Utf16Length(v.name) < 3
    ensures FieldError(Credits, CreditsTooSmall) in errs <==> v.credits < 1
  {
    MinLength(Code, v.code, 2, CodeTooShort)
    + MinLength(Name, v.name, 3, NameTooShort)
    + (if v.credits < 1 then [FieldError(Credits, CreditsTooSmall)] else [])
  }

  /** The issues on the semester and the year. */
  function TermErrors(v: CourseFormValues): (errs: seq<FieldError<CourseField>>)
    ensures errs == [] <==> ParseSemester(v.semester).Some? && 2000 <= v.year <= 2100
    ensures forall i | 0 <= i < |errs| :: errs[i].field in {SemesterField, Year}
    ensures FieldError(SemesterField, SemesterInvalid(v.semester)) in errs <==> ParseSemester(v.semester).None?
    ensures FieldError(Year, YearTooSmall) in errs <==> v.year < 2000
    ensures FieldError(Year, YearTooLarge) in errs <==> v.year > 2100
  {
    var semesterErrors := if ParseSemester(v.semester).None? then [FieldError(SemesterField, SemesterInvalid(v.semester))] else [];
    semesterErrors + YearErrors(v.year)
  }

  /** `z.coerce.number().min(2000).max(2100)` on the year. */
  function YearErrors(year: int): (errs: seq<FieldError<CourseField>>)
    ensures errs == [] <==> 2000 <= year <= 2100
    ensures forall i | 0 <= i < |errs| :: errs[i].field == Year
    ensures FieldError(Year, YearTooSmall) in errs <==> year < 2000
    ensures FieldError(Year, YearTooLarge) in errs <==> year > 2100
  {
    assert YearTooSmall[15] != YearTooLarge[15];
    if year < 2000 then [FieldError(Year, YearTooSmall)]
    else if year > 2100 then [FieldError(Year, YearTooLarge)]
    else []
  }

  /** The initial values, given the current calendar year. */
  function CourseDefaults(currentYear: int): (v: CourseFormValues)
    ensures v.code == "" && v.name == "" && v.description == Some("") && v.credits == 3
    ensures v.departmentId == None && v.facultyId == None && v.isActive
    ensures v.selectedStudents == Some([]) && v.semester == "Fall" && v.year == currentYear
  {
    CourseFormValues("", "", Some(""), 3, None, None, true, Some([]), "Fall", currentYear)
  }

  /** In any year from 2000 to 2100 the untouched form is refused on its code
      and its name only. */
  lemma DefaultsAreRefused(currentYear: int)
    requires 2000 <= currentYear <= 2100
    ensures CourseFormErrors(CourseDefaults(currentYear))
              == [FieldError(Code, CodeTooShort), FieldError(Name, NameTooShort)]
  {
  }

  // ---------------------------------------------------------------------
  // The student checkboxes
  // ---------------------------------------------------------------------

  /** `ids.filter((x) => x !== id)`. */
  function Without(ids: seq<Id>, id: Id): (r: seq<Id>)
    ensures id !in r
    ensures forall x | x in r :: x in ids
    ensures forall x | x in ids && x != id :: x in r
    ensures id !in ids ==> r == ids
    ensures multiset(r) == multiset(ids)[id := 0]
  {
    if ids == [] then []
    else
      assert ids == [ids[0]] + ids[1..];
      if ids[0] == id then Without(ids[1..], id)
      else [ids[0]] + Without(ids[1..], id)
  }

  /** The filter works element by element, so the students it keeps stay in
      their order. */
  lemma {:induction false} WithoutAppend(a: seq<Id>, b: seq<Id>, id: Id)
    ensures Without(a + b, id) == Without(a, id) + Without(b, id)
  {
    if a != [] {
      assert (a + b)[1..] == a[1..] + b;
      WithoutAppend(a[1..], b, id);
    } else {
      assert a + b == b;
    }
  }

  /** A checkbox's `onCheckedChange`: checking appends the student to the
      selection, unchecking removes every occurrence of it. */
  function ToggleStudent(selected: Option<seq<Id>>, id: Id, checked: bool): (r: seq<Id>)
    ensures var current := if selected.Some? then selected.value else [];
            && (checked ==> r == current + [id])
            && (!checked ==> r == Without(current, id))
  {
    var current := if selected.Some? then selected.value else [];
    if checked then current + [id] else Without(current, id)
  }

  /** Checking then unchecking a student leaves a selection that did not
      hold it as it was. */
  lemma {:induction false} CheckThenUncheck(selected: seq<Id>, id: Id)
    requires id !in selected
    ensures ToggleStudent(Some(ToggleStudent(Some(selected), id, true)), id, false) == selected
  {
    WithoutLast(selected, id);
  }

  lemma {:induction false} WithoutLast(ids: seq<Id>, id: Id)
    requires id !in ids
    ensures Without(ids + [id], id) == ids
  {
    if ids != [] {
      assert (ids + [id])[1..] == ids[1..] + [id];
      WithoutLast(ids[1..], id);
    } else {
      assert [id][1..] == [];
    }
  }

  /** A checkbox shows the student as checked exactly when the selection
      holds it: checking adds it, unchecking removes it, others stay. */
  lemma ToggleAffectsOnlyThatStudent(selected: Option<seq<Id>>, id: Id, checked: bool, other: Id)
    requires other != id
    ensures id in ToggleStudent(selected, id, checked) <==> checked
    ensures var current := if selected.Some? then selected.value else [];
            other in ToggleStudent(selected, id, checked) <==> other in current
  {
  }

  // ---------------------------------------------------------------------
  // Submitting
  // ---------------------------------------------------------------------

  /** The object handed to `addCourse`. */
  function CoursePayload(v: CourseFormValues): (p: NewCourse)
    ensures p.code == v.code && p.name == v.name && p.description == v.description
    ensures p.credits == v.credits && p.departmentId == v.departmentId && p.facultyId == v.facultyId
    ensures p.isActive == Some(v.isActive)
  {
    NewCourse(v.code, v.name, v.description, v.credits, v.departmentId, v.facultyId, Some(v.isActive))
  }

  function SelectedStudents(v: CourseFormValues): seq<Id> {
    if v.selectedStudents.Some? then v.selectedStudents.value else []
  }

  /** How far the enrollment loop has come: starting from `start`, only the
      enrollments (and their serial) have changed, every earlier row is
      kept, every new row is an ungraded enrollment of a student of `done`
      in the course and term, and every student of `done` that exists is
      enrolled. */
  ghost predicate EnrolledSoFar(start: Db, db: Db, done: seq<Id>, courseId: Id, semester: Semester, year: int) {
    && db == start.(enrollments := db.enrollments, nextEnrollmentId := db.nextEnrollmentId)
    && (forall k | k in start.enrollments :: k in db.enrollments && db.enrollments[k] == start.enrollments[k])
    && (forall k | k in db.enrollments && k !in start.enrollments ::
          var e := db.enrollments[k];
          && e.courseId == courseId && e.semester == semester && e.year == year
          && e.grade == None && e.studentId in done)
    && (forall j | 0 <= j < |done| && done[j] in start.students ::
          HasEnrollment(db.enrollments, done[j], courseId, semester, year))
  }

  /** One `enrollStudent` call of the loop, whether it inserted a row or
      failed, extends the progress by one student. */
  lemma EnrollStep(start: Db, before: Db, after: Db, done: seq<Id>, studentId: Id,
                   courseId: Id, semester: Semester, year: int, now: Timestamp)
    requires Consistent(before)
    requires EnrolledSoFar(start, before, done, courseId, semester, year)
    requires || after == before
             || after == before.(enrollments := before.enrollments[before.nextEnrollmentId :=
                                   Enrollment(before.nextEnrollmentId, studentId, courseId, semester, year, None, now, now)],
                                 nextEnrollmentId := before.nextEnrollmentId + 1)
    requires after == before && studentId in before.students ==>
               HasEnrollment(before.enrollments, studentId, courseId, semester, year)
    ensures EnrolledSoFar(start, after, done + [studentId], courseId, semester, year)
  {
    var done' := done + [studentId];
    assert forall j | 0 <= j < |done| :: done'[j] == done[j];
    assert before.nextEnrollmentId !in before.enrollments;
    forall j | 0 <= j < |done'| && done'[j] in start.students
      ensures HasEnrollment(after.enrollments, done'[j], courseId, semester, year)
    {
      if j < |done| {
        HasEnrollmentKept(before.enrollments, after.enrollments, done[j], courseId, semester, year);
      } else if after != before {
        assert SameEnrollment(after.enrollments[before.nextEnrollmentId], studentId, courseId, semester, year);
      }
    }
  }

  /** The `Promise.all` over `enrollStudent`: one enrollment per selected
      student in course `courseId` for the term, each failure caught and
      dropped. Only the enrollments table (and its serial) changes; earlier
      rows stay, every new row is an ungraded enrollment of a listed student
      in that course and term, and every listed student that exists ends up
      enrolled. */
  method EnrollAll(store: RecordStore, students: seq<Id>, courseId: Id, semester: Semester, year: int, now: Timestamp)
    requires store.Valid()
    requires courseId in store.db.courses && IsInt4(year)
    modifies store
    ensures store.Valid()
    ensures store.db == old(store.db).(enrollments := store.db.enrollments, nextEnrollmentId := store.db.nextEnrollmentId)
    ensures forall k | k in old(store.db.enrollments) ::
              k in store.db.enrollments && store.db.enrollments[k] == old(store.db.enrollments)[k]
    ensures forall k | k in store.db.enrollments && k !in old(store.db.enrollments) ::
              var e := store.db.enrollments[k];
              && e.courseId == courseId && e.semester == semester && e.year == year
              && e.grade == None && e.studentId in students
    ensures forall j | 0 <= j < |students| && students[j] in store.db.students ::
              HasEnrollment(store.db.enrollments, students[j], courseId, semester, year)
  {
    ghost var start := store.db;
    var i := 0;
    while i < |students|
      invariant 0 <= i <= |students|
      invariant store.Valid()
      invariant EnrolledSoFar(start, store.db, students[..i], courseId, semester, year)
    {
      ghost var before := store.db;
      var _ := store.EnrollStudent(students[i], courseId, semester, year, now);
      EnrollStep(start, before, store.db, students[..i], students[i], courseId, semester, year, now);
      assert students[..i + 1] == students[..i] + [students[i]];
      i := i + 1;
    }
    assert students[..i] == students;
  }

  /** `onSubmit`, called by the form only once the schema accepts `values`.
      It adds the course; if that fails nothing else happens. Otherwise it
      enrolls each selected student for the chosen semester and year,
      ignoring every enrollment that fails, and navigates to the course
      list. Either way the page leaves its submitting state. */
  method Submit(page: PageState, store: RecordStore, values: CourseFormValues, now: Timestamp)
    returns (r: Outcome<Course>)
    requires CourseFormValid(values)
    requires store.Valid()
    modifies page, store
    ensures store.Valid()
    ensures !page.isSubmitting
    ensures r.Ok? <==> && |values.code| <= CodeMaxLength && IsInt4(values.credits)
                       && RefersInto(values.departmentId, old(store.db.departments))
                       && RefersInto(values.facultyId, old(store.db.faculties))
                       && forall k | k in old(store.db.courses) :: old(store.db.courses)[k].code != values.code
    ensures r.Failed? ==> r.message == AddCourseFailure && store.db == old(store.db) && page.location == old(page.location)
    ensures r.Ok? ==> && r.value == Course(old(store.db.nextCourseId), values.code, values.name, values.description,
                                           values.credits, values.departmentId, values.facultyId, values.isActive, now, now)
                      && page.location == Some(CoursesPath)
                      && store.db.courses == old(store.db.courses)[r.value.id := r.value]
                      && store.db.students == old(store.db.students)
                      && store.db.departments == old(store.db.departments)
                      && store.db.faculties == old(store.db.faculties)
                      && store.db.marks == old(store.db.marks)
                      && store.db.attendance == old(store.db.attendance)
    // the earlier enrollments are kept, and every new one is an ungraded
    // enrollment in the new course for the chosen term
    ensures r.Ok? ==> forall k | k in old(store.db.enrollments) ::
                        k in store.db.enrollments && store.db.enrollments[k] == old(store.db.enrollments)[k]
    ensures r.Ok? ==> forall k | k in store.db.enrollments && k !in old(store.db.enrollments) ::
                        var e := store.db.enrollments[k];
                        && e.courseId == r.value.id && Some(e.semester) == ParseSemester(values.semester)
                        && e.year == values.year && e.grade == None
    // exactly the selected students that exist are enrolled in it
    ensures r.Ok? ==> forall sid ::
                        store.IsEnrolled(sid, r.value.id, ParseSemester(values.semester).value, values.year)
                        <==> sid in SelectedStudents(values) && sid in old(store.db.students)
  {
    page.isSubmitting := true;
    r := store.AddCourse(CoursePayload(values), now);
    if r.Ok? {
      var cid := r.value.id;
      var semester := ParseSemester(values.semester).value;
      var students := SelectedStudents(values);
      ghost var added := store.db;
      assert forall k | k in added.enrollments :: added.enrollments[k].courseId != cid;
      EnrollAll(store, students, cid, semester, values.year, now);
      forall sid | store.IsEnrolled(sid, cid, semester, values.year)
        ensures sid in students && sid in added.students
      {
        var k :| k in store.db.enrollments && SameEnrollment(store.db.enrollments[k], sid, cid, semester, values.year);
        assert k !in added.enrollments;
      }
      forall sid | sid in students && sid in added.students
        ensures store.IsEnrolled(sid, cid, semester, values.year)
      {
        var j :| 0 <= j < |students| && students[j] == sid;
      }
      page.location := Some(CoursesPath);
    }
    page.isSubmitting := false;
  }
}
