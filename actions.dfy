/** The data-access operations of the school-records store: one method per
    `add*`, `update*` and `get*` operation, `enrollStudent`, `updateGrade`,
    `markAttendance` and `getDashboardStats`, over tables held as maps, plus
    the delete operations that the schema's `onDelete` rules define. */
module Actions {
  import opened Schema
  import opened Ordering

  /** An operation's result: its value, or the one opaque error that the
      operation's handler re-raises whatever went wrong inside it. */
  datatype Outcome<T> = Ok(value: T) | Failed(message: string)

  const AddDepartmentFailure := "Failed to add department"
  const UpdateDepartmentFailure := "Failed to update department"
  const AddFacultyFailure := "Failed to add faculty"
  const UpdateFacultyFailure := "Failed to update faculty"
  const AddStudentFailure := "Failed to add student"
  const UpdateStudentFailure := "Failed to update student"
  const AddCourseFailure := "Failed to add course"
  const UpdateCourseFailure := "Failed to update course"
  const EnrollFailure := "Failed to enroll student"
  const AddMarksFailure := "Failed to add marks"
  const MarkAttendanceFailure := "Failed to mark attendance"

  /** A JavaScript `Date`, given by its `toISOString()` text. */
  type IsoDateTime = string

  /** `date.toISOString().split('T')[0]`: the text before the first 'T'. */
  function FormatDate(iso: IsoDateTime): (r: Day)
    ensures |r| <= |iso| && r == iso[..|r|]
    ensures 'T' !in r
    ensures |r| < |iso| ==> iso[|r|] == 'T'
  {
    if iso == [] then []
    else if iso[0] == 'T' then []
    else [iso[0]] + FormatDate(iso[1..])
  }

  /** A day string is its own formatting, so formatting twice changes nothing. */
  lemma {:induction false} FormatDateKeepsDays(d: string)
    requires 'T' !in d
    ensures FormatDate(d) == d
  {
    if d != [] {
      FormatDateKeepsDays(d[1..]);
      assert d == [d[0]] + d[1..];
    }
  }

  function FormatOptionalDate(iso: Option<IsoDateTime>): (r: Option<Day>)
    ensures r.Some? <==> iso.Some?
    ensures r.Some? ==> r.value == FormatDate(iso.value)
  {
    if iso.Some? then Some(FormatDate(iso.value)) else None
  }

  /** The value a column takes when the caller may leave the field undefined. */
  function Pick<T>(supplied: Option<T>, current: T): T {
    if supplied.Some? then supplied.value else current
  }

  /** The same for a nullable column: a supplied value replaces it. */
  function PickNullable<T>(supplied: Option<T>, current: Option<T>): Option<T> {
    if supplied.Some? then supplied else current
  }

  // ---------------------------------------------------------------------
  // Inputs of the add operations and merge-patches of the update operations
  // (`None` is an undefined field)
  // ---------------------------------------------------------------------

  datatype NewDepartment = NewDepartment(name: string, code: string, description: Option<string>)
  datatype DepartmentPatch = DepartmentPatch(name: Option<string>, code: Option<string>, description: Option<string>)

  datatype NewFaculty = NewFaculty(
    firstName: string, lastName: string, email: string, phone: Option<string>,
    departmentId: Option<Id>, designation: Option<string>, joinDate: IsoDateTime, isActive: Option<bool>)
  datatype FacultyPatch = FacultyPatch(
    firstName: Option<string>, lastName: Option<string>, email: Option<string>, phone: Option<string>,
    departmentId: Option<Id>, designation: Option<string>, joinDate: Option<IsoDateTime>, isActive: Option<bool>)

  datatype NewStudent = NewStudent(
    firstName: string, lastName: string, email: string, phone: Option<string>,
    dateOfBirth: Option<IsoDateTime>, address: Option<string>, enrollmentDate: IsoDateTime,
    departmentId: Option<Id>, isActive: Option<bool>)
  datatype StudentPatch = StudentPatch(
    firstName: Option<string>, lastName: Option<string>, email: Option<string>, phone: Option<string>,
    dateOfBirth: Option<IsoDateTime>, address: Option<string>, enrollmentDate: Option<IsoDateTime>,
    departmentId: Option<Id>, isActive: Option<bool>)

  datatype NewCourse = NewCourse(
    code: string, name: string, description: Option<string>, credits: int,
    departmentId: Option<Id>, facultyId: Option<Id>, isActive: Option<bool>)
  datatype CoursePatch = CoursePatch(
    code: Option<string>, name: Option<string>, description: Option<string>, credits: Option<int>,
    departmentId: Option<Id>, facultyId: Option<Id>, isActive: Option<bool>)

  datatype NewMark = NewMark(enrollmentId: Id, examType: string, score: real, maxScore: real, remarks: Option<string>)
  datatype MarkPatch = MarkPatch(examType: Option<string>, score: Option<real>, maxScore: Option<real>, remarks: Option<string>)

  /** `updateDepartment`'s row: each supplied field replaces the column, the
      others keep their value, `updatedAt` is refreshed. */
  function PatchDepartment(d: Department, p: DepartmentPatch, now: Timestamp): (r: Department)
    ensures r.id == d.id && r.createdAt == d.createdAt && r.updatedAt == now
    ensures r.name == (if p.name.Some? then p.name.value else d.name)
    ensures r.code == (if p.code.Some? then p.code.value else d.code)
    ensures r.description == (if p.description.Some? then p.description else d.description)
  {
    d.(name := Pick(p.name, d.name), code := Pick(p.code, d.code),
       description := PickNullable(p.description, d.description), updatedAt := now)
  }

  function PatchFaculty(f: Faculty, p: FacultyPatch, now: Timestamp): (r: Faculty)
    ensures r.id == f.id && r.createdAt == f.createdAt && r.updatedAt == now
    ensures r.firstName == (if p.firstName.Some? then p.firstName.value else f.firstName)
    ensures r.lastName == (if p.lastName.Some? then p.lastName.value else f.lastName)
    ensures r.email == (if p.email.Some? then p.email.value else f.email)
    ensures r.phone == (if p.phone.Some? then p.phone else f.phone)
    ensures r.departmentId == (if p.departmentId.Some? then p.departmentId else f.departmentId)
    ensures r.designation == (if p.designation.Some? then p.designation else f.designation)
    ensures r.joinDate == (if p.joinDate.Some? then FormatDate(p.joinDate.value) else f.joinDate)
    ensures r.isActive == (if p.isActive.Some? then p.isActive.value else f.isActive)
  {
    f.(firstName := Pick(p.firstName, f.firstName), lastName := Pick(p.lastName, f.lastName),
       email := Pick(p.email, f.email), phone := PickNullable(p.phone, f.phone),
       departmentId := PickNullable(p.departmentId, f.departmentId),
       designation := PickNullable(p.designation, f.designation),
       joinDate := if p.joinDate.Some? then FormatDate(p.joinDate.value) else f.joinDate,
       isActive := Pick(p.isActive, f.isActive), updatedAt := now)
  }

  function PatchStudent(s: Student, p: StudentPatch, now: Timestamp): (r: Student)
    ensures r.id == s.id && r.createdAt == s.createdAt && r.updatedAt == now
    ensures r.firstName == (if p.firstName.Some? then p.firstName.value else s.firstName)
    ensures r.lastName == (if p.lastName.Some? then p.lastName.value else s.lastName)
    ensures r.email == (if p.email.Some? then p.email.value else s.email)
    ensures r.phone == (if p.phone.Some? then p.phone else s.phone)
    ensures r.dateOfBirth == (if p.dateOfBirth.Some? then Some(FormatDate(p.dateOfBirth.value)) else s.dateOfBirth)
    ensures r.address == (if p.address.Some? then p.address else s.address)
    ensures r.enrollmentDate == (if p.enrollmentDate.Some? then FormatDate(p.enrollmentDate.value) else s.enrollmentDate)
    ensures r.departmentId == (if p.departmentId.Some? then p.departmentId else s.departmentId)
    ensures r.isActive == (if p.isActive.Some? then p.isActive.value else s.isActive)
  {
    s.(firstName := Pick(p.firstName, s.firstName), lastName := Pick(p.lastName, s.lastName),
       email := Pick(p.email, s.email), phone := PickNullable(p.phone, s.phone),
       dateOfBirth := PickNullable(FormatOptionalDate(p.dateOfBirth), s.dateOfBirth),
       address := PickNullable(p.address, s.address),
       enrollmentDate := if p.enrollmentDate.Some? then FormatDate(p.enrollmentDate.value) else s.enrollmentDate,
       departmentId := PickNullable(p.departmentId, s.departmentId),
       isActive := Pick(p.isActive, s.isActive), updatedAt := now)
  }

  function PatchCourse(c: Course, p: CoursePatch, now: Timestamp): (r: Course)
    ensures r.id == c.id && r.createdAt == c.createdAt && r.updatedAt == now
    ensures r.code == (if p.code.Some? then p.code.value else c.code)
    ensures r.name == (if p.name.Some? then p.name.value else c.name)
    ensures r.description == (if p.description.Some? then p.description else c.description)
    ensures r.credits == (if p.credits.Some? then p.credits.value else c.credits)
    ensures r.departmentId == (if p.departmentId.Some? then p.departmentId else c.departmentId)
    ensures r.facultyId == (if p.facultyId.Some? then p.facultyId else c.facultyId)
    ensures r.isActive == (if p.isActive.Some? then p.isActive.value else c.isActive)
  {
    c.(code := Pick(p.code, c.code), name := Pick(p.name, c.name),
       description := PickNullable(p.description, c.description), credits := Pick(p.credits, c.credits),
       departmentId := PickNullable(p.departmentId, c.departmentId),
       facultyId := PickNullable(p.facultyId, c.facultyId),
       isActive := Pick(p.isActive, c.isActive), updatedAt := now)
  }

  function PatchMark(m: Mark, p: MarkPatch, now: Timestamp): (r: Mark)
    ensures r.id == m.id && r.enrollmentId == m.enrollmentId && r.createdAt == m.createdAt && r.updatedAt == now
    ensures r.examType == (if p.examType.Some? then p.examType.value else m.examType)
    ensures r.score == (if p.score.Some? then p.score.value else m.score)
    ensures r.maxScore == (if p.maxScore.Some? then p.maxScore.value else m.maxScore)
    ensures r.remarks == (if p.remarks.Some? then p.remarks else m.remarks)
  {
    m.(examType := Pick(p.examType, m.examType), score := Pick(p.score, m.score),
       maxScore := Pick(p.maxScore, m.maxScore), remarks := PickNullable(p.remarks, m.remarks),
       updatedAt := now)
  }

  /** Applying the same patch again, later, only moves `updatedAt`. */
  lemma PatchesAreIdempotent(d: Department, dp: DepartmentPatch, f: Faculty, fp: FacultyPatch,
                             s: Student, sp: StudentPatch, c: Course, cp: CoursePatch,
                             m: Mark, mp: MarkPatch, t1: Timestamp, t2: Timestamp)
    ensures PatchDepartment(PatchDepartment(d, dp, t1), dp, t2) == PatchDepartment(d, dp, t2)
    ensures PatchFaculty(PatchFaculty(f, fp, t1), fp, t2) == PatchFaculty(f, fp, t2)
    ensures PatchStudent(PatchStudent(s, sp, t1), sp, t2) == PatchStudent(s, sp, t2)
    ensures PatchCourse(PatchCourse(c, cp, t1), cp, t2) == PatchCourse(c, cp, t2)
    ensures PatchMark(PatchMark(m, mp, t1), mp, t2) == PatchMark(m, mp, t2)
  {
  }

  // ---------------------------------------------------------------------
  // Shapes returned by the list and lookup queries
  // ---------------------------------------------------------------------

  /** `with: { department: true }` (or `faculty: true`) on a nullable
      foreign key: the referenced row, if the key is set and the row exists. */
  function Join<T>(rows: map<Id, T>, fk: Option<Id>): (r: Option<T>)
    ensures r.Some? <==> fk.Some? && fk.value in rows
    ensures r.Some? ==> r.value == rows[fk.value]
  {
    if fk.Some? && fk.value in rows then Some(rows[fk.value]) else None
  }

  datatype FacultyView = FacultyView(faculty: Faculty, department: Option<Department>)
  datatype StudentView = StudentView(student: Student, department: Option<Department>)
  datatype CourseView = CourseView(course: Course, department: Option<Department>, faculty: Option<Faculty>)
  datatype EnrolledCourse = EnrolledCourse(enrollment: Enrollment, course: Course)
  datatype StudentDetail = StudentDetail(student: Student, department: Option<Department>, enrollments: seq<EnrolledCourse>)
  datatype DashboardStats = DashboardStats(studentCount: nat, facultyCount: nat, courseCount: nat, departmentCount: nat)

  // The `orderBy` columns of the list queries.
  function DepartmentName(d: Department): string { d.name }
  function FacultyLastName(f: Faculty): string { f.lastName }
  function StudentLastName(s: Student): string { s.lastName }
  function CourseCode(c: Course): string { c.code }

  /** The enrollments of `student` among the keys `ks`, each with its course. */
  function EnrolledCourses(ks: seq<Id>, es: map<Id, Enrollment>, cs: map<Id, Course>, student: Id): (r: seq<EnrolledCourse>)
    requires forall i | 0 <= i < |ks| :: ks[i] in es && es[ks[i]].id == ks[i] && es[ks[i]].courseId in cs
    ensures forall i | 0 <= i < |r| ::
      r[i].enrollment.id in ks && r[i].enrollment.id in es && es[r[i].enrollment.id] == r[i].enrollment
      && r[i].enrollment.studentId == student && r[i].course == cs[r[i].enrollment.courseId]
    ensures forall i | 0 <= i < |ks| && es[ks[i]].studentId == student ::
      EnrolledCourse(es[ks[i]], cs[es[ks[i]].courseId]) in r
    ensures (forall i, j | 0 <= i < j < |ks| :: ks[i] < ks[j]) ==>
      forall i, j | 0 <= i < j < |r| :: r[i].enrollment.id < r[j].enrollment.id
  {
    if ks == [] then []
    else
      var rest := EnrolledCourses(ks[1..], es, cs, student);
      var e := es[ks[0]];
      if e.studentId == student then [EnrolledCourse(e, cs[e.courseId])] + rest else rest
  }

  /** Each faculty with its department. */
  function FacultyViews(rows: seq<Faculty>, ds: map<Id, Department>): (r: seq<FacultyView>)
    ensures |r| == |rows|
    ensures forall i | 0 <= i < |rows| :: r[i] == FacultyView(rows[i], Join(ds, rows[i].departmentId))
  {
    if rows == [] then []
    else [FacultyView(rows[0], Join(ds, rows[0].departmentId))] + FacultyViews(rows[1..], ds)
  }

  function ListFaculties(fs: map<Id, Faculty>, ds: map<Id, Department>, next: Id): (r: seq<FacultyView>)
    requires forall k | k in fs :: 0 <= k < next
    ensures forall i, j | 0 <= i < j < |r| :: StrLe(r[i].faculty.lastName, r[j].faculty.lastName)
    ensures |r| == |fs|
    ensures forall i | 0 <= i < |r| ::
      r[i].faculty in fs.Values && r[i].department == Join(ds, r[i].faculty.departmentId)
    ensures forall k | k in fs :: FacultyView(fs[k], Join(ds, fs[k].departmentId)) in r
  {
    var rows := SortedRows(fs, next, FacultyLastName, Ascending);
    var r := FacultyViews(rows, ds);
    forall i, j | 0 <= i < j < |r| ensures StrLe(r[i].faculty.lastName, r[j].faculty.lastName) {
      assert InOrder(FacultyLastName(rows[i]), FacultyLastName(rows[j]), Ascending);
    }
    forall k | k in fs
      ensures FacultyView(fs[k], Join(ds, fs[k].departmentId)) in r
    {
      var j :| 0 <= j < |rows| && rows[j] == fs[k];
      assert r[j] == FacultyView(rows[j], Join(ds, rows[j].departmentId));
    }
    r
  }

  /** Each student with its department. */
  function StudentViews(rows: seq<Student>, ds: map<Id, Department>): (r: seq<StudentView>)
    ensures |r| == |rows|
    ensures forall i | 0 <= i < |rows| :: r[i] == StudentView(rows[i], Join(ds, rows[i].departmentId))
  {
    if rows == [] then []
    else [StudentView(rows[0], Join(ds, rows[0].departmentId))] + StudentViews(rows[1..], ds)
  }

  function ListStudents(ss: map<Id, Student>, ds: map<Id, Department>, next: Id): (r: seq<StudentView>)
    requires forall k | k in ss :: 0 <= k < next
    ensures forall i, j | 0 <= i < j < |r| :: StrLe(r[i].student.lastName, r[j].student.lastName)
    ensures |r| == |ss|
    ensures forall i | 0 <= i < |r| ::
      r[i].student in ss.Values && r[i].department == Join(ds, r[i].student.departmentId)
    ensures forall k | k in ss :: StudentView(ss[k], Join(ds, ss[k].departmentId)) in r
  {
    var rows := SortedRows(ss, next, StudentLastName, Ascending);
    var r := StudentViews(rows, ds);
    forall i, j | 0 <= i < j < |r| ensures StrLe(r[i].student.lastName, r[j].student.lastName) {
      assert InOrder(StudentLastName(rows[i]), StudentLastName(rows[j]), Ascending);
    }
    forall k | k in ss
      ensures StudentView(ss[k], Join(ds, ss[k].departmentId)) in r
    {
      var j :| 0 <= j < |rows| && rows[j] == ss[k];
      assert r[j] == StudentView(rows[j], Join(ds, rows[j].departmentId));
    }
    r
  }

  /** Each course with its department and faculty. */
  function CourseViews(rows: seq<Course>, ds: map<Id, Department>, fs: map<Id, Faculty>): (r: seq<CourseView>)
    ensures |r| == |rows|
    ensures forall i | 0 <= i < |rows| :: r[i] == CourseView(rows[i], Join(ds, rows[i].departmentId), Join(fs, rows[i].facultyId))
  {
    if rows == [] then []
    else [CourseView(rows[0], Join(ds, rows[0].departmentId), Join(fs, rows[0].facultyId))] + CourseViews(rows[1..], ds, fs)
  }

  function ListCourses(cs: map<Id, Course>, ds: map<Id, Department>, fs: map<Id, Faculty>, next: Id): (r: seq<CourseView>)
    requires forall k | k in cs :: 0 <= k < next
    ensures forall i, j | 0 <= i < j < |r| :: StrLe(r[i].course.code, r[j].course.code)
    ensures |r| == |cs|
    ensures forall i | 0 <= i < |r| ::
      && r[i].course in cs.Values
      && r[i].department == Join(ds, r[i].course.departmentId)
      && r[i].faculty == Join(fs, r[i].course.facultyId)
    ensures forall k | k in cs ::
      CourseView(cs[k], Join(ds, cs[k].departmentId),
                 Join(fs, cs[k].facultyId)) in r
  {
    var rows := SortedRows(cs, next, CourseCode, Ascending);
    var r := CourseViews(rows, ds, fs);
    forall i, j | 0 <= i < j < |r| ensures StrLe(r[i].course.code, r[j].course.code) {
      assert InOrder(CourseCode(rows[i]), CourseCode(rows[j]), Ascending);
    }
    forall i | 0 <= i < |r|
      ensures && r[i].course in cs.Values
              && r[i].department == Join(ds, r[i].course.departmentId)
              && r[i].faculty == Join(fs, r[i].course.facultyId)
    {
      assert r[i] == CourseView(rows[i], Join(ds, rows[i].departmentId), Join(fs, rows[i].facultyId));
    }
    forall k | k in cs
      ensures CourseView(cs[k], Join(ds, cs[k].departmentId),
                         Join(fs, cs[k].facultyId)) in r
    {
      var j :| 0 <= j < |rows| && rows[j] == cs[k];
      assert r[j] == CourseView(rows[j], Join(ds, rows[j].departmentId), Join(fs, rows[j].facultyId));
    }
    r
  }

  class RecordStore {
    /** The database: every table and the next value of every serial. */
    var db: Db

    ghost predicate Valid()
      reads this
    {
      Consistent(db)
    }

    constructor ()
      ensures Valid() && db == EmptyDb()
    {
      db := EmptyDb();
    }

    // ----- departments -----

    /** `getDepartments`: every department, ascending by name. */
    method GetDepartments() returns (r: seq<Department>)
      requires Valid()
      ensures SortedBy(r, DepartmentName, Ascending)
      ensures |r| == |db.departments|
      ensures forall i | 0 <= i < |r| :: r[i] in db.departments.Values
      ensures forall k | k in db.departments :: db.departments[k] in r
    {
      r := SortedRows(db.departments, db.nextDepartmentId, DepartmentName, Ascending);
    }

    method AddDepartment(input: NewDepartment, now: Timestamp) returns (r: Outcome<Department>)
      requires Valid()
      modifies this
      ensures Valid()
      ensures r.Ok? <==> |input.code| <= CodeMaxLength && forall k | k in old(db.departments) :: old(db.departments)[k].code != input.code
      ensures r.Ok? ==> r.value == Department(old(db.nextDepartmentId), input.name, input.code, input.description, now, now)
      ensures r.Ok? ==> db == old(db).(departments := old(db.departments)[r.value.id := r.value], nextDepartmentId := old(db.nextDepartmentId) + 1)
      ensures r.Failed? ==> r.message == AddDepartmentFailure && db == old(db)
    {
      var row := Department(db.nextDepartmentId, input.name, input.code, input.description, now, now);
      if !DepartmentFits(db.departments, row) {
        return Failed(AddDepartmentFailure);
      }
      InsertDepartmentKeepsConsistent(db, row);
      db := db.(departments := db.departments[row.id := row], nextDepartmentId := db.nextDepartmentId + 1);
      r := Ok(row);
    }

    method UpdateDepartment(id: Id, patch: DepartmentPatch, now: Timestamp) returns (r: Outcome<Option<Department>>)
      requires Valid()
      modifies this
      ensures Valid()
      ensures id !in old(db.departments) ==> r == Ok(None) && db == old(db)
      ensures id in old(db.departments) ==>
        var row := PatchDepartment(old(db.departments)[id], patch, now);
        && (DepartmentFits(old(db.departments), row) ==>
              r == Ok(Some(row)) && db == old(db).(departments := old(db.departments)[id := row]))
        && (!DepartmentFits(old(db.departments), row) ==>
              r == Failed(UpdateDepartmentFailure) && db == old(db))
    {
      if id !in db.departments {
        return Ok(None);
      }
      var row := PatchDepartment(db.departments[id], patch, now);
      if !DepartmentFits(db.departments, row) {
        return Failed(UpdateDepartmentFailure);
      }
      UpdateDepartmentKeepsConsistent(db, row);
      db := db.(departments := db.departments[id := row]);
      r := Ok(Some(row));
    }

    /** The schema's rules for deleting a department (set null). */
    method DeleteDepartment(id: Id)
      requires Valid()
      modifies this
      ensures Valid() && db == Schema.DeleteDepartment(old(db), id)
    {
      db := Schema.DeleteDepartment(db, id);
    }

    // ----- faculties -----

    /** `getFaculties`: every faculty with its department, ascending by last name. */
    method GetFaculties() returns (r: seq<FacultyView>)
      requires Valid()
      ensures forall i, j | 0 <= i < j < |r| :: StrLe(r[i].faculty.lastName, r[j].faculty.lastName)
      ensures |r| == |db.faculties|
      ensures forall i | 0 <= i < |r| ::
        r[i].faculty in db.faculties.Values && r[i].department == Join(db.departments, r[i].faculty.departmentId)
      ensures forall k | k in db.faculties :: FacultyView(db.faculties[k], Join(db.departments, db.faculties[k].departmentId)) in r
    {
      r := ListFaculties(db.faculties, db.departments, db.nextFacultyId);
    }

    method AddFaculty(input: NewFaculty, now: Timestamp) returns (r: Outcome<Faculty>)
      requires Valid()
      modifies this
      ensures Valid()
      ensures r.Ok? <==> && RefersInto(input.departmentId, old(db.departments))
                         && forall k | k in old(db.faculties) :: old(db.faculties)[k].email != input.email
      ensures r.Ok? ==> r.value == Faculty(old(db.nextFacultyId), input.firstName, input.lastName, input.email,
                                           input.phone, input.departmentId, input.designation,
                                           FormatDate(input.joinDate), Pick(input.isActive, DefaultIsActive), now, now)
      ensures r.Ok? ==> db == old(db).(faculties := old(db.faculties)[r.value.id := r.value], nextFacultyId := old(db.nextFacultyId) + 1)
      ensures r.Failed? ==> r.message == AddFacultyFailure && db == old(db)
    {
      var isActive := if input.isActive.Some? then input.isActive.value else DefaultIsActive;
      var row := Faculty(db.nextFacultyId, input.firstName, input.lastName, input.email, input.phone,
                         input.departmentId, input.designation, FormatDate(input.joinDate), isActive, now, now);
      if !FacultyFits(db.faculties, db.departments, row) {
        return Failed(AddFacultyFailure);
      }
      InsertFacultyKeepsConsistent(db, row);
      db := db.(faculties := db.faculties[row.id := row], nextFacultyId := db.nextFacultyId + 1);
      r := Ok(row);
    }

    method UpdateFaculty(id: Id, patch: FacultyPatch, now: Timestamp) returns (r: Outcome<Option<Faculty>>)
      requires Valid()
      modifies this
      ensures Valid()
      ensures id !in old(db.faculties) ==> r == Ok(None) && db == old(db)
      ensures id in old(db.faculties) ==>
        var row := PatchFaculty(old(db.faculties)[id], patch, now);
        && (FacultyFits(old(db.faculties), old(db.departments), row) ==>
              r == Ok(Some(row)) && db == old(db).(faculties := old(db.faculties)[id := row]))
        && (!FacultyFits(old(db.faculties), old(db.departments), row) ==>
              r == Failed(UpdateFacultyFailure) && db == old(db))
    {
      if id !in db.faculties {
        return Ok(None);
      }
      var row := PatchFaculty(db.faculties[id], patch, now);
      if !FacultyFits(db.faculties, db.departments, row) {
        return Failed(UpdateFacultyFailure);
      }
      UpdateFacultyKeepsConsistent(db, row);
      db := db.(faculties := db.faculties[id := row]);
      r := Ok(Some(row));
    }

    /** The schema's rules for deleting a faculty (set null on courses). */
    method DeleteFaculty(id: Id)
      requires Valid()
      modifies this
      ensures Valid() && db == Schema.DeleteFaculty(old(db), id)
    {
      db := Schema.DeleteFaculty(db, id);
    }

    // ----- students -----

    /** `getStudents`: every student with its department, ascending by last name. */
    method GetStudents() returns (r: seq<StudentView>)
      requires Valid()
      ensures forall i, j | 0 <= i < j < |r| :: StrLe(r[i].student.lastName, r[j].student.lastName)
      ensures |r| == |db.students|
      ensures forall i | 0 <= i < |r| ::
        r[i].student in db.students.Values && r[i].department == Join(db.departments, r[i].student.departmentId)
      ensures forall k | k in db.students :: StudentView(db.students[k], Join(db.departments, db.students[k].departmentId)) in r
    {
      r := ListStudents(db.students, db.departments, db.nextStudentId);
    }

    /** `getStudentById`: the student, its department and each of its
        enrollments with the enrolled course; nothing when no row matches. */
    method GetStudentById(id: Id) returns (r: Option<StudentDetail>)
      requires Valid()
      ensures r.Some? <==> id in db.students
      ensures r.Some? ==> && r.value.student == db.students[id]
                          && r.value.department == Join(db.departments, db.students[id].departmentId)
      ensures r.Some? ==> forall i | 0 <= i < |r.value.enrollments| ::
        var ec := r.value.enrollments[i];
        ec.enrollment in db.enrollments.Values && ec.enrollment.studentId == id
        && ec.enrollment.courseId in db.courses && ec.course == db.courses[ec.enrollment.courseId]
      ensures r.Some? ==> forall k | k in db.enrollments && db.enrollments[k].studentId == id ::
        EnrolledCourse(db.enrollments[k], db.courses[db.enrollments[k].courseId]) in r.value.enrollments
      ensures r.Some? ==> forall i, j | 0 <= i < j < |r.value.enrollments| ::
        r.value.enrollments[i].enrollment.id != r.value.enrollments[j].enrollment.id
    {
      if id !in db.students {
        return None;
      }
      var ks := KeysBelow(db.enrollments, db.nextEnrollmentId);
      var ecs := EnrolledCourses(ks, db.enrollments, db.courses, id);
      r := Some(StudentDetail(db.students[id], Join(db.departments, db.students[id].departmentId), ecs));
    }

    method AddStudent(input: NewStudent, now: Timestamp) returns (r: Outcome<Student>)
      requires Valid()
      modifies this
      ensures Valid()
      ensures r.Ok? <==> && RefersInto(input.departmentId, old(db.departments))
                         && forall k | k in old(db.students) :: old(db.students)[k].email != input.email
      ensures r.Ok? ==> r.value == Student(old(db.nextStudentId), input.firstName, input.lastName, input.email,
                                           input.phone, FormatOptionalDate(input.dateOfBirth), input.address,
                                           FormatDate(input.enrollmentDate), input.departmentId,
                                           Pick(input.isActive, DefaultIsActive), now, now)
      ensures r.Ok? ==> db == old(db).(students := old(db.students)[r.value.id := r.value], nextStudentId := old(db.nextStudentId) + 1)
      ensures r.Failed? ==> r.message == AddStudentFailure && db == old(db)
    {
      var isActive := if input.isActive.Some? then input.isActive.value else DefaultIsActive;
      var row := Student(db.nextStudentId, input.firstName, input.lastName, input.email, input.phone,
                         None, input.address, "", input.departmentId, isActive, now, now);
      if input.dateOfBirth.Some? {
        row := row.(dateOfBirth := Some(FormatDate(input.dateOfBirth.value)));
      }
      row := row.(enrollmentDate := FormatDate(input.enrollmentDate));
      if !StudentFits(db.students, db.departments, row) {
        return Failed(AddStudentFailure);
      }
      InsertStudentKeepsConsistent(db, row);
      db := db.(students := db.students[row.id := row], nextStudentId := db.nextStudentId + 1);
      r := Ok(row);
    }

    method UpdateStudent(id: Id, patch: StudentPatch, now: Timestamp) returns (r: Outcome<Option<Student>>)
      requires Valid()
      modifies this
      ensures Valid()
      ensures id !in old(db.students) ==> r == Ok(None) && db == old(db)
      ensures id in old(db.students) ==>
        var row := PatchStudent(old(db.students)[id], patch, now);
        && (StudentFits(old(db.students), old(db.departments), row) ==>
              r == Ok(Some(row)) && db == old(db).(students := old(db.students)[id := row]))
        && (!StudentFits(old(db.students), old(db.departments), row) ==>
              r == Failed(UpdateStudentFailure) && db == old(db))
    {
      if id !in db.students {
        return Ok(None);
      }
      var row := PatchStudent(db.students[id], patch, now);
      if !StudentFits(db.students, db.departments, row) {
        return Failed(UpdateStudentFailure);
      }
      UpdateStudentKeepsConsistent(db, row);
      db := db.(students := db.students[id := row]);
      r := Ok(Some(row));
    }

    /** The schema's rules for deleting a student (cascade to enrollments,
        and from them to marks and attendance). */
    method DeleteStudent(id: Id)
      requires Valid()
      modifies this
      ensures Valid() && db == Schema.DeleteStudent(old(db), id)
    {
      db := Schema.DeleteStudent(db, id);
    }

    // ----- courses -----

    /** `getCourses`: every course with its department and faculty, ascending by code. */
    method GetCourses() returns (r: seq<CourseView>)
      requires Valid()
      ensures forall i, j | 0 <= i < j < |r| :: StrLe(r[i].course.code, r[j].course.code)
      ensures |r| == |db.courses|
      ensures forall i | 0 <= i < |r| ::
        && r[i].course in db.courses.Values
        && r[i].department == Join(db.departments, r[i].course.departmentId)
        && r[i].faculty == Join(db.faculties, r[i].course.facultyId)
      ensures forall k | k in db.courses ::
        CourseView(db.courses[k], Join(db.departments, db.courses[k].departmentId),
                   Join(db.faculties, db.courses[k].facultyId)) in r
    {
      r := ListCourses(db.courses, db.departments, db.faculties, db.nextCourseId);
    }

    method AddCourse(input: NewCourse, now: Timestamp) returns (r: Outcome<Course>)
      requires Valid()
      modifies this
      ensures Valid()
      ensures r.Ok? <==> && |input.code| <= CodeMaxLength && IsInt4(input.credits)
                         && RefersInto(input.departmentId, old(db.departments))
                         && RefersInto(input.facultyId, old(db.faculties))
                         && forall k | k in old(db.courses) :: old(db.courses)[k].code != input.code
      ensures r.Ok? ==> r.value == Course(old(db.nextCourseId), input.code, input.name, input.description, input.credits,
                                          input.departmentId, input.facultyId, Pick(input.isActive, DefaultIsActive), now, now)
      ensures r.Ok? ==> db == old(db).(courses := old(db.courses)[r.value.id := r.value], nextCourseId := old(db.nextCourseId) + 1)
      ensures r.Failed? ==> r.message == AddCourseFailure && db == old(db)
    {
      var isActive := if input.isActive.Some? then input.isActive.value else DefaultIsActive;
      var row := Course(db.nextCourseId, input.code, input.name, input.description, input.credits,
                        input.departmentId, input.facultyId, isActive, now, now);
      if !CourseFits(db.courses, db.departments, db.faculties, row) {
        return Failed(AddCourseFailure);
      }
      InsertCourseKeepsConsistent(db, row);
      db := db.(courses := db.courses[row.id := row], nextCourseId := db.nextCourseId + 1);
      r := Ok(row);
    }

    method UpdateCourse(id: Id, patch: CoursePatch, now: Timestamp) returns (r: Outcome<Option<Course>>)
      requires Valid()
      modifies this
      ensures Valid()
      ensures id !in old(db.courses) ==> r == Ok(None) && db == old(db)
      ensures id in old(db.courses) ==>
        var row := PatchCourse(old(db.courses)[id], patch, now);
        && (CourseFits(old(db.courses), old(db.departments), old(db.faculties), row) ==>
              r == Ok(Some(row)) && db == old(db).(courses := old(db.courses)[id := row]))
        && (!CourseFits(old(db.courses), old(db.departments), old(db.faculties), row) ==>
              r == Failed(UpdateCourseFailure) && db == old(db))
    {
      if id !in db.courses {
        return Ok(None);
      }
      var row := PatchCourse(db.courses[id], patch, now);
      if !CourseFits(db.courses, db.departments, db.faculties, row) {
        return Failed(UpdateCourseFailure);
      }
      UpdateCourseKeepsConsistent(db, row);
      db := db.(courses := db.courses[id := row]);
      r := Ok(Some(row));
    }

    /** The schema's rules for deleting a course (cascade to enrollments,
        and from them to marks and attendance). */
    method DeleteCourse(id: Id)
      requires Valid()
      modifies this
      ensures Valid() && db == Schema.DeleteCourse(old(db), id)
    {
      db := Schema.DeleteCourse(db, id);
    }

    // ----- enrollments -----

    predicate IsEnrolled(studentId: Id, courseId: Id, semester: Semester, year: int)
      reads this
    {
      HasEnrollment(db.enrollments, studentId, courseId, semester, year)
    }

    /** `enrollStudent`: rejects an existing (student, course, semester, year)
        and otherwise inserts one ungraded enrollment. Every failure, the
        duplicate included, surfaces as the same `Failed to enroll student`. */
    method EnrollStudent(studentId: Id, courseId: Id, semester: Semester, year: int, now: Timestamp)
      returns (r: Outcome<Enrollment>)
      requires Valid()
      modifies this
      ensures Valid()
      ensures r.Ok? <==> && !old(IsEnrolled(studentId, courseId, semester, year))
                         && studentId in old(db.students) && courseId in old(db.courses) && IsInt4(year)
      ensures r.Ok? ==> r.value == Enrollment(old(db.nextEnrollmentId), studentId, courseId, semester, year, None, now, now)
      ensures r.Ok? ==> db == old(db).(enrollments := old(db.enrollments)[r.value.id := r.value], nextEnrollmentId := old(db.nextEnrollmentId) + 1)
      ensures r.Ok? ==> forall k | k in db.enrollments && SameEnrollment(db.enrollments[k], studentId, courseId, semester, year) ::
                          k == r.value.id
      ensures r.Failed? ==> r.message == EnrollFailure && db == old(db)
    {
      if IsEnrolled(studentId, courseId, semester, year) {
        // 'already enrolled' is thrown inside the handler, which re-raises it
        // as the operation's generic failure.
        return Failed(EnrollFailure);
      }
      var row := Enrollment(db.nextEnrollmentId, studentId, courseId, semester, year, None, now, now);
      if !EnrollmentFits(db.students, db.courses, row) {
        return Failed(EnrollFailure);
      }
      InsertEnrollmentKeepsConsistent(db, row);
      db := db.(enrollments := db.enrollments[row.id := row], nextEnrollmentId := db.nextEnrollmentId + 1);
      r := Ok(row);
    }

    /** `updateGrade`: sets the grade of the enrollment with that id. */
    method UpdateGrade(enrollmentId: Id, grade: Grade, now: Timestamp) returns (r: Option<Enrollment>)
      requires Valid()
      modifies this
      ensures Valid()
      ensures enrollmentId !in old(db.enrollments) ==> r == None && db == old(db)
      ensures enrollmentId in old(db.enrollments) ==>
        var row := old(db.enrollments)[enrollmentId].(grade := Some(grade), updatedAt := now);
        r == Some(row) && db == old(db).(enrollments := old(db.enrollments)[enrollmentId := row])
    {
      if enrollmentId !in db.enrollments {
        return None;
      }
      var row := db.enrollments[enrollmentId].(grade := Some(grade), updatedAt := now);
      RegradeKeepsConsistent(db, enrollmentId, grade, now);
      db := db.(enrollments := db.enrollments[enrollmentId := row]);
      r := Some(row);
    }

    /** The schema's rules for deleting an enrollment (cascade to marks and attendance). */
    method DeleteEnrollment(id: Id)
      requires Valid()
      modifies this
      ensures Valid() && db == Schema.DeleteEnrollment(old(db), id)
    {
      db := Schema.DeleteEnrollment(db, id);
    }

    // ----- marks -----

    /** `addMarks`: nothing relates score to maxScore. */
    method AddMarks(input: NewMark, now: Timestamp) returns (r: Outcome<Mark>)
      requires Valid()
      modifies this
      ensures Valid()
      ensures r.Ok? <==> input.enrollmentId in old(db.enrollments)
      ensures r.Ok? ==> r.value == Mark(old(db.nextMarkId), input.enrollmentId, input.examType, input.score,
                                        input.maxScore, input.remarks, now, now)
      ensures r.Ok? ==> db == old(db).(marks := old(db.marks)[r.value.id := r.value], nextMarkId := old(db.nextMarkId) + 1)
      ensures r.Failed? ==> r.message == AddMarksFailure && db == old(db)
    {
      if input.enrollmentId !in db.enrollments {
        return Failed(AddMarksFailure);
      }
      var row := Mark(db.nextMarkId, input.enrollmentId, input.examType, input.score, input.maxScore, input.remarks, now, now);
      InsertMarkKeepsConsistent(db, row);
      db := db.(marks := db.marks[row.id := row], nextMarkId := db.nextMarkId + 1);
      r := Ok(row);
    }

    method UpdateMarks(id: Id, patch: MarkPatch, now: Timestamp) returns (r: Option<Mark>)
      requires Valid()
      modifies this
      ensures Valid()
      ensures id !in old(db.marks) ==> r == None && db == old(db)
      ensures id in old(db.marks) ==>
        var row := PatchMark(old(db.marks)[id], patch, now);
        r == Some(row) && db == old(db).(marks := old(db.marks)[id := row])
    {
      if id !in db.marks {
        return None;
      }
      var row := PatchMark(db.marks[id], patch, now);
      UpdateMarkKeepsConsistent(db, row);
      db := db.(marks := db.marks[id := row]);
      r := Some(row);
    }

    method DeleteMark(id: Id)
      requires Valid()
      modifies this
      ensures Valid() && db == Schema.DeleteMark(old(db), id)
    {
      db := Schema.DeleteMark(db, id);
    }

    // ----- attendance -----

    predicate HasAttendance(enrollmentId: Id, day: Day)
      reads this
    {
      exists k | k in db.attendance :: db.attendance[k].enrollmentId == enrollmentId && db.attendance[k].date == day
    }

    /** The update half of `markAttendance`: row `k` gets the new
        `isPresent`, the supplied remarks and a new `updatedAt`. */
    method RemarkAttendance(k: Id, isPresent: bool, remarks: Option<string>, now: Timestamp) returns (row: Attendance)
      requires Valid() && k in db.attendance
      modifies this
      ensures Valid()
      ensures row == old(db.attendance)[k].(isPresent := isPresent, remarks := PickNullable(remarks, old(db.attendance)[k].remarks),
                                            updatedAt := now)
      ensures db == old(db).(attendance := old(db.attendance)[k := row])
    {
      row := db.attendance[k].(isPresent := isPresent, updatedAt := now);
      if remarks.Some? { row := row.(remarks := remarks); }
      UpdateAttendanceKeepsConsistent(db, row);
      db := db.(attendance := db.attendance[k := row]);
    }

    /** The insert half of `markAttendance`. */
    method InsertAttendance(enrollmentId: Id, day: Day, isPresent: bool, remarks: Option<string>, now: Timestamp)
      returns (r: Outcome<Attendance>)
      requires Valid() && !HasAttendance(enrollmentId, day)
      modifies this
      ensures Valid()
      ensures r.Ok? <==> enrollmentId in old(db.enrollments)
      ensures r.Ok? ==> && r.value == Attendance(old(db.nextAttendanceId), enrollmentId, day, isPresent, remarks, now, now)
                        && r.value.id !in old(db.attendance)
                        && db == old(db).(attendance := old(db.attendance)[r.value.id := r.value],
                                          nextAttendanceId := old(db.nextAttendanceId) + 1)
      ensures r.Failed? ==> r.message == MarkAttendanceFailure && db == old(db)
    {
      if enrollmentId !in db.enrollments {
        return Failed(MarkAttendanceFailure);
      }
      var row := Attendance(db.nextAttendanceId, enrollmentId, day, isPresent, remarks, now, now);
      InsertAttendanceKeepsConsistent(db, row);
      db := db.(attendance := db.attendance[row.id := row], nextAttendanceId := db.nextAttendanceId + 1);
      r := Ok(row);
    }

    /** `markAttendance`: upsert keyed on (enrollmentId, day). The existing
        row, if any, gets the new `isPresent`, the supplied remarks and a new
        `updatedAt`; otherwise one row is inserted. */
    method MarkAttendance(enrollmentId: Id, date: IsoDateTime, isPresent: bool, remarks: Option<string>, now: Timestamp)
      returns (r: Outcome<Attendance>)
      requires Valid()
      modifies this
      ensures Valid()
      ensures r.Ok? ==> && r.value.id in db.attendance && db.attendance[r.value.id] == r.value
                        && r.value.enrollmentId == enrollmentId && r.value.date == FormatDate(date)
                        && r.value.isPresent == isPresent
      ensures r.Ok? ==> forall k | k in db.attendance && db.attendance[k].enrollmentId == enrollmentId
                                   && db.attendance[k].date == FormatDate(date) :: k == r.value.id
      ensures forall k | k in old(db.attendance) && old(db.attendance)[k].enrollmentId == enrollmentId
                         && old(db.attendance)[k].date == FormatDate(date) ::
        var row := old(db.attendance)[k].(isPresent := isPresent, remarks := PickNullable(remarks, old(db.attendance)[k].remarks),
                                       updatedAt := now);
        r == Ok(row) && db == old(db).(attendance := old(db.attendance)[k := row])
      ensures !old(HasAttendance(enrollmentId, FormatDate(date))) ==>
        && (r.Ok? <==> enrollmentId in old(db.enrollments))
        && (r.Ok? ==> r.value == Attendance(old(db.nextAttendanceId), enrollmentId, FormatDate(date), isPresent, remarks, now, now)
                      && db == old(db).(attendance := old(db.attendance)[r.value.id := r.value], nextAttendanceId := old(db.nextAttendanceId) + 1))
      ensures r.Ok? ==> |db.attendance| == |old(db.attendance)| + if old(HasAttendance(enrollmentId, FormatDate(date))) then 0 else 1
      ensures r.Failed? ==> r.message == MarkAttendanceFailure && db == old(db)
    {
      var day := FormatDate(date);
      if HasAttendance(enrollmentId, day) {
        var k :| k in db.attendance && db.attendance[k].enrollmentId == enrollmentId && db.attendance[k].date == day;
        var row := RemarkAttendance(k, isPresent, remarks, now);
        r := Ok(row);
      } else {
        r := InsertAttendance(enrollmentId, day, isPresent, remarks, now);
      }
    }

    method DeleteAttendance(id: Id)
      requires Valid()
      modifies this
      ensures Valid() && db == Schema.DeleteAttendance(old(db), id)
    {
      db := Schema.DeleteAttendance(db, id);
    }

    // ----- dashboard -----

    /** `getDashboardStats`: the sizes of four tables. */
    method GetDashboardStats() returns (r: DashboardStats)
      ensures r.studentCount == |db.students| && r.facultyCount == |db.faculties|
      ensures r.courseCount == |db.courses| && r.departmentCount == |db.departments|
    {
      r := DashboardStats(|db.students|, |db.faculties|, |db.courses|, |db.departments|);
    }
  }
}
