/** The persistent schema of the school-records store: the seven tables, the
    two enumerations, the column constraints the database enforces (serial
    keys, unique columns, varchar(10), 32-bit integers, foreign keys) and the
    `onDelete` rules (set null / cascade) as functions on a snapshot of all
    tables. */
module Schema {

  type Id = int
  /** An abstract clock value; `defaultNow()` and `new Date()` both read it. */
  type Timestamp = int
  /** A calendar day as stored in a `date` column: 'YYYY-MM-DD'. */
  type Day = string

  datatype Option<T> = None | Some(value: T)

  datatype Semester = Fall | Spring | Summer
  datatype Grade = A | B | C | D | F | I | W

  /** Length limit of the `varchar(10)` code columns. */
  const CodeMaxLength: nat := 10
  /** `isActive` default of faculties, courses and students. */
  const DefaultIsActive: bool := true
  /** `isPresent` default of attendance rows. */
  const DefaultIsPresent: bool := false

  /** Range of a Postgres `integer` column. */
  predicate IsInt4(x: int) {
    -0x8000_0000 <= x < 0x8000_0000
  }

  datatype Department = Department(
    id: Id, name: string, code: string, description: Option<string>,
    createdAt: Timestamp, updatedAt: Timestamp)

  datatype Faculty = Faculty(
    id: Id, firstName: string, lastName: string, email: string,
    phone: Option<string>, departmentId: Option<Id>, designation: Option<string>,
    joinDate: Day, isActive: bool, createdAt: Timestamp, updatedAt: Timestamp)

  datatype Course = Course(
    id: Id, code: string, name: string, description: Option<string>, credits: int,
    departmentId: Option<Id>, facultyId: Option<Id>, isActive: bool,
    createdAt: Timestamp, updatedAt: Timestamp)

  datatype Student = Student(
    id: Id, firstName: string, lastName: string, email: string,
    phone: Option<string>, dateOfBirth: Option<Day>, address: Option<string>,
    enrollmentDate: Day, departmentId: Option<Id>, isActive: bool,
    createdAt: Timestamp, updatedAt: Timestamp)

  datatype Enrollment = Enrollment(
    id: Id, studentId: Id, courseId: Id, semester: Semester, year: int,
    grade: Option<Grade>, createdAt: Timestamp, updatedAt: Timestamp)

  datatype Mark = Mark(
    id: Id, enrollmentId: Id, examType: string, score: real, maxScore: real,
    remarks: Option<string>, createdAt: Timestamp, updatedAt: Timestamp)

  datatype Attendance = Attendance(
    id: Id, enrollmentId: Id, date: Day, isPresent: bool, remarks: Option<string>,
    createdAt: Timestamp, updatedAt: Timestamp)

  /** Every table, keyed by primary key, and the next value of each serial. */
  datatype Db = Db(
    departments: map<Id, Department>,
    faculties: map<Id, Faculty>,
    courses: map<Id, Course>,
    students: map<Id, Student>,
    enrollments: map<Id, Enrollment>,
    marks: map<Id, Mark>,
    attendance: map<Id, Attendance>,
    nextDepartmentId: Id, nextFacultyId: Id, nextCourseId: Id, nextStudentId: Id,
    nextEnrollmentId: Id, nextMarkId: Id, nextAttendanceId: Id)

  /** Nullable foreign key: null, or the key of a row of `m`. */
  predicate RefersInto<T>(fk: Option<Id>, m: map<Id, T>) {
    fk.None? || fk.value in m
  }

  // ---------------------------------------------------------------------
  // Whether the database accepts a row (insert, or update of row `r.id`)
  // ---------------------------------------------------------------------

  predicate DepartmentFits(ds: map<Id, Department>, d: Department) {
    && |d.code| <= CodeMaxLength
    && forall k | k in ds && k != d.id :: ds[k].code != d.code
  }

  predicate FacultyFits(fs: map<Id, Faculty>, ds: map<Id, Department>, f: Faculty) {
    && RefersInto(f.departmentId, ds)
    && forall k | k in fs && k != f.id :: fs[k].email != f.email
  }

  predicate CourseFits(cs: map<Id, Course>, ds: map<Id, Department>, fs: map<Id, Faculty>, c: Course) {
    && |c.code| <= CodeMaxLength
    && IsInt4(c.credits)
    && RefersInto(c.departmentId, ds)
    && RefersInto(c.facultyId, fs)
    && forall k | k in cs && k != c.id :: cs[k].code != c.code
  }

  predicate StudentFits(ss: map<Id, Student>, ds: map<Id, Department>, s: Student) {
    && RefersInto(s.departmentId, ds)
    && forall k | k in ss && k != s.id :: ss[k].email != s.email
  }

  predicate EnrollmentFits(ss: map<Id, Student>, cs: map<Id, Course>, e: Enrollment) {
    e.studentId in ss && e.courseId in cs && IsInt4(e.year)
  }

  // ---------------------------------------------------------------------
  // Table invariants
  // ---------------------------------------------------------------------

  ghost predicate DepartmentsOk(ds: map<Id, Department>, next: Id) {
    && (forall k | k in ds :: ds[k].id == k && 1 <= k < next && |ds[k].code| <= CodeMaxLength)
    && (forall i, j | i in ds && j in ds && ds[i].code == ds[j].code :: i == j)
  }

  ghost predicate FacultiesOk(fs: map<Id, Faculty>, ds: map<Id, Department>, next: Id) {
    && (forall k | k in fs :: fs[k].id == k && 1 <= k < next && RefersInto(fs[k].departmentId, ds))
    && (forall i, j | i in fs && j in fs && fs[i].email == fs[j].email :: i == j)
  }

  ghost predicate CoursesOk(cs: map<Id, Course>, ds: map<Id, Department>, fs: map<Id, Faculty>, next: Id) {
    && (forall k | k in cs ::
          && cs[k].id == k && 1 <= k < next
          && |cs[k].code| <= CodeMaxLength && IsInt4(cs[k].credits)
          && RefersInto(cs[k].departmentId, ds) && RefersInto(cs[k].facultyId, fs))
    && (forall i, j | i in cs && j in cs && cs[i].code == cs[j].code :: i == j)
  }

  ghost predicate StudentsOk(ss: map<Id, Student>, ds: map<Id, Department>, next: Id) {
    && (forall k | k in ss :: ss[k].id == k && 1 <= k < next && RefersInto(ss[k].departmentId, ds))
    && (forall i, j | i in ss && j in ss && ss[i].email == ss[j].email :: i == j)
  }

  ghost predicate EnrollmentsOk(es: map<Id, Enrollment>, ss: map<Id, Student>, cs: map<Id, Course>, next: Id) {
    forall k | k in es :: es[k].id == k && 1 <= k < next && EnrollmentFits(ss, cs, es[k])
  }

  ghost predicate MarksOk(ms: map<Id, Mark>, es: map<Id, Enrollment>, next: Id) {
    forall k | k in ms :: ms[k].id == k && 1 <= k < next && ms[k].enrollmentId in es
  }

  ghost predicate AttendanceOk(ats: map<Id, Attendance>, es: map<Id, Enrollment>, next: Id) {
    forall k | k in ats :: ats[k].id == k && 1 <= k < next && ats[k].enrollmentId in es
  }

  /** A serial column starts at 1. */
  predicate SerialsStarted(db: Db) {
    && db.nextDepartmentId >= 1 && db.nextFacultyId >= 1 && db.nextCourseId >= 1
    && db.nextStudentId >= 1 && db.nextEnrollmentId >= 1 && db.nextMarkId >= 1
    && db.nextAttendanceId >= 1
  }

  /** Everything the database itself enforces. */
  ghost predicate SchemaConstraints(db: Db) {
    && DepartmentsOk(db.departments, db.nextDepartmentId)
    && FacultiesOk(db.faculties, db.departments, db.nextFacultyId)
    && CoursesOk(db.courses, db.departments, db.faculties, db.nextCourseId)
    && StudentsOk(db.students, db.departments, db.nextStudentId)
    && EnrollmentsOk(db.enrollments, db.students, db.courses, db.nextEnrollmentId)
    && MarksOk(db.marks, db.enrollments, db.nextMarkId)
    && AttendanceOk(db.attendance, db.enrollments, db.nextAttendanceId)
    && SerialsStarted(db)
  }

  predicate SameEnrollment(e: Enrollment, studentId: Id, courseId: Id, semester: Semester, year: int) {
    e.studentId == studentId && e.courseId == courseId && e.semester == semester && e.year == year
  }

  /** Some enrollment of the table is for that student, course and term. */
  predicate HasEnrollment(es: map<Id, Enrollment>, studentId: Id, courseId: Id, semester: Semester, year: int) {
    exists k | k in es :: SameEnrollment(es[k], studentId, courseId, semester, year)
  }

  /** A table that keeps every row of another keeps its enrollments. */
  lemma HasEnrollmentKept(es: map<Id, Enrollment>, es': map<Id, Enrollment>, studentId: Id, courseId: Id, semester: Semester, year: int)
    requires forall k | k in es :: k in es' && es'[k] == es[k]
    requires HasEnrollment(es, studentId, courseId, semester, year)
    ensures HasEnrollment(es', studentId, courseId, semester, year)
  {
    var k :| k in es && SameEnrollment(es[k], studentId, courseId, semester, year);
    assert es'[k] == es[k];
  }

  /** At most one enrollment per (student, course, semester, year). */
  ghost predicate UniqueEnrollmentTuples(es: map<Id, Enrollment>) {
    forall i, j | i in es && j in es && SameEnrollment(es[j], es[i].studentId, es[i].courseId, es[i].semester, es[i].year) :: i == j
  }

  /** At most one attendance row per (enrollment, day). */
  ghost predicate UniqueAttendanceDays(ats: map<Id, Attendance>) {
    forall i, j | i in ats && j in ats && ats[i].enrollmentId == ats[j].enrollmentId && ats[i].date == ats[j].date :: i == j
  }

  /** The store's invariant: the schema's constraints plus the two uniqueness
      rules that only the application's read-before-write checks maintain. */
  ghost predicate Consistent(db: Db) {
    SchemaConstraints(db) && UniqueEnrollmentTuples(db.enrollments) && UniqueAttendanceDays(db.attendance)
  }

  function EmptyDb(): (db: Db)
    ensures Consistent(db)
    ensures db.departments == map[] && db.faculties == map[] && db.courses == map[] && db.students == map[]
    ensures db.enrollments == map[] && db.marks == map[] && db.attendance == map[]
    ensures db.nextDepartmentId == 1 && db.nextFacultyId == 1 && db.nextCourseId == 1 && db.nextStudentId == 1
    ensures db.nextEnrollmentId == 1 && db.nextMarkId == 1 && db.nextAttendanceId == 1
  {
    Db(map[], map[], map[], map[], map[], map[], map[], 1, 1, 1, 1, 1, 1, 1)
  }

  /** The schema declares no unique index on the enrollment tuple nor on
      (enrollment, date): a database state that breaks both rules satisfies
      every constraint the schema states. */
  lemma SchemaAllowsDuplicates()
    ensures exists db :: SchemaConstraints(db) && !UniqueEnrollmentTuples(db.enrollments) && !UniqueAttendanceDays(db.attendance)
  {
    var s := Student(1, "Ada", "Lovelace", "ada@example.org", None, None, None, "2025-09-01", None, true, 0, 0);
    var c := Course(1, "CS101", "Intro", None, 3, None, None, true, 0, 0);
    var e1 := Enrollment(1, 1, 1, Fall, 2025, None, 0, 0);
    var e2 := Enrollment(2, 1, 1, Fall, 2025, None, 0, 0);
    var a1 := Attendance(1, 1, "2025-09-01", true, None, 0, 0);
    var a2 := Attendance(2, 1, "2025-09-01", false, None, 0, 0);
    var db := Db(map[], map[], map[1 := c], map[1 := s], map[1 := e1, 2 := e2], map[],
                 map[1 := a1, 2 := a2], 1, 1, 2, 2, 3, 1, 3);
    assert SameEnrollment(db.enrollments[2], e1.studentId, e1.courseId, e1.semester, e1.year);
    assert db.attendance[1].date == db.attendance[2].date;
    assert SchemaConstraints(db);
  }

  // ---------------------------------------------------------------------
  // onDelete: 'set null'
  // ---------------------------------------------------------------------

  /** `faculties.departmentId` references departments with onDelete set null. */
  function ClearFacultyDepartment(fs: map<Id, Faculty>, dept: Id): (r: map<Id, Faculty>)
    ensures r.Keys == fs.Keys
    ensures forall k | k in r :: r[k].departmentId != Some(dept)
    ensures forall k | k in r :: r[k] == fs[k] || (fs[k].departmentId == Some(dept) && r[k] == fs[k].(departmentId := None))
  {
    map k | k in fs :: if fs[k].departmentId == Some(dept) then fs[k].(departmentId := None) else fs[k]
  }

  /** `courses.departmentId` references departments with onDelete set null. */
  function ClearCourseDepartment(cs: map<Id, Course>, dept: Id): (r: map<Id, Course>)
    ensures r.Keys == cs.Keys
    ensures forall k | k in r :: r[k].departmentId != Some(dept)
    ensures forall k | k in r :: r[k] == cs[k] || (cs[k].departmentId == Some(dept) && r[k] == cs[k].(departmentId := None))
  {
    map k | k in cs :: if cs[k].departmentId == Some(dept) then cs[k].(departmentId := None) else cs[k]
  }

  /** `courses.facultyId` references faculties with onDelete set null. */
  function ClearCourseFaculty(cs: map<Id, Course>, faculty: Id): (r: map<Id, Course>)
    ensures r.Keys == cs.Keys
    ensures forall k | k in r :: r[k].facultyId != Some(faculty)
    ensures forall k | k in r :: r[k] == cs[k] || (cs[k].facultyId == Some(faculty) && r[k] == cs[k].(facultyId := None))
  {
    map k | k in cs :: if cs[k].facultyId == Some(faculty) then cs[k].(facultyId := None) else cs[k]
  }

  /** `students.departmentId` references departments with onDelete set null. */
  function ClearStudentDepartment(ss: map<Id, Student>, dept: Id): (r: map<Id, Student>)
    ensures r.Keys == ss.Keys
    ensures forall k | k in r :: r[k].departmentId != Some(dept)
    ensures forall k | k in r :: r[k] == ss[k] || (ss[k].departmentId == Some(dept) && r[k] == ss[k].(departmentId := None))
  {
    map k | k in ss :: if ss[k].departmentId == Some(dept) then ss[k].(departmentId := None) else ss[k]
  }

  lemma ClearFacultyDepartmentKeepsOk(fs: map<Id, Faculty>, ds: map<Id, Department>, dept: Id, next: Id)
    ensures FacultiesOk(fs, ds, next) ==> FacultiesOk(ClearFacultyDepartment(fs, dept), ds - {dept}, next)
  {
  }

  lemma ClearCourseDepartmentKeepsOk(cs: map<Id, Course>, ds: map<Id, Department>, fs: map<Id, Faculty>, dept: Id, next: Id)
    ensures CoursesOk(cs, ds, fs, next) ==> CoursesOk(ClearCourseDepartment(cs, dept), ds - {dept}, fs, next)
  {
  }

  lemma ClearCourseFacultyKeepsOk(cs: map<Id, Course>, ds: map<Id, Department>, fs: map<Id, Faculty>, faculty: Id, next: Id)
    ensures CoursesOk(cs, ds, fs, next) ==> CoursesOk(ClearCourseFaculty(cs, faculty), ds, fs - {faculty}, next)
  {
  }

  lemma ClearStudentDepartmentKeepsOk(ss: map<Id, Student>, ds: map<Id, Department>, dept: Id, next: Id)
    ensures StudentsOk(ss, ds, next) ==> StudentsOk(ClearStudentDepartment(ss, dept), ds - {dept}, next)
  {
  }

  /** No serial counter moves. */
  predicate SameSerials(db: Db, r: Db) {
    && r.nextDepartmentId == db.nextDepartmentId && r.nextFacultyId == db.nextFacultyId
    && r.nextCourseId == db.nextCourseId && r.nextStudentId == db.nextStudentId
    && r.nextEnrollmentId == db.nextEnrollmentId && r.nextMarkId == db.nextMarkId
    && r.nextAttendanceId == db.nextAttendanceId
  }

  /** Deleting a department removes it and nulls every faculty, course and
      student reference to it; no row of those tables is deleted. */
  function DeleteDepartment(db: Db, id: Id): (r: Db)
    ensures Consistent(db) ==> Consistent(r)
    ensures r.departments.Keys == db.departments.Keys - {id}
    ensures r.faculties.Keys == db.faculties.Keys && r.courses.Keys == db.courses.Keys && r.students.Keys == db.students.Keys
    ensures forall k | k in r.faculties :: r.faculties[k].departmentId != Some(id)
    ensures forall k | k in r.courses :: r.courses[k].departmentId != Some(id)
    ensures forall k | k in r.students :: r.students[k].departmentId != Some(id)
    ensures forall k | k in r.departments :: r.departments[k] == db.departments[k]
    ensures forall k | k in db.faculties ::
      r.faculties[k] == (if db.faculties[k].departmentId == Some(id) then db.faculties[k].(departmentId := None) else db.faculties[k])
    ensures forall k | k in db.courses ::
      r.courses[k] == (if db.courses[k].departmentId == Some(id) then db.courses[k].(departmentId := None) else db.courses[k])
    ensures forall k | k in db.students ::
      r.students[k] == (if db.students[k].departmentId == Some(id) then db.students[k].(departmentId := None) else db.students[k])
    ensures r.enrollments == db.enrollments && r.marks == db.marks && r.attendance == db.attendance
    ensures SameSerials(db, r)
  {
    ClearFacultyDepartmentKeepsOk(db.faculties, db.departments, id, db.nextFacultyId);
    ClearCourseDepartmentKeepsOk(db.courses, db.departments, db.faculties, id, db.nextCourseId);
    ClearStudentDepartmentKeepsOk(db.students, db.departments, id, db.nextStudentId);
    db.(departments := db.departments - {id},
        faculties := ClearFacultyDepartment(db.faculties, id),
        courses := ClearCourseDepartment(db.courses, id),
        students := ClearStudentDepartment(db.students, id))
  }

  /** Deleting a faculty removes it and nulls `facultyId` of its courses; no
      course is deleted. */
  function DeleteFaculty(db: Db, id: Id): (r: Db)
    ensures Consistent(db) ==> Consistent(r)
    ensures r.faculties.Keys == db.faculties.Keys - {id}
    ensures r.courses.Keys == db.courses.Keys
    ensures forall k | k in r.courses :: r.courses[k].facultyId != Some(id)
    ensures forall k | k in r.faculties :: r.faculties[k] == db.faculties[k]
    ensures forall k | k in db.courses ::
      r.courses[k] == (if db.courses[k].facultyId == Some(id) then db.courses[k].(facultyId := None) else db.courses[k])
    ensures r.departments == db.departments && r.students == db.students
    ensures r.enrollments == db.enrollments && r.marks == db.marks && r.attendance == db.attendance
    ensures SameSerials(db, r)
  {
    ClearCourseFacultyKeepsOk(db.courses, db.departments, db.faculties, id, db.nextCourseId);
    db.(faculties := db.faculties - {id}, courses := ClearCourseFaculty(db.courses, id))
  }

  // ---------------------------------------------------------------------
  // onDelete: 'cascade'
  // ---------------------------------------------------------------------

  /** Removes the given enrollments and, by cascade, every mark and attendance
      row of one of them. */
  function DeleteEnrollments(db: Db, doomed: set<Id>): (r: Db)
    ensures Consistent(db) ==> Consistent(r)
    ensures r.enrollments.Keys == db.enrollments.Keys - doomed
    ensures forall k | k in r.marks :: r.marks[k].enrollmentId !in doomed
    ensures forall k | k in r.attendance :: r.attendance[k].enrollmentId !in doomed
    ensures forall k | k in db.marks :: k in r.marks <==> db.marks[k].enrollmentId !in doomed
    ensures forall k | k in db.attendance :: k in r.attendance <==> db.attendance[k].enrollmentId !in doomed
    ensures forall k | k in r.enrollments :: k in db.enrollments && r.enrollments[k] == db.enrollments[k]
    ensures forall k | k in r.marks :: k in db.marks && r.marks[k] == db.marks[k]
    ensures forall k | k in r.attendance :: k in db.attendance && r.attendance[k] == db.attendance[k]
    ensures r.departments == db.departments && r.faculties == db.faculties
    ensures r.courses == db.courses && r.students == db.students
    ensures SameSerials(db, r)
  {
    db.(enrollments := db.enrollments - doomed,
        marks := map k | k in db.marks && db.marks[k].enrollmentId !in doomed :: db.marks[k],
        attendance := map k | k in db.attendance && db.attendance[k].enrollmentId !in doomed :: db.attendance[k])
  }

  /** Enrollments of a student. */
  function EnrollmentsOfStudent(es: map<Id, Enrollment>, student: Id): (r: set<Id>)
    ensures forall k :: k in r <==> k in es && es[k].studentId == student
  {
    set k | k in es && es[k].studentId == student
  }

  /** Enrollments in a course. */
  function EnrollmentsOfCourse(es: map<Id, Enrollment>, course: Id): (r: set<Id>)
    ensures forall k :: k in r <==> k in es && es[k].courseId == course
  {
    set k | k in es && es[k].courseId == course
  }

  /** Deleting an enrollment deletes its marks and attendance. */
  function DeleteEnrollment(db: Db, id: Id): (r: Db)
    ensures Consistent(db) ==> Consistent(r)
    ensures r.enrollments.Keys == db.enrollments.Keys - {id}
    ensures forall k | k in r.enrollments :: k in db.enrollments && r.enrollments[k] == db.enrollments[k]
    ensures forall k | k in db.marks :: k in r.marks <==> db.marks[k].enrollmentId != id
    ensures forall k | k in db.attendance :: k in r.attendance <==> db.attendance[k].enrollmentId != id
    ensures forall k | k in r.marks :: k in db.marks && r.marks[k] == db.marks[k]
    ensures forall k | k in r.attendance :: k in db.attendance && r.attendance[k] == db.attendance[k]
    ensures r.departments == db.departments && r.faculties == db.faculties
    ensures r.courses == db.courses && r.students == db.students
    ensures SameSerials(db, r)
  {
    DeleteEnrollments(db, {id})
  }

  /** Deleting a student deletes its enrollments and, transitively, their
      marks and attendance. */
  function DeleteStudent(db: Db, id: Id): (r: Db)
    ensures Consistent(db) ==> Consistent(r)
    ensures r.students.Keys == db.students.Keys - {id}
    ensures forall k | k in db.enrollments :: k in r.enrollments <==> db.enrollments[k].studentId != id
    ensures Consistent(db) ==> forall k | k in r.marks :: r.marks[k].enrollmentId in r.enrollments
    ensures Consistent(db) ==> forall k | k in r.attendance :: r.attendance[k].enrollmentId in r.enrollments
    ensures forall k | k in r.students :: r.students[k] == db.students[k]
    ensures forall k | k in r.enrollments :: k in db.enrollments && r.enrollments[k] == db.enrollments[k]
    ensures forall k | k in db.marks :: k in r.marks <==>
      !(db.marks[k].enrollmentId in db.enrollments && db.enrollments[db.marks[k].enrollmentId].studentId == id)
    ensures forall k | k in db.attendance :: k in r.attendance <==>
      !(db.attendance[k].enrollmentId in db.enrollments && db.enrollments[db.attendance[k].enrollmentId].studentId == id)
    ensures forall k | k in r.marks :: k in db.marks && r.marks[k] == db.marks[k]
    ensures forall k | k in r.attendance :: k in db.attendance && r.attendance[k] == db.attendance[k]
    ensures r.departments == db.departments && r.faculties == db.faculties && r.courses == db.courses
    ensures SameSerials(db, r)
  {
    var doomed := EnrollmentsOfStudent(db.enrollments, id);
    var cut := DeleteEnrollments(db, doomed);
    cut.(students := cut.students - {id})
  }

  /** Deleting a course deletes its enrollments and, transitively, their
      marks and attendance. */
  function DeleteCourse(db: Db, id: Id): (r: Db)
    ensures Consistent(db) ==> Consistent(r)
    ensures r.courses.Keys == db.courses.Keys - {id}
    ensures forall k | k in db.enrollments :: k in r.enrollments <==> db.enrollments[k].courseId != id
    ensures Consistent(db) ==> forall k | k in r.marks :: r.marks[k].enrollmentId in r.enrollments
    ensures Consistent(db) ==> forall k | k in r.attendance :: r.attendance[k].enrollmentId in r.enrollments
    ensures forall k | k in r.courses :: r.courses[k] == db.courses[k]
    ensures forall k | k in r.enrollments :: k in db.enrollments && r.enrollments[k] == db.enrollments[k]
    ensures forall k | k in db.marks :: k in r.marks <==>
      !(db.marks[k].enrollmentId in db.enrollments && db.enrollments[db.marks[k].enrollmentId].courseId == id)
    ensures forall k | k in db.attendance :: k in r.attendance <==>
      !(db.attendance[k].enrollmentId in db.enrollments && db.enrollments[db.attendance[k].enrollmentId].courseId == id)
    ensures forall k | k in r.marks :: k in db.marks && r.marks[k] == db.marks[k]
    ensures forall k | k in r.attendance :: k in db.attendance && r.attendance[k] == db.attendance[k]
    ensures r.departments == db.departments && r.faculties == db.faculties && r.students == db.students
    ensures SameSerials(db, r)
  {
    var doomed := EnrollmentsOfCourse(db.enrollments, id);
    var cut := DeleteEnrollments(db, doomed);
    cut.(courses := cut.courses - {id})
  }

  /** Marks and attendance rows have no dependents. */
  function DeleteMark(db: Db, id: Id): (r: Db)
    ensures Consistent(db) ==> Consistent(r)
    ensures r.marks.Keys == db.marks.Keys - {id}
    ensures forall k | k in r.marks :: r.marks[k] == db.marks[k]
    ensures r.enrollments == db.enrollments && r.attendance == db.attendance
    ensures r.departments == db.departments && r.faculties == db.faculties
    ensures r.courses == db.courses && r.students == db.students
    ensures SameSerials(db, r)
  {
    db.(marks := db.marks - {id})
  }

  function DeleteAttendance(db: Db, id: Id): (r: Db)
    ensures Consistent(db) ==> Consistent(r)
    ensures r.attendance.Keys == db.attendance.Keys - {id}
    ensures forall k | k in r.attendance :: r.attendance[k] == db.attendance[k]
    ensures r.enrollments == db.enrollments && r.marks == db.marks
    ensures r.departments == db.departments && r.faculties == db.faculties
    ensures r.courses == db.courses && r.students == db.students
    ensures SameSerials(db, r)
  {
    db.(attendance := db.attendance - {id})
  }

  // ---------------------------------------------------------------------
  // Inserts and updates that the database accepts keep the store consistent
  // ---------------------------------------------------------------------

  lemma InsertDepartmentKeepsConsistent(db: Db, d: Department)
    requires Consistent(db) && d.id == db.nextDepartmentId && DepartmentFits(db.departments, d)
    ensures Consistent(db.(departments := db.departments[d.id := d], nextDepartmentId := db.nextDepartmentId + 1))
  {
  }

  lemma UpdateDepartmentKeepsConsistent(db: Db, d: Department)
    requires Consistent(db) && d.id in db.departments && DepartmentFits(db.departments, d)
    ensures Consistent(db.(departments := db.departments[d.id := d]))
  {
  }

  lemma InsertFacultyKeepsConsistent(db: Db, f: Faculty)
    requires Consistent(db) && f.id == db.nextFacultyId && FacultyFits(db.faculties, db.departments, f)
    ensures Consistent(db.(faculties := db.faculties[f.id := f], nextFacultyId := db.nextFacultyId + 1))
  {
  }

  lemma UpdateFacultyKeepsConsistent(db: Db, f: Faculty)
    requires Consistent(db) && f.id in db.faculties && FacultyFits(db.faculties, db.departments, f)
    ensures Consistent(db.(faculties := db.faculties[f.id := f]))
  {
  }

  lemma InsertCourseKeepsConsistent(db: Db, c: Course)
    requires Consistent(db) && c.id == db.nextCourseId && CourseFits(db.courses, db.departments, db.faculties, c)
    ensures Consistent(db.(courses := db.courses[c.id := c], nextCourseId := db.nextCourseId + 1))
  {
  }

  lemma UpdateCourseKeepsConsistent(db: Db, c: Course)
    requires Consistent(db) && c.id in db.courses && CourseFits(db.courses, db.departments, db.faculties, c)
    ensures Consistent(db.(courses := db.courses[c.id := c]))
  {
  }

  lemma InsertStudentKeepsConsistent(db: Db, s: Student)
    requires Consistent(db) && s.id == db.nextStudentId && StudentFits(db.students, db.departments, s)
    ensures Consistent(db.(students := db.students[s.id := s], nextStudentId := db.nextStudentId + 1))
  {
  }

  lemma UpdateStudentKeepsConsistent(db: Db, s: Student)
    requires Consistent(db) && s.id in db.students && StudentFits(db.students, db.departments, s)
    ensures Consistent(db.(students := db.students[s.id := s]))
  {
  }

  /** An enrollment whose tuple is new and whose keys exist. */
  lemma InsertEnrollmentKeepsConsistent(db: Db, e: Enrollment)
    requires Consistent(db) && e.id == db.nextEnrollmentId && EnrollmentFits(db.students, db.courses, e)
    requires forall k | k in db.enrollments :: !SameEnrollment(db.enrollments[k], e.studentId, e.courseId, e.semester, e.year)
    ensures Consistent(db.(enrollments := db.enrollments[e.id := e], nextEnrollmentId := db.nextEnrollmentId + 1))
  {
  }

  /** Changing an enrollment's grade. */
  lemma RegradeKeepsConsistent(db: Db, id: Id, g: Grade, now: Timestamp)
    requires Consistent(db) && id in db.enrollments
    ensures Consistent(db.(enrollments := db.enrollments[id := db.enrollments[id].(grade := Some(g), updatedAt := now)]))
  {
  }

  lemma InsertMarkKeepsConsistent(db: Db, m: Mark)
    requires Consistent(db) && m.id == db.nextMarkId && m.enrollmentId in db.enrollments
    ensures Consistent(db.(marks := db.marks[m.id := m], nextMarkId := db.nextMarkId + 1))
  {
  }

  lemma UpdateMarkKeepsConsistent(db: Db, m: Mark)
    requires Consistent(db) && m.id in db.marks && m.enrollmentId == db.marks[m.id].enrollmentId
    ensures Consistent(db.(marks := db.marks[m.id := m]))
  {
  }

  /** An attendance row for a day its enrollment has no row for yet. */
  lemma InsertAttendanceKeepsConsistent(db: Db, a: Attendance)
    requires Consistent(db) && a.id == db.nextAttendanceId && a.enrollmentId in db.enrollments
    requires forall k | k in db.attendance :: !(db.attendance[k].enrollmentId == a.enrollmentId && db.attendance[k].date == a.date)
    ensures Consistent(db.(attendance := db.attendance[a.id := a], nextAttendanceId := db.nextAttendanceId + 1))
  {
  }

  lemma UpdateAttendanceKeepsConsistent(db: Db, a: Attendance)
    requires Consistent(db) && a.id in db.attendance
    requires a.enrollmentId == db.attendance[a.id].enrollmentId && a.date == db.attendance[a.id].date
    ensures Consistent(db.(attendance := db.attendance[a.id := a]))
  {
  }
}
