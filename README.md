# School records store — a Dafny model

This project models the data layer of a small school-management web
application and three of its add-forms:

- **The schema** (`lib/schema.ts`). It has seven tables: departments,
  faculties, courses, students, enrollments, marks and attendance. The schema
  also defines the semester and grade enumerations and the constraints the
  database enforces:
  - serial keys;
  - unique department and course codes, and unique faculty and student
    e-mails;
  - `varchar(10)` codes;
  - 32-bit `integer` columns;
  - nullable foreign keys that are set to null when their target is deleted;
  - mandatory foreign keys that cascade.

  A snapshot of all tables is the value `Schema.Db`. `Schema.Consistent` is
  the store's invariant: the schema's constraints plus two uniqueness rules
  that only the application's read-before-write checks maintain. The first
  rule allows one enrollment per student, course and term. The second allows
  one attendance row per enrollment and day. `Schema.SchemaAllowsDuplicates`
  shows that the schema alone does not enforce either rule. The `onDelete`
  rules are written as functions from one snapshot to the next, and each is
  proved to keep the invariant.
- **The server actions** (`lib/actions.ts`). These become the class
  `Actions.RecordStore`, whose field `db` the operations reassign:
  - list queries with their joins and `orderBy` column;
  - add operations that the database may refuse;
  - merge-patch updates, where an undefined field keeps the current column;
  - duplicate-checked enrollment;
  - grading;
  - marks;
  - the look-up-then-update-or-insert of `markAttendance`;
  - the dashboard counts.

  Every state-changing method keeps `Valid()`. It also states the new
  database exactly: the refused cases leave the database unchanged, and the
  accepted cases add or replace exactly one row.
- **The attendance page's aggregation** (`app/attendance/page.tsx`). It
  computes the overall totals and rate. It then groups the records by day in
  a loop (`AttendanceStats.GroupByDate`, proved against the counting
  function `CountOn`) and lists the days newest first. A lemma proves that
  the groups partition the records.
- **The add-course, add-department and add-marks forms.** Each form has:
  - its validation schema, as a list of field errors with the source's
    messages;
  - its default values;
  - the payload it hands to the server action;
  - its submit handler, as a method over the page state (`Forms.PageState`)
    and the store.

  The course form's checkbox toggling is modelled. So is its enrollment of
  each selected student, a loop proved to enroll exactly the selected
  students that exist. The marks form's `parseInt` is modelled as
  JavaScript's algorithm, with NaN as `None`.

Inputs the model cannot see are parameters:

- the clock is the `now` argument of the operations, and `new
  Date().getFullYear()` is an argument of `CourseForm.CourseDefaults`;
- a JavaScript `Date` is its ISO text;
- the attendance records are the argument of the page's computation.

Behaviour worth noting:

- `updateDepartment`, `updateFaculty`, `updateStudent`, `updateCourse`,
  `updateGrade` and `updateMarks` touch no row when the id is unknown. They
  then return nothing, and this is not an error.
- `markAttendance` keeps the stored remarks when none are supplied, because
  an undefined field is left out of the update.
- The marks form accepts an empty selection. `parseInt("")` is NaN, so the
  store then refuses the insert.
- The forms measure text in UTF-16 code units, as JavaScript's `.length`
  does. The database's `varchar(10)` counts characters.

## Model

| member | source | states |
|---|---|---|
| Schema.EmptyDb | lib/schema.ts:10-154 | the freshly created database is consistent, every table is empty and every serial starts at 1 |
| Schema.SchemaAllowsDuplicates | lib/schema.ts:102-154 | some database state satisfies every schema constraint yet holds two identical enrollments and two attendance rows for the same enrollment and day |
| Schema.HasEnrollmentKept | lib/actions.ts:383-394 | a table that keeps every row of another keeps every enrollment it records |
| Schema.ClearFacultyDepartment | lib/schema.ts:32 | after the set-null rule no faculty refers to the department, keys and other columns unchanged |
| Schema.ClearCourseDepartment | lib/schema.ts:56 | after the set-null rule no course refers to the department, keys and other columns unchanged |
| Schema.ClearCourseFaculty | lib/schema.ts:57 | after the set-null rule no course refers to the faculty, keys and other columns unchanged |
| Schema.ClearStudentDepartment | lib/schema.ts:86 | after the set-null rule no student refers to the department, keys and other columns unchanged |
| Schema.ClearFacultyDepartmentKeepsOk | lib/schema.ts:26-38 | the faculties table stays well formed over the departments that remain |
| Schema.ClearCourseDepartmentKeepsOk | lib/schema.ts:50-61 | the courses table stays well formed over the departments that remain |
| Schema.ClearCourseFacultyKeepsOk | lib/schema.ts:50-61 | the courses table stays well formed over the faculties that remain |
| Schema.ClearStudentDepartmentKeepsOk | lib/schema.ts:77-90 | the students table stays well formed over the departments that remain |
| Schema.DeleteDepartment | lib/schema.ts:26-90 | removes the department; a faculty, course or student that referred to it gets a null reference, every other row and column is unchanged; no other table or serial changes; keeps consistency |
| Schema.DeleteFaculty | lib/schema.ts:50-61 | removes the faculty; its courses get a null `facultyId`, every other course and every other table is unchanged, as are the serials; keeps consistency |
| Schema.DeleteEnrollments | lib/schema.ts:126-154 | removes the enrollments and exactly the marks and attendance rows of them; every other row keeps its value; no other table or serial changes; keeps consistency |
| Schema.EnrollmentsOfStudent | lib/schema.ts:104 | the keys of exactly the enrollments of that student |
| Schema.EnrollmentsOfCourse | lib/schema.ts:105 | the keys of exactly the enrollments in that course |
| Schema.DeleteEnrollment | lib/schema.ts:126-154 | removes the enrollment and exactly its marks and attendance rows; every other row keeps its value; no other table or serial changes; keeps consistency |
| Schema.DeleteStudent | lib/schema.ts:102-111 | removes the student, exactly its enrollments, and exactly the marks and attendance of those enrollments; every surviving row keeps its value; the other tables and the serials are unchanged; no dangling reference remains |
| Schema.DeleteCourse | lib/schema.ts:102-111 | removes the course, exactly its enrollments, and exactly the marks and attendance of those enrollments; every surviving row keeps its value; the other tables and the serials are unchanged; no dangling reference remains |
| Schema.DeleteMark | lib/schema.ts:126-135 | removes one mark; the other marks, the other six tables and the serials are unchanged; keeps consistency |
| Schema.DeleteAttendance | lib/schema.ts:146-154 | removes one attendance row; the other rows, the other six tables and the serials are unchanged; keeps consistency |
| Schema.InsertDepartmentKeepsConsistent | lib/schema.ts:10-17 | inserting a department the database accepts (code fits `varchar(10)`, code unique) at the next serial keeps the invariant |
| Schema.UpdateDepartmentKeepsConsistent | lib/schema.ts:10-17 | replacing a department by one the database accepts keeps the invariant |
| Schema.InsertFacultyKeepsConsistent | lib/schema.ts:26-38 | inserting a faculty with a unique e-mail and a valid department keeps the invariant |
| Schema.UpdateFacultyKeepsConsistent | lib/schema.ts:26-38 | replacing a faculty by one the database accepts keeps the invariant |
| Schema.InsertCourseKeepsConsistent | lib/schema.ts:50-61 | inserting a course with a unique short code, 32-bit credits and valid references keeps the invariant |
| Schema.UpdateCourseKeepsConsistent | lib/schema.ts:50-61 | replacing a course by one the database accepts keeps the invariant |
| Schema.InsertStudentKeepsConsistent | lib/schema.ts:77-90 | inserting a student with a unique e-mail and a valid department keeps the invariant |
| Schema.UpdateStudentKeepsConsistent | lib/schema.ts:77-90 | replacing a student by one the database accepts keeps the invariant |
| Schema.InsertEnrollmentKeepsConsistent | lib/schema.ts:102-111 | inserting an enrollment of an existing student and course, for a term not yet recorded, keeps the invariant |
| Schema.RegradeKeepsConsistent | lib/schema.ts:108 | setting an enrollment's grade keeps the invariant |
| Schema.InsertMarkKeepsConsistent | lib/schema.ts:126-135 | inserting a mark of an existing enrollment keeps the invariant |
| Schema.UpdateMarkKeepsConsistent | lib/schema.ts:126-135 | replacing a mark without moving it to another enrollment keeps the invariant |
| Schema.InsertAttendanceKeepsConsistent | lib/schema.ts:146-154 | inserting attendance of an existing enrollment on a day not yet recorded keeps the invariant |
| Schema.UpdateAttendanceKeepsConsistent | lib/schema.ts:146-154 | replacing an attendance row on the same enrollment and day keeps the invariant |
| Ordering.StrLeTotal | lib/actions.ts:36 | any two strings are ordered one way or the other |
| Ordering.StrLeTransitive | lib/actions.ts:36 | the string order is transitive |
| Ordering.StrLeAntisymmetric | lib/actions.ts:36 | two strings ordered both ways are equal |
| Ordering.InOrderTotal | app/attendance/page.tsx:46 | ascending and descending order are total |
| Ordering.InOrderTransitive | app/attendance/page.tsx:46 | ascending and descending order are transitive |
| Ordering.Insert | lib/actions.ts:36 | inserting into a sorted sequence keeps it sorted and adds exactly the one element |
| Ordering.SortBy | lib/actions.ts:36 | the result is sorted by the key and is a permutation of the input |
| Ordering.KeysBelow | lib/actions.ts:99 | the keys of the table below the serial counter, each once, in increasing order |
| Ordering.KeysUnderStep | lib/actions.ts:99 | the key set below n+1 is the key set below n, plus n when n is a key |
| Ordering.KeysBelowCount | lib/actions.ts:99 | the key sequence has as many elements as the key set |
| Ordering.KeysBelowAll | lib/actions.ts:99 | when every key lies below the counter, the sequence lists as many keys as the table has rows |
| Ordering.RowsAt | lib/actions.ts:182 | the rows at the given keys, in that order |
| Ordering.RowsBelow | lib/actions.ts:182 | every row of the table exactly once, and nothing else |
| Ordering.SortedRows | lib/actions.ts:302 | the rows of a table, each once, sorted by the key column |
| Actions.FormatDate | lib/actions.ts:28-30 | the result is the longest prefix of the ISO text without a 'T', so it ends exactly at the first 'T' |
| Actions.FormatDateKeepsDays | lib/actions.ts:28-30 | a day string formats to itself, so formatting is idempotent |
| Actions.FormatOptionalDate | lib/actions.ts:233-237 | an optional date is formatted when present and stays absent otherwise |
| Actions.PatchDepartment | lib/actions.ts:71-77 | each supplied field replaces its column, the others keep their value, `updatedAt` is the current time |
| Actions.PatchFaculty | lib/actions.ts:149-160 | each supplied field replaces its column (the join date formatted), the others keep their value |
| Actions.PatchStudent | lib/actions.ts:260-279 | each supplied field replaces its column (dates formatted), the others keep their value |
| Actions.PatchCourse | lib/actions.ts:349-359 | each supplied field replaces its column, the others keep their value |
| Actions.PatchMark | lib/actions.ts:491-498 | each supplied field replaces its column, the enrollment never changes |
| Actions.PatchesAreIdempotent | lib/actions.ts:65-527 | applying the same patch twice equals applying it once at the later time |
| Actions.Join | lib/actions.ts:298-301 | the referenced department or faculty when the foreign key is set and the row exists, nothing otherwise |
| Actions.EnrolledCourses | lib/actions.ts:190-207 | exactly the enrollments of the student, each paired with its course, each once (in key order when the keys ascend) |
| Actions.FacultyViews | lib/actions.ts:93-105 | each faculty paired with its joined department |
| Actions.ListFaculties | lib/actions.ts:93-105 | every faculty once with its department, ascending by last name |
| Actions.StudentViews | lib/actions.ts:176-188 | each student paired with its joined department |
| Actions.ListStudents | lib/actions.ts:176-188 | every student once with its department, ascending by last name |
| Actions.CourseViews | lib/actions.ts:295-308 | each course paired with its joined department and faculty |
| Actions.ListCourses | lib/actions.ts:295-308 | every course once with its department and faculty, ascending by code |
| Actions.RecordStore.constructor | lib/schema.ts:10-154 | a new store holds the empty, consistent database |
| Actions.RecordStore.GetDepartments | lib/actions.ts:33-42 | every department once, ascending by name |
| Actions.RecordStore.AddDepartment | lib/actions.ts:44-63 | accepted exactly when the code fits `varchar(10)` and is unused; the new row takes the next serial; a refusal changes nothing |
| Actions.RecordStore.UpdateDepartment | lib/actions.ts:65-90 | a missing id yields nothing and changes nothing; otherwise the patched row replaces the old one when the database accepts it, else an error and no change |
| Actions.RecordStore.DeleteDepartment | lib/schema.ts:26-90 | the database after the department's set-null rules |
| Actions.RecordStore.GetFaculties | lib/actions.ts:93-105 | every faculty once with its department, ascending by last name |
| Actions.RecordStore.AddFaculty | lib/actions.ts:107-136 | accepted exactly when the department exists (or is absent) and the e-mail is unused; join date formatted, `isActive` defaults to true |
| Actions.RecordStore.UpdateFaculty | lib/actions.ts:138-173 | a missing id yields nothing; otherwise the patched row replaces the old one when the database accepts it, else an error and no change |
| Actions.RecordStore.DeleteFaculty | lib/schema.ts:50-61 | the database after the faculty's set-null rule |
| Actions.RecordStore.GetStudents | lib/actions.ts:176-188 | every student once with its department, ascending by last name |
| Actions.RecordStore.GetStudentById | lib/actions.ts:190-207 | nothing exactly when no student has that id; otherwise the student, its department and exactly its enrollments with their courses, each enrollment once |
| Actions.RecordStore.AddStudent | lib/actions.ts:209-246 | accepted exactly when the department exists (or is absent) and the e-mail is unused; dates formatted, `isActive` defaults to true |
| Actions.RecordStore.UpdateStudent | lib/actions.ts:248-292 | a missing id yields nothing; otherwise the patched row replaces the old one when the database accepts it, else an error and no change |
| Actions.RecordStore.DeleteStudent | lib/schema.ts:77-111 | the database after the student's cascade |
| Actions.RecordStore.GetCourses | lib/actions.ts:295-308 | every course once with its department and faculty, ascending by code |
| Actions.RecordStore.AddCourse | lib/actions.ts:310-337 | accepted exactly when the code fits and is unused, the credits fit 32 bits and the references exist; `isActive` defaults to true |
| Actions.RecordStore.UpdateCourse | lib/actions.ts:339-372 | a missing id yields nothing; otherwise the patched row replaces the old one when the database accepts it, else an error and no change |
| Actions.RecordStore.DeleteCourse | lib/schema.ts:50-111 | the database after the course's cascade |
| Actions.RecordStore.EnrollStudent | lib/actions.ts:375-411 | a student already enrolled for that course and term is refused; otherwise accepted exactly when student and course exist and the year fits 32 bits, as a new ungraded row |
| Actions.RecordStore.UpdateGrade | lib/actions.ts:413-443 | the enrollment with that id gets the grade; a missing id yields nothing and changes nothing |
| Actions.RecordStore.DeleteEnrollment | lib/schema.ts:102-154 | the database after the enrollment's cascade |
| Actions.RecordStore.AddMarks | lib/actions.ts:446-482 | accepted exactly when the enrollment exists, as a new row at the next serial; a refusal changes nothing |
| Actions.RecordStore.UpdateMarks | lib/actions.ts:484-527 | the patched mark replaces the old one; a missing id yields nothing and changes nothing |
| Actions.RecordStore.DeleteMark | lib/schema.ts:126-135 | the database without that mark |
| Actions.RecordStore.RemarkAttendance | lib/actions.ts:546-557 | the existing row gets the new presence, the supplied remarks (else the old ones) and the new `updatedAt`; nothing else changes |
| Actions.RecordStore.InsertAttendance | lib/actions.ts:558-566 | a new row for that day is inserted exactly when the enrollment exists; a refusal changes nothing |
| Actions.RecordStore.MarkAttendance | lib/actions.ts:530-588 | the row of that enrollment and day is updated when it exists, inserted otherwise; at most one row per enrollment and day remains |
| Actions.RecordStore.DeleteAttendance | lib/schema.ts:146-154 | the database without that attendance row |
| Actions.RecordStore.GetDashboardStats | lib/actions.ts:591-608 | the number of students, faculties, courses and departments |
| AttendanceStats.CountOn | app/attendance/page.tsx:26-36 | a bound only: a day's count never exceeds the records (what the count means is stated by GroupByDate and GroupsPartitionRecords) |
| AttendanceStats.PresentCount | app/attendance/page.tsx:20 | a bound only: the present records never exceed all records (related to the groups by GroupsPartitionRecords) |
| AttendanceStats.AbsentCount | app/attendance/page.tsx:21 | a bound only: the absent records never exceed all records (their value is stated by AbsentIsTotalMinusPresent) |
| AttendanceStats.AbsentIsTotalMinusPresent | app/attendance/page.tsx:19-21 | absent records are the total minus the present ones |
| AttendanceStats.Rate | app/attendance/page.tsx:22 | a percentage in [0, 100]; 0 for no records; 100 exactly when all are present, 0 exactly when none are |
| AttendanceStats.Summarize | app/attendance/page.tsx:19-22 | total, present and absent add up; the rate is the present share of the total as a percentage, 0 with no records, and 100 exactly when nobody was absent |
| AttendanceStats.Dates | app/attendance/page.tsx:26-36 | the days of the records in order of first occurrence |
| AttendanceStats.DatesAreTheRecordsDays | app/attendance/page.tsx:26-36 | a day is listed exactly when some record falls on it, and no day is listed twice |
| AttendanceStats.RecordDayHasGroup | app/attendance/page.tsx:26-36 | every record's day has a group |
| AttendanceStats.GroupsAreNonEmpty | app/attendance/page.tsx:28-30 | every group holds at least one record; a day without a group counts nothing |
| AttendanceStats.PresentWithinGroup | app/attendance/page.tsx:31-34 | a group's present count never exceeds its total |
| AttendanceStats.CountOnExtends | app/attendance/page.tsx:26-36 | one more record adds its day if new and increments that day's counts only |
| AttendanceStats.GroupByDate | app/attendance/page.tsx:26-36 | the loop yields one group per day, in first-occurrence order, holding that day's total and present counts |
| AttendanceStats.EntryOn | app/attendance/page.tsx:39-45 | the listing entry for a day: its counts and a rate in [0, 100] |
| AttendanceStats.DayEntry | app/attendance/page.tsx:39-45 | an entry carries the group's counts and their rate |
| AttendanceStats.DayEntries | app/attendance/page.tsx:39-45 | one entry per grouped day, in the same order |
| AttendanceStats.AttendanceByDate | app/attendance/page.tsx:26-46 | the listing is newest day first, has one entry per day of the records, and each entry is that day's counts |
| AttendanceStats.EntriesAreDays | app/attendance/page.tsx:39-46 | sorting keeps every entry a day's entry |
| AttendanceStats.DaysHaveEntries | app/attendance/page.tsx:39-46 | sorting loses no day |
| AttendanceStats.SumOnSnoc | app/attendance/page.tsx:26-36 | appending a record adds its contribution once per listing of its day |
| AttendanceStats.OccurrencesOfDistinct | app/attendance/page.tsx:26-36 | a day occurs at most once in a list of distinct days |
| AttendanceStats.SumOnAppend | app/attendance/page.tsx:26-36 | adding a day to the list adds that day's count |
| AttendanceStats.GroupsPartitionRecords | app/attendance/page.tsx:19-36 | the group totals add up to the number of records, the present counts to the present records |
| Forms.Utf16Length | app/departments/add/page.tsx:29-36 | the JavaScript length: between the number of characters and twice it, and equal to it on text inside the Basic Multilingual Plane |
| Forms.AstralCharacterCountsTwice | app/departments/add/page.tsx:29-31 | a single emoji has JavaScript length 2 |
| Forms.MinLength | app/departments/add/page.tsx:29-31 | one error with the message exactly when the JavaScript length is below the minimum |
| Forms.MaxLength | app/departments/add/page.tsx:34-36 | one error with the message exactly when the JavaScript length exceeds the maximum |
| Forms.OrEmpty | app/departments/add/page.tsx:59 | a present value is kept, a missing one becomes the empty string |
| Forms.PageState.constructor | app/departments/add/page.tsx:42 | a page starts not submitting and not navigated |
| DepartmentForm.DepartmentFormErrors | app/departments/add/page.tsx:28-38 | no error exactly when the form is valid; each message appears exactly when its rule is broken; the description is never refused |
| DepartmentForm.DepartmentDefaults | app/departments/add/page.tsx:46-50 | empty name, code and description |
| DepartmentForm.DefaultsAreRefused | app/departments/add/page.tsx:28-50 | the untouched form is refused for its name and its code only |
| DepartmentForm.AcceptedCodeFitsColumn | app/departments/add/page.tsx:32-36 | an accepted code (at most 10 UTF-16 units) has at most 10 characters, so it always fits the `varchar(10)` column |
| DepartmentForm.DepartmentPayload | app/departments/add/page.tsx:56-60 | name and code as entered, a description always present, empty when none was entered |
| DepartmentForm.Submit | app/departments/add/page.tsx:53-69 | succeeds exactly when the code is unused; then the row is added and the page goes to the department list while staying in its submitting state; on failure nothing changes and the flag is cleared |
| MarksForm.TrimStart | app/marks/add/page.tsx:92 | drops exactly the leading JavaScript whitespace |
| MarksForm.DigitValue | app/marks/add/page.tsx:92 | a digit's value below 36; the decimal digits are exactly '0' to '9' |
| MarksForm.DigitRun | app/marks/add/page.tsx:92 | the length of the longest leading run of digits in the radix |
| MarksForm.ParseDigits | app/marks/add/page.tsx:92 | NaN exactly when no digit of the radix comes first |
| MarksForm.ParseInt | app/marks/add/page.tsx:92 | a blank string is NaN |
| MarksForm.ParseTrimmed | app/marks/add/page.tsx:92 | the empty string is NaN |
| MarksForm.NatToString | app/marks/add/page.tsx:154 | a non-empty decimal numeral without leading zeros |
| MarksForm.IntToString | app/marks/add/page.tsx:154 | the decimal numeral, with '-' before a negative number |
| MarksForm.ValueOfNatToString | app/marks/add/page.tsx:92 | reading a number's numeral gives the number back |
| MarksForm.DigitRunOfDigits | app/marks/add/page.tsx:92 | the digit run stops exactly where the digits end |
| MarksForm.ParseUnsignedOfDecimal | app/marks/add/page.tsx:92 | a numeral followed by a non-digit reads as its number |
| MarksForm.TrimStartOfNonSpace | app/marks/add/page.tsx:92 | text that starts with a non-space is not trimmed |
| MarksForm.ParseIntToString | app/marks/add/page.tsx:92 | `parseInt` of an integer's decimal numeral gives that integer back |
| MarksForm.ParseIntIgnoresTrailer | app/marks/add/page.tsx:92 | anything after the numeral that is not a digit is ignored |
| MarksForm.ParseIntReadsHex | app/marks/add/page.tsx:92 | a `0x` prefix selects base 16 |
| MarksForm.ParseIntSkipsSpace | app/marks/add/page.tsx:92 | leading whitespace is skipped |
| MarksForm.ParseIntOfEmptyIsNaN | app/marks/add/page.tsx:92 | the empty selection parses to NaN |
| MarksForm.MarksFormErrors | app/marks/add/page.tsx:37-51 | no error exactly when the form is valid; each message appears exactly when its rule is broken |
| MarksForm.MarksDefaults | app/marks/add/page.tsx:79-85 | the enrollment from the query parameter, or the empty string; empty exam type, score 0, maximum 100 |
| MarksForm.DefaultsNeedOnlyAnExamType | app/marks/add/page.tsx:37-85 | the default form becomes valid exactly when an exam type of two or more characters is entered |
| MarksForm.EmptySelectionIsAccepted | app/marks/add/page.tsx:38-40 | a form with no enrollment chosen passes validation, yet its enrollment id parses to NaN |
| MarksForm.ScoreAboveMaximumIsAccepted | app/marks/add/page.tsx:44-49 | a score above the maximum passes validation |
| MarksForm.MarksPayload | app/marks/add/page.tsx:91-97 | the parsed enrollment id and the entered exam type, score, maximum and remarks |
| MarksForm.Submit | app/marks/add/page.tsx:88-104 | succeeds exactly when the enrollment id parses to an existing enrollment; then the mark is added and the page goes to the marks list; otherwise nothing changes and the flag is cleared |
| CourseForm.ParseSemester | lib/schema.ts:6 | a semester exactly for the three enumeration labels |
| CourseForm.SemesterNamesParse | lib/schema.ts:6 | every semester's label parses back to it |
| CourseForm.ParsedSemesterIsItsName | lib/schema.ts:6 | a label that parses is the label of the parsed semester |
| CourseForm.CourseFormErrors | app/courses/add/page.tsx:39-56 | no error exactly when the form is valid; each message appears exactly when its rule is broken |
| CourseForm.TextErrors | app/courses/add/page.tsx:40-49 | the code, name and credits rules, each message exactly when broken |
| CourseForm.TermErrors | app/courses/add/page.tsx:54-55 | the semester and year rules, each message exactly when broken |
| CourseForm.YearErrors | app/courses/add/page.tsx:55 | too small exactly below 2000, too large exactly above 2100 |
| CourseForm.CourseDefaults | app/courses/add/page.tsx:68-77 | empty code, name and description, 3 credits, active, no students, Fall of the current year |
| CourseForm.DefaultsAreRefused | app/courses/add/page.tsx:39-77 | in any year from 2000 to 2100 the untouched form is refused for its code and its name only |
| CourseForm.Without | app/courses/add/page.tsx:352 | the list without the student: every other student kept with its multiplicity |
| CourseForm.WithoutAppend | app/courses/add/page.tsx:352 | the filter distributes over concatenation, so the kept students stay in their order |
| CourseForm.ToggleStudent | app/courses/add/page.tsx:348-353 | checking appends the student, unchecking removes it |
| CourseForm.CheckThenUncheck | app/courses/add/page.tsx:348-353 | checking then unchecking a student restores the selection |
| CourseForm.WithoutLast | app/courses/add/page.tsx:352 | removing a student appended to a list without it restores the list |
| CourseForm.ToggleAffectsOnlyThatStudent | app/courses/add/page.tsx:348-353 | the student is selected exactly when checked, and every other student keeps its state |
| CourseForm.CoursePayload | app/courses/add/page.tsx:106-114 | the entered course fields, with `isActive` always sent |
| CourseForm.EnrollStep | app/courses/add/page.tsx:117-131 | one more enrollment call keeps the loop's progress: earlier rows kept, new rows for this course and term, each existing handled student enrolled |
| CourseForm.EnrollAll | app/courses/add/page.tsx:117-131 | only enrollments change; earlier rows are kept; every new row is an ungraded enrollment of a listed student in this course and term; every listed student that exists ends up enrolled |
| CourseForm.Submit | app/courses/add/page.tsx:102-141 | succeeds exactly when the store accepts the course; then the course is added, the page goes to the course list, and a student is enrolled for the course and term exactly when selected and existing; on failure nothing changes; the flag is always cleared |

## Left out

- The ORM, the Postgres driver, `revalidatePath`, `router.refresh`, the
  console and the JSX rendering are not modelled. Only their effect on the
  data and on the page state is.
- Concurrency is not modelled. The course form's `Promise.all` is modelled
  as a sequential loop. A race between the duplicate check and the insert of
  `enrollStudent` or `markAttendance` would break the uniqueness rules that
  `Schema.Consistent` assumes.
- Sequence values consumed by refused inserts are not modelled. A serial
  advances only when its insert succeeds, so the model's ids are dense where
  Postgres's need not be.
- Serial and `integer` overflow of the id counters is not modelled. The
  32-bit range is checked only on `credits` and `year`.
- `toFixed(1)` rounding is not modelled. Rates are exact reals.
- `toLocaleDateString` and `new Date(...)` are not modelled. The grouping
  key is the stored ISO day, and "newest first" is the descending order of
  that text, which agrees with calendar order on 'YYYY-MM-DD'.
- Actions.RecordStore.AddDepartment: Postgres stores an over-long
  `varchar(10)` value whose excess characters are all spaces by truncating
  it. The model refuses every code longer than 10 characters instead. The
  same applies to Actions.RecordStore.UpdateDepartment.
- Actions.RecordStore.AddCourse: the same trailing-space truncation of the
  course code is not modelled. The model refuses it, and so does
  Actions.RecordStore.UpdateCourse.
- String ordering in `orderBy` uses code-point order, not the database's
  collation.
- `roleEnum` is declared in the schema but used by no table. It is not
  modelled.
- `getAttendance`, `getEnrollments` and `getMarks` are called by the pages
  but are not defined in `lib/actions.ts`, so they are not part of this
  model. The attendance page's computation takes the records as its
  argument.
- Zod's coercion from text is not modelled. `credits` and `year` are taken
  as integers, and `score` and `maxScore` as exact reals.
- MarksForm.ParseInt: does not model the loss of precision above 2^53, nor
  whitespace characters outside the listed set (the Unicode space
  separators other than U+00A0).
- The marks form's loading of enrollments and the `Select` that turns an
  enrollment id into text are not modelled. `MarksForm.IntToString` stands
  for that conversion.
- The attendance-marking page and the edit and detail pages are not part of
  this model.
- Delete operations do not exist in `lib/actions.ts`. The `Delete*`
  members of `Actions.RecordStore` model only the schema's `onDelete` rules.
