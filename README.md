# CCRM flat-file persistence, modelled in Dafny

Campus Course & Records Manager keeps its students, courses and enrollments in
memory. Between runs it persists them to three comma-separated files in a `data`
directory:

- `students.csv`: `fullName,email,dd-MM-yyyy,regNo`
- `courses.csv`: `code,title,credits,department,semesterName`
- `enrollments.csv`: `regNo,courseCode,gradeName|NULL`

The application loads students, then courses, then enrollments at start-up, and
writes all three files again on exit. Each enrollment line is replayed through
the enrollment engine. An enrollment the engine refuses (the pair already
exists, the credit ceiling is reached) is swallowed, and the line's grade is
still assigned unless the grade field reads `NULL` in any letter case.

This project models `ImportExportService` and the parts of its collaborators it
relies on:

- `JavaString`: `String.split(",")`, including Java's dropping of trailing empty
  pieces, `String.join(",", …)` and `equalsIgnoreCase`.
- `JavaInt`: `Integer.parseInt` and `String.valueOf` on 32-bit integers.
- `Dates`: the `dd-MM-yyyy` formatter and parser.
- `Domain`: `Grade`, `Semester`, `Student`, `Course` and `Enrollment`.
- `Services`: the student and course stores as classes over sequences, and the
  enrollment engine with its business rule abstracted to a function value.
- `LineCodec`: one record to one line and back.
- `Snapshot`: whole files. This covers what each export writes, and what each
  import keeps or skips, line by line.
- `RoundTrip`: the three files together, with the save-then-load theorem.
- `ImportExport`: the service itself as a class. Its export methods replace a
  file. Its import methods loop over the lines of a file, and each loop is
  proved against the file-level functions. `LoadAll`/`SaveAll` are the start-up
  and exit sequences.

The main results:

- Per-record round trips for students, courses and enrollments.
- Per-line tolerance. A line that does not decode is skipped and never affects
  the lines around it.
- The exact replay semantics of an enrollment line.
- The enrollment export order.
- `RoundTrip.SaveLoad`. For a well-formed store, saving and then loading into
  empty stores gives back every course and every student with the same
  enrollments and grades. Every student comes back active, because the active
  flag is not written.

## Model

| member | source | states |
|---|---|---|
| JavaString.Split | src/edu/ccrm/io/ImportExportService.java:52 | `split(",")` yields comma-free pieces; with a comma present no trailing piece is empty; without one the result is the whole line as its only piece |
| JavaString.Join | src/edu/ccrm/io/ImportExportService.java:32-37 | `String.join(",", …)` of no fields is empty; otherwise the line starts with the first field, and a comma follows it when there is a second |
| JavaString.SplitJoin | src/edu/ccrm/io/ImportExportService.java:32-37 | splitting a join of comma-free fields whose last field is non-empty gives back exactly those fields |
| JavaString.JoinSplit | src/edu/ccrm/io/ImportExportService.java:52 | re-joining the pieces of a line gives the line minus some trailing commas, and only commas are lost |
| JavaString.PiecesOfJoin | src/edu/ccrm/io/ImportExportService.java:130-133 | cutting a join of comma-free fields at every comma, before trailing pieces are dropped, gives the fields back |
| JavaString.PiecesInjective | src/edu/ccrm/io/ImportExportService.java:32-37 | two lines with the same comma-separated pieces, trailing empty ones included, are the same text, so the pieces of a written line fix it exactly |
| JavaString.EqualsIgnoreCase | src/edu/ccrm/io/ImportExportService.java:165 | equal texts compare equal; a match has equal lengths; against an upper-case text the comparison holds exactly when upper-casing the other text gives it |
| JavaInt.ValueOf | src/edu/ccrm/io/ImportExportService.java:82 | `String.valueOf` on credits is non-empty and made only of digits and a minus sign, so never holds the delimiter |
| JavaInt.ParseInt | src/edu/ccrm/io/ImportExportService.java:105 | `Integer.parseInt` succeeds if and only if the text is an optional sign followed by at least one digit and its signed value lies in the 32-bit range; the result is that signed value |
| JavaInt.ParseIntValueOf | src/edu/ccrm/io/ImportExportService.java:82-105 | credits written by `String.valueOf` are read back by `Integer.parseInt` as the same 32-bit value, negatives included |
| JavaInt.ParseIntOverflow | src/edu/ccrm/io/ImportExportService.java:105 | a decimal above 2147483647, or a negative one below -2147483648, is rejected rather than wrapped |
| Dates.Format | src/edu/ccrm/io/ImportExportService.java:24-36 | a formatted date is ten characters `dd-MM-yyyy`: digits with dashes at positions 2 and 5, and no comma |
| Dates.Parse | src/edu/ccrm/io/ImportExportService.java:59 | the parse fails if and only if the text lacks the `dd-MM-yyyy` shape or its day, month or year field is out of range (day 1 to 31, month 1 to 12, year at least 1); otherwise month and year are the fields read and the day is the smaller of the day field and the month's length |
| Dates.ParseFormat | src/edu/ccrm/io/ImportExportService.java:36-59 | every date the formatter writes parses back to that same date |
| Dates.FormatParse | src/edu/ccrm/io/ImportExportService.java:59 | a parsed text formats back to itself exactly when its day field does not exceed the month's length |
| Domain.GradeName | src/edu/ccrm/io/ImportExportService.java:129 | a grade's name is a single capital letter |
| Domain.SemesterName | src/edu/ccrm/io/ImportExportService.java:84 | a semester's name is non-empty and holds no comma |
| Domain.NewStudent | src/edu/ccrm/io/ImportExportService.java:60 | `new Student(…)` keeps the four given fields, is active and has no enrollments |
| Domain.GradeValueOf | src/edu/ccrm/io/ImportExportService.java:166 | `Grade.valueOf` is case-sensitive: it yields grade g if and only if the text is g's name |
| Domain.SemesterValueOf | src/edu/ccrm/io/ImportExportService.java:107 | `Semester.valueOf` yields m if and only if the text is m's name |
| Services.FirstIndex | src/edu/ccrm/io/ImportExportService.java:154-155 | the shared lookup: the position found holds the key, no earlier position does, and nothing is found exactly when no position holds it |
| Services.FindStudent | src/edu/ccrm/io/ImportExportService.java:154 | `findStudentByRegNo` finds the first student with the number, or reports that none has it |
| Services.FindCourse | src/edu/ccrm/io/ImportExportService.java:155 | `findCourseByCode` yields the first stored course with the code, or nothing exactly when no course has it |
| Services.EnrollAt | src/edu/ccrm/io/ImportExportService.java:160 | `enrollStudent` either appends an ungraded enrollment to that one student or, when the rule refuses, changes nothing |
| Services.GradeAt | src/edu/ccrm/io/ImportExportService.java:166 | `assignGrade` fails exactly when the student holds no enrollment in the course; otherwise only the first such enrollment gets the grade |
| Services.StudentService.AddStudent | src/edu/ccrm/io/ImportExportService.java:67 | `addStudent` appends the student to the store |
| Services.StudentService.FindStudentByRegNo | src/edu/ccrm/io/ImportExportService.java:154 | the store's lookup is the first-match search `FindStudent` |
| Services.CourseService.AddCourse | src/edu/ccrm/io/ImportExportService.java:115 | `addCourse` appends the course to the store |
| Services.CourseService.FindCourseByCode | src/edu/ccrm/io/ImportExportService.java:155 | the store's lookup is the first-match search `FindCourse` |
| Services.EnrollmentService.EnrollStudent | src/edu/ccrm/io/ImportExportService.java:159-163 | the error returned is the rule's verdict; a refusal leaves every student unchanged, an acceptance adds one ungraded enrollment |
| Services.EnrollmentService.AssignGrade | src/edu/ccrm/io/ImportExportService.java:165-167 | reports NotFound exactly when there is no enrollment to grade, and then changes nothing |
| LineCodec.EncodeStudent | src/edu/ccrm/io/ImportExportService.java:31-37 | a comma-free student with a non-empty number writes a line that `split(",")` reads as name, email, formatted birth date and number |
| LineCodec.EncodeStudentPieces | src/edu/ccrm/io/ImportExportService.java:31-37 | the student line is exactly `fullName,email,dd-MM-yyyy,regNo`: cut at every comma it is those four fields, an empty number included; with `JavaString.PiecesInjective` no other text has those pieces |
| LineCodec.DecodeStudent | src/edu/ccrm/io/ImportExportService.java:51-64 | a line decodes if and only if it splits into at least four fields and field 2 parses as a date; a decoded student is active, has no enrollments, and carries fields 0, 1 and 3 and that date |
| LineCodec.StudentRoundTrip | src/edu/ccrm/io/ImportExportService.java:31-60 | a comma-free student reads back as a fresh student with the same name, email, birth date and number when its number is non-empty; otherwise the line is skipped; the active flag is never written |
| LineCodec.EncodeCourse | src/edu/ccrm/io/ImportExportService.java:78-84 | a course with comma-free text fields writes a line that `split(",")` reads as code, title, credits as `String.valueOf`, department and semester name |
| LineCodec.EncodeCoursePieces | src/edu/ccrm/io/ImportExportService.java:78-84 | the course line is exactly `code,title,credits,department,semesterName`: cut at every comma it is those five fields; with `JavaString.PiecesInjective` no other text has those pieces |
| LineCodec.DecodeCourse | src/edu/ccrm/io/ImportExportService.java:97-112 | a line decodes if and only if it splits into at least five fields, field 2 parses as an `int` and field 4 names a semester; a decoded course carries the five fields |
| LineCodec.CourseRoundTrip | src/edu/ccrm/io/ImportExportService.java:78-108 | every course with comma-free text fields reads back as itself |
| LineCodec.GradeActionOf | src/edu/ccrm/io/ImportExportService.java:165-166 | `NULL` in any case keeps the grade; otherwise the grade is set if and only if `valueOf` knows the name, and that grade is the one named |
| LineCodec.GradeField | src/edu/ccrm/io/ImportExportService.java:129 | the grade field is exactly `NULL` when there is no grade and the grade's name otherwise; it is non-empty and comma-free, and reads as `NULL` in any letter case if and only if there is no grade |
| LineCodec.EncodeEnrollmentFields | src/edu/ccrm/io/ImportExportService.java:129-133 | an enrollment line with comma-free identifiers is read by `split(",")` as number, course code and grade field |
| LineCodec.EncodeEnrollmentPieces | src/edu/ccrm/io/ImportExportService.java:129-133 | the enrollment line is exactly `regNo,courseCode,grade`, the grade being its name or `NULL`: cut at every comma it is those three fields; with `JavaString.PiecesInjective` no other text has those pieces |
| LineCodec.DecodeEnrollment | src/edu/ccrm/io/ImportExportService.java:148-152 | an enrollment line is malformed exactly when it has fewer than three fields; otherwise its first three fields decide the replay |
| LineCodec.GradeNameNotNull | src/edu/ccrm/io/ImportExportService.java:129-165 | no grade's name equals `NULL` in any letter case, so a written grade is never mistaken for no grade |
| LineCodec.EnrollmentRoundTrip | src/edu/ccrm/io/ImportExportService.java:129-166 | an enrollment line reads back as the same number and course code; a grade reads back as that grade and `NULL` as keeping none |
| Snapshot.StudentLines | src/edu/ccrm/io/ImportExportService.java:31-38 | the students file has one line per student, in store order |
| Snapshot.CourseLines | src/edu/ccrm/io/ImportExportService.java:78-85 | the courses file has one line per course, in store order |
| Snapshot.OwnEnrollmentLines | src/edu/ccrm/io/ImportExportService.java:127-134 | a student contributes one line per enrollment, in enrollment order |
| Snapshot.EnrollmentLines | src/edu/ccrm/io/ImportExportService.java:126-135 | the enrollments file has exactly one line per enrollment held by any student |
| Snapshot.EnrollmentLinesOrder | src/edu/ccrm/io/ImportExportService.java:126-135 | the enrollments file has one line per enrollment; student i's k-th enrollment is at position (enrollments of earlier students) + k |
| Snapshot.DecodeStudents | src/edu/ccrm/io/ImportExportService.java:51-67 | importing a students file yields no more students than lines, each active and without enrollments |
| Snapshot.DecodeCourses | src/edu/ccrm/io/ImportExportService.java:97-115 | importing a courses file yields no more courses than lines |
| Snapshot.DecodeStudentsAppend | src/edu/ccrm/io/ImportExportService.java:51-67 | per-line tolerance: two pieces of a students file yield what each piece yields, in order |
| Snapshot.DecodeCoursesAppend | src/edu/ccrm/io/ImportExportService.java:97-115 | per-line tolerance: two pieces of a courses file yield what each piece yields, in order |
| Snapshot.DecodeStudentsSingle | src/edu/ccrm/io/ImportExportService.java:66-67 | a line that decodes adds exactly its student |
| Snapshot.DecodedStudentsFromLines | src/edu/ccrm/io/ImportExportService.java:51-67 | every imported student comes from some line of the file that decodes to it |
| Snapshot.StudentsFileRoundTrip | src/edu/ccrm/io/ImportExportService.java:27-67 | exporting comma-free students with non-empty numbers and importing the file gives them back, each active and without enrollments |
| Snapshot.CoursesFileRoundTrip | src/edu/ccrm/io/ImportExportService.java:74-115 | exporting comma-free courses and importing the file gives back exactly those courses |
| Snapshot.Fresh | src/edu/ccrm/io/ImportExportService.java:60 | each student as the import constructs it: the same four written fields, active, with no enrollments |
| Snapshot.ReplayLine | src/edu/ccrm/io/ImportExportService.java:147-173 | a line is malformed exactly when it has fewer than three fields and unresolved exactly when a lookup fails; both leave the store unchanged; no line changes any registration number |
| Snapshot.ReplayAll | src/edu/ccrm/io/ImportExportService.java:146-174 | replaying a file keeps the number of students and their registration numbers |
| Snapshot.ReplayAllAppend | src/edu/ccrm/io/ImportExportService.java:147-174 | per-line tolerance: replaying two pieces one after the other is replaying the whole file |
| Snapshot.NullLineKeepsGrades | src/edu/ccrm/io/ImportExportService.java:158-167 | a `NULL` line changes no existing enrollment and adds only ungraded ones |
| Snapshot.ResolvedGradeLine | src/edu/ccrm/io/ImportExportService.java:157-170 | with both ids resolved and a non-`NULL` grade, the enrollment attempt always takes effect; then an unknown grade or a missing enrollment is reported, or the grade is set |
| RoundTrip.Save | src/edu/ccrm/cli/Main.java:60-62 | the exit path writes all three files; they hold one line per student and one line per course |
| RoundTrip.LoadStudents | src/edu/ccrm/io/ImportExportService.java:45-49 | importing students only appends to the store; a missing file adds nothing |
| RoundTrip.LoadCourses | src/edu/ccrm/io/ImportExportService.java:92-94 | importing courses only appends to the store; a missing file adds nothing |
| RoundTrip.LoadEnrollments | src/edu/ccrm/io/ImportExportService.java:142-144 | importing enrollments never adds or removes students; a missing file changes nothing |
| RoundTrip.Load | src/edu/ccrm/cli/Main.java:33-36 | the start-up load's courses are the courses import's result, and enrollments only touch the students already imported |
| RoundTrip.Reactivated | src/edu/ccrm/io/ImportExportService.java:60 | each student as it comes back from a save and load: unchanged except that it is active |
| RoundTrip.FindStudentUnique | src/edu/ccrm/io/ImportExportService.java:154 | with unique registration numbers the lookup finds exactly the student with that number |
| RoundTrip.FindCourseUnique | src/edu/ccrm/io/ImportExportService.java:155 | with unique codes the lookup finds exactly the stored course |
| RoundTrip.EnrollThenGrade | src/edu/ccrm/io/ImportExportService.java:158-167 | enrolling a student in its next saved course and then assigning the saved grade restores that enrollment exactly |
| RoundTrip.ReplayEnrollmentLine | src/edu/ccrm/io/ImportExportService.java:147-170 | replaying a saved enrollment line appends that enrollment, with its grade, to its student |
| RoundTrip.ReplayOwnLines | src/edu/ccrm/io/ImportExportService.java:127-170 | replaying a student's first k saved lines gives it exactly its first k enrollments |
| RoundTrip.ReplayStudents | src/edu/ccrm/io/ImportExportService.java:126-174 | replaying the lines of the first i students restores those students and leaves the rest as freshly imported |
| RoundTrip.SaveLoad | src/edu/ccrm/cli/Main.java:33-62 | for a well-formed store, save then load into empty stores gives back every course and every student with its enrollments and grades, each active |
| ImportExport.ImportExportService.ExportStudents | src/edu/ccrm/io/ImportExportService.java:27-43 | `students.csv` is replaced by the students' lines; the other files are untouched |
| ImportExport.ImportExportService.ImportStudents | src/edu/ccrm/io/ImportExportService.java:45-71 | the store gains, in file order, every student a line decodes to; a missing file is a no-op |
| ImportExport.ImportExportService.ExportCourses | src/edu/ccrm/io/ImportExportService.java:74-90 | `courses.csv` is replaced by the courses' lines; the other files are untouched |
| ImportExport.ImportExportService.ImportCourses | src/edu/ccrm/io/ImportExportService.java:92-119 | the store gains, in file order, every course a line decodes to; a missing file is a no-op |
| ImportExport.ImportExportService.ExportEnrollments | src/edu/ccrm/io/ImportExportService.java:122-140 | `enrollments.csv` is replaced by every student's enrollment lines; the other files are untouched |
| ImportExport.ImportExportService.ImportEnrollments | src/edu/ccrm/io/ImportExportService.java:142-178 | the student store becomes the line-by-line replay of the file against the course store and the engine |
| ImportExport.ImportExportService.LoadAll | src/edu/ccrm/cli/Main.java:33-36 | students, then courses, then enrollments: the stores become the start-up load of the directory |
| ImportExport.ImportExportService.SaveAll | src/edu/ccrm/cli/Main.java:60-62 | the directory becomes the full save of both stores |
| ImportExport.Restart | src/edu/ccrm/cli/Main.java:33-62 | an exit save followed by a start-up load into new stores gives the same courses and the same students, each active |

## Left out

- File-system calls and diagnostics are out of scope: `Files.exists`, `createDirectories`, `Files.write`, `Files.lines`, the `IOException` handlers and the `System.err` messages. A file is a sequence of lines that an export replaces wholesale, and `None` is a file that does not exist.
- Line breaks inside a field are not modelled. A field that holds a newline would split into two lines on reading, but files here are sequences of lines.
- Fields that contain a comma are not escaped by the source. The round-trip lemmas require comma-free text fields, and a line with extra commas is decoded as the shifted fields it yields.
- JavaInt.ParseInt: accepts ASCII digits only. `Integer.parseInt` also accepts other Unicode decimal digits, which `String.valueOf` never writes.
- Dates.Parse: models the `dd-MM-yyyy` pattern as exactly ten characters with years 1 to 9999. The day is clamped to the month's length, as the default resolver does. Other `DateTimeFormatter` behaviour (wider years, signs, other calendar checks) is library behaviour and is not modelled.
- JavaString.EqualsIgnoreCase: folds ASCII letters only. This is exact for the comparison with `NULL`.
- `Course.Builder` validation and defaults are not visible and are taken to accept every decoded course. The `Semester` constants are taken as `SPRING`, `SUMMER` and `FALL`.
- The `Student` constructor is not visible. A decoded student is active and has no enrollments, and the constructor is taken to accept every decoded student.
- The enrollment engine's duplicate and credit-limit rules are not visible. They are the `rule` parameter, and the save-then-load theorem requires that the rule admit each saved enrollment given the ones before it.
- Services.GradeAt: `assignGrade` is not visible. It is taken to grade the first enrollment the student holds in the course and to fail when there is none. The save-then-load theorem requires each student's enrollments to be in distinct courses, so it does not depend on this choice.
- Object identity is not modelled. An enrollment holds its course by value, and a student is addressed by its position in the store.
- `DuplicateEnrollmentException` and `MaxCreditLimitExceededException` carry only a message. They become the variants of `Services.EnrollError`.
- The CLI menus, the unenroll menu item (it only prints a message), backup and directory-size reporting are out of scope. Of `Main` only the load order and the save order are modelled.
