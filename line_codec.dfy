/**
 * One line per record: the encoders `exportStudents`, `exportCourses` and
 * `exportEnrollments` apply to each record, and the decoders the matching
 * imports apply to each line (`split(",")`, a field-count check, field parsing,
 * then a record or nothing).
 */
module LineCodec {
  import opened Wrappers
  import opened JavaString
  import JavaInt
  import Dates
  import opened Domain

  // ---- Students: fullName,email,dd-MM-yyyy,regNo ----

  /**
   * The line written for a student: its four fields in order, which a split
   * recovers when they hold no comma and the last is not empty; the active flag
   * and the enrollments are not written.
   */
  function EncodeStudent(s: Student): (r: string)
    ensures StudentWritable(s) && s.regNo != [] ==>
      Split(r) == [s.fullName, s.email, Dates.Format(s.dateOfBirth), s.regNo]
  {
    var fs := [s.fullName, s.email, Dates.Format(s.dateOfBirth), s.regNo];
    if StudentWritable(s) && s.regNo != [] then
      assert AllCommaFree(fs);
      SplitJoin(fs);
      Join(fs)
    else Join(fs)
  }

  /**
   * The exact student line: cut at every comma, trailing empty fields included,
   * it is the four fields in order, and `PiecesInjective` makes that the only
   * text with those pieces.
   */
  lemma EncodeStudentPieces(s: Student)
    requires StudentWritable(s)
    ensures Pieces(EncodeStudent(s)) == [s.fullName, s.email, Dates.Format(s.dateOfBirth), s.regNo]
  {
    var fs := [s.fullName, s.email, Dates.Format(s.dateOfBirth), s.regNo];
    assert AllCommaFree(fs);
    PiecesOfJoin(fs);
  }

  /**
   * The student read from a line: fewer than four fields, or a third field
   * that is not a date, gives nothing; fields after the fourth are ignored.
   */
  function DecodeStudent(line: string): (r: Option<Student>)
    ensures |Split(line)| < 4 ==> r.None?
    ensures |Split(line)| >= 4 && Dates.Parse(Split(line)[2]).None? ==> r.None?
    ensures |Split(line)| >= 4 && Dates.Parse(Split(line)[2]).Some? ==> r.Some?
    ensures r.Some? ==> r.value.active && r.value.enrolledCourses == []
    ensures r.Some? ==> Dates.Parse(Split(line)[2]) == Some(r.value.dateOfBirth)
    ensures r.Some? ==> [r.value.fullName, r.value.email, r.value.regNo] == [Split(line)[0], Split(line)[1], Split(line)[3]]
  {
    var parts := Split(line);
    if |parts| < 4 then None
    else match Dates.Parse(parts[2])
      case None => None
      case Some(dob) => Some(NewStudent(parts[0], parts[1], dob, parts[3]))
  }

  /** The three free-text fields of a student hold no delimiter. */
  predicate StudentWritable(s: Student) {
    CommaFree(s.fullName) && CommaFree(s.email) && CommaFree(s.regNo)
  }

  /**
   * Student line round trip: a student whose text fields hold no comma reads
   * back with the same name, email, birth date and registration number, as a
   * fresh active student without enrollments, exactly when its registration
   * number is not empty (an empty one is the dropped trailing field, leaving
   * three fields, and the line is skipped).
   */
  lemma StudentRoundTrip(s: Student)
    requires StudentWritable(s)
    ensures s.regNo != [] ==> DecodeStudent(EncodeStudent(s)) == Some(NewStudent(s.fullName, s.email, s.dateOfBirth, s.regNo))
    ensures s.regNo == [] ==> DecodeStudent(EncodeStudent(s)).None?
    ensures forall b :: EncodeStudent(s.(active := b)) == EncodeStudent(s)
  {
    var dob := Dates.Format(s.dateOfBirth);
    var fs := [s.fullName, s.email, dob, s.regNo];
    assert AllCommaFree(fs);
    Dates.ParseFormat(s.dateOfBirth);
    if s.regNo != [] {
      SplitJoin(fs);
    } else {
      assert dob != [];
      SplitJoin(fs[..3]);
      JoinSnoc(fs[..3], []);
      assert fs[..3] + [[]] == fs;
      var line := EncodeStudent(s);
      assert line == Join(fs[..3]) + [','];
      assert ',' in line by { assert line[|line| - 1] == ','; }
      PiecesOfJoin(fs);
      assert Split(line) == fs[..3];
    }
  }

  // ---- Courses: code,title,credits,department,semesterName ----

  /**
   * The line written for a course: its five fields in order, credits in decimal
   * and the semester by name, which a split recovers when the text fields hold
   * no comma.
   */
  function EncodeCourse(c: Course): (r: string)
    ensures CourseWritable(c) ==>
      Split(r) == [c.code, c.title, JavaInt.ValueOf(c.credits), c.department, SemesterName(c.semester)]
  {
    var credits := JavaInt.ValueOf(c.credits);
    var fs := [c.code, c.title, credits, c.department, SemesterName(c.semester)];
    if CourseWritable(c) then
      assert CommaFree(credits);
      assert AllCommaFree(fs);
      SplitJoin(fs);
      Join(fs)
    else Join(fs)
  }

  /** The exact course line: cut at every comma it is the five fields in order. */
  lemma EncodeCoursePieces(c: Course)
    requires CourseWritable(c)
    ensures Pieces(EncodeCourse(c)) == [c.code, c.title, JavaInt.ValueOf(c.credits), c.department, SemesterName(c.semester)]
  {
    var fs := [c.code, c.title, JavaInt.ValueOf(c.credits), c.department, SemesterName(c.semester)];
    assert AllCommaFree(fs);
    PiecesOfJoin(fs);
  }

  /**
   * The course read from a line: fewer than five fields, credits that
   * `Integer.parseInt` rejects or a semester name `Semester.valueOf` does not
   * know give nothing; fields after the fifth are ignored.
   */
  function DecodeCourse(line: string): (r: Option<Course>)
    ensures |Split(line)| >= 5 && JavaInt.ParseInt(Split(line)[2]).Some? && SemesterValueOf(Split(line)[4]).Some? ==> r.Some?
    ensures |Split(line)| < 5 ==> r.None?
    ensures |Split(line)| >= 5 && JavaInt.ParseInt(Split(line)[2]).None? ==> r.None?
    ensures |Split(line)| >= 5 && SemesterValueOf(Split(line)[4]).None? ==> r.None?
    ensures r.Some? ==> [r.value.code, r.value.title, r.value.department, SemesterName(r.value.semester)]
                        == [Split(line)[0], Split(line)[1], Split(line)[3], Split(line)[4]]
    ensures r.Some? ==> JavaInt.ParseInt(Split(line)[2]) == Some(r.value.credits)
  {
    var parts := Split(line);
    if |parts| < 5 then None
    else match (JavaInt.ParseInt(parts[2]), SemesterValueOf(parts[4]))
      case (Some(credits), Some(semester)) => Some(Course(parts[0], parts[1], credits, parts[3], semester))
      case _ => None
  }

  predicate CourseWritable(c: Course) {
    CommaFree(c.code) && CommaFree(c.title) && CommaFree(c.department)
  }

  /**
   * Course line round trip: credits go through `String.valueOf` and back through
   * `Integer.parseInt`, the semester through `name()` and `valueOf`; the
   * semester name is never empty, so every comma-free course reads back as itself.
   */
  lemma CourseRoundTrip(c: Course)
    requires CourseWritable(c)
    ensures DecodeCourse(EncodeCourse(c)) == Some(c)
  {
    var credits := JavaInt.ValueOf(c.credits);
    var fs := [c.code, c.title, credits, c.department, SemesterName(c.semester)];
    assert CommaFree(credits);
    assert AllCommaFree(fs);
    SplitJoin(fs);
    JavaInt.ParseIntValueOf(c.credits);
  }

  // ---- Enrollments: regNo,courseCode,gradeName or NULL ----

  /**
   * The grade field: the grade's name, or `NULL` for an enrollment without one;
   * never empty, never a comma, and read as `NULL` exactly when there is no grade.
   */
  function GradeField(g: Option<Grade>): (r: string)
    ensures r != [] && CommaFree(r)
    ensures EqualsIgnoreCase("NULL", r) <==> g.None?
    ensures g.None? ==> r == "NULL"
    ensures g.Some? ==> r == GradeName(g.value)
  {
    match g
    case None => "NULL"
    case Some(x) => GradeName(x)
  }

  /**
   * The line written for one enrollment of the student with `regNo`: number,
   * course code and grade field, which a split recovers when the identifiers
   * hold no comma.
   */
  function EncodeEnrollment(regNo: string, e: Enrollment): string
  {
    Join([regNo, e.course.code, GradeField(e.grade)])
  }

  /** An enrollment line splits back into its three fields. */
  lemma EncodeEnrollmentFields(regNo: string, e: Enrollment)
    requires CommaFree(regNo) && CommaFree(e.course.code)
    ensures Split(EncodeEnrollment(regNo, e)) == [regNo, e.course.code, GradeField(e.grade)]
  {
    var fs := [regNo, e.course.code, GradeField(e.grade)];
    assert AllCommaFree(fs);
    SplitJoin(fs);
  }

  /**
   * The exact enrollment line: cut at every comma it is the number, the course
   * code, and the grade's name or `NULL`.
   */
  lemma EncodeEnrollmentPieces(regNo: string, e: Enrollment)
    requires CommaFree(regNo) && CommaFree(e.course.code)
    ensures Pieces(EncodeEnrollment(regNo, e)) == [regNo, e.course.code, if e.grade.None? then "NULL" else GradeName(e.grade.value)]
  {
    var fs := [regNo, e.course.code, GradeField(e.grade)];
    assert AllCommaFree(fs);
    PiecesOfJoin(fs);
  }

  /**
   * What the replay does with a grade field: nothing for `NULL` in any letter
   * case; otherwise `Grade.valueOf`, case-sensitive, which may fail.
   */
  datatype GradeAction = KeepGrade | SetGrade(grade: Grade) | InvalidGrade

  function GradeActionOf(field: string): (r: GradeAction)
    ensures r == KeepGrade <==> EqualsIgnoreCase("NULL", field)
    ensures r.SetGrade? <==> !EqualsIgnoreCase("NULL", field) && GradeValueOf(field).Some?
    ensures r.SetGrade? ==> field == GradeName(r.grade)
  {
    if EqualsIgnoreCase("NULL", field) then KeepGrade
    else match GradeValueOf(field)
      case None => InvalidGrade
      case Some(g) => SetGrade(g)
  }

  /** The three fields the replay uses from an enrollment line. */
  datatype EnrollmentLine = EnrollmentLine(regNo: string, courseCode: string, action: GradeAction)

  /** Fewer than three fields gives nothing; fields after the third are ignored. */
  function DecodeEnrollment(line: string): (r: Option<EnrollmentLine>)
    ensures r.None? <==> |Split(line)| < 3
    ensures r.Some? ==> r.value == EnrollmentLine(Split(line)[0], Split(line)[1], GradeActionOf(Split(line)[2]))
  {
    var parts := Split(line);
    if |parts| < 3 then None
    else Some(EnrollmentLine(parts[0], parts[1], GradeActionOf(parts[2])))
  }

  /** The action the replay takes for a grade as it was written. */
  function ActionFor(g: Option<Grade>): GradeAction
  {
    match g
    case None => KeepGrade
    case Some(x) => SetGrade(x)
  }

  lemma GradeNameNotNull(g: Grade)
    ensures !EqualsIgnoreCase("NULL", GradeName(g))
  {
  }

  /**
   * Enrollment line round trip: with comma-free identifiers the line reads back
   * as the same registration number and course code, a grade as that grade and
   * `NULL` as no grade.
   */
  lemma EnrollmentRoundTrip(regNo: string, e: Enrollment)
    requires CommaFree(regNo) && CommaFree(e.course.code)
    ensures DecodeEnrollment(EncodeEnrollment(regNo, e)) == Some(EnrollmentLine(regNo, e.course.code, ActionFor(e.grade)))
  {
    EncodeEnrollmentFields(regNo, e);
    match e.grade {
      case None =>
        assert EqualsIgnoreCase("NULL", "NULL");
      case Some(g) =>
        GradeNameNotNull(g);
    }
  }
}
