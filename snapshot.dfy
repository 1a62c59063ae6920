/**
 * Whole files as sequences of lines: what each export writes for a list of
 * records, and what each import makes of a file, line by line in file order.
 * A line that does not decode is skipped and never stops the lines after it.
 */
module Snapshot {
  import opened Wrappers
  import opened JavaString
  import opened Domain
  import opened Services
  import opened LineCodec

  // ---- Exports ----

  /** The students file: one line per student, in store order. */
  function StudentLines(students: seq<Student>): (r: seq<string>)
    ensures |r| == |students|
    ensures forall i :: 0 <= i < |students| ==> r[i] == EncodeStudent(students[i])
  {
    seq(|students|, i requires 0 <= i < |students| => EncodeStudent(students[i]))
  }

  /** The courses file: one line per course, in store order. */
  function CourseLines(courses: seq<Course>): (r: seq<string>)
    ensures |r| == |courses|
    ensures forall i :: 0 <= i < |courses| ==> r[i] == EncodeCourse(courses[i])
  {
    seq(|courses|, i requires 0 <= i < |courses| => EncodeCourse(courses[i]))
  }

  /** The lines of one student's enrollments, in enrollment order. */
  function OwnEnrollmentLines(s: Student): (r: seq<string>)
    ensures |r| == |s.enrolledCourses|
    ensures forall k :: 0 <= k < |r| ==> r[k] == EncodeEnrollment(s.regNo, s.enrolledCourses[k])
  {
    seq(|s.enrolledCourses|, k requires 0 <= k < |s.enrolledCourses| => EncodeEnrollment(s.regNo, s.enrolledCourses[k]))
  }

  lemma StudentLinesSnoc(students: seq<Student>)
    requires students != []
    ensures StudentLines(students)
            == StudentLines(students[..|students| - 1]) + [EncodeStudent(students[|students| - 1])]
  {
    var n := |students| - 1;
    var a, b := StudentLines(students), StudentLines(students[..n]) + [EncodeStudent(students[n])];
    forall i | 0 <= i < |a|
      ensures a[i] == b[i]
    {
      if i < n {
        assert students[..n][i] == students[i];
      }
    }
  }

  lemma CourseLinesSnoc(courses: seq<Course>)
    requires courses != []
    ensures CourseLines(courses)
            == CourseLines(courses[..|courses| - 1]) + [EncodeCourse(courses[|courses| - 1])]
  {
    var n := |courses| - 1;
    var a, b := CourseLines(courses), CourseLines(courses[..n]) + [EncodeCourse(courses[n])];
    forall i | 0 <= i < |a|
      ensures a[i] == b[i]
    {
      if i < n {
        assert courses[..n][i] == courses[i];
      }
    }
  }

  /**
   * The enrollments file: every student's enrollment lines, students in store
   * order, one line per enrollment held.
   */
  function EnrollmentLines(students: seq<Student>): (r: seq<string>)
    ensures |r| == EnrollmentCount(students)
  {
    if students == [] then []
    else EnrollmentLines(students[..|students| - 1]) + OwnEnrollmentLines(students[|students| - 1])
  }

  /** The number of enrollments held by all of `students`. */
  function EnrollmentCount(students: seq<Student>): nat
  {
    if students == [] then 0
    else EnrollmentCount(students[..|students| - 1]) + |students[|students| - 1].enrolledCourses|
  }

  /**
   * Export order: one line per enrollment; student `i`'s `k`-th enrollment is
   * written at position `EnrollmentCount(students[..i]) + k`, so lines follow the
   * student order first and each student's enrollment order second.
   */
  lemma {:induction false} EnrollmentLinesOrder(students: seq<Student>, i: nat, k: nat)
    requires i < |students| && k < |students[i].enrolledCourses|
    ensures |EnrollmentLines(students)| == EnrollmentCount(students)
    ensures EnrollmentCount(students[..i]) + k < EnrollmentCount(students)
    ensures EnrollmentLines(students)[EnrollmentCount(students[..i]) + k]
            == EncodeEnrollment(students[i].regNo, students[i].enrolledCourses[k])
    decreases |students|
  {
    var n := |students| - 1;
    var init := students[..n];
    if i < n {
      assert init[..i] == students[..i];
      EnrollmentLinesOrder(init, i, k);
    } else {
      assert students[..i] == init;
    }
  }

  // ---- Student and course imports ----

  /**
   * The students a file yields, in file order; lines that do not decode are
   * skipped, so there are never more students than lines. Each comes in active
   * and without enrollments.
   */
  function DecodeStudents(lines: seq<string>): (r: seq<Student>)
    ensures |r| <= |lines|
    ensures forall k :: 0 <= k < |r| ==> r[k].active && r[k].enrolledCourses == []
  {
    if lines == [] then []
    else
      var init := DecodeStudents(lines[..|lines| - 1]);
      match DecodeStudent(lines[|lines| - 1])
      case None => init
      case Some(s) => init + [s]
  }

  /**
   * The courses a file yields, in file order; lines that do not decode are
   * skipped, so there are never more courses than lines.
   */
  function DecodeCourses(lines: seq<string>): (r: seq<Course>)
    ensures |r| <= |lines|
  {
    if lines == [] then []
    else
      var init := DecodeCourses(lines[..|lines| - 1]);
      match DecodeCourse(lines[|lines| - 1])
      case None => init
      case Some(c) => init + [c]
  }

  lemma AppendAssoc<T>(a: seq<T>, b: seq<T>, c: seq<T>)
    ensures (a + b) + c == a + (b + c)
  {
  }

  /** Reading one more line adds what that line decodes to, if anything. */
  lemma DecodeStudentsStep(lines: seq<string>, i: nat)
    requires i < |lines|
    ensures DecodeStudent(lines[i]).None? ==> DecodeStudents(lines[..i + 1]) == DecodeStudents(lines[..i])
    ensures DecodeStudent(lines[i]).Some? ==>
      DecodeStudents(lines[..i + 1]) == DecodeStudents(lines[..i]) + [DecodeStudent(lines[i]).value]
  {
    assert lines[..i + 1][..i] == lines[..i];
  }

  lemma DecodeCoursesStep(lines: seq<string>, i: nat)
    requires i < |lines|
    ensures DecodeCourse(lines[i]).None? ==> DecodeCourses(lines[..i + 1]) == DecodeCourses(lines[..i])
    ensures DecodeCourse(lines[i]).Some? ==>
      DecodeCourses(lines[..i + 1]) == DecodeCourses(lines[..i]) + [DecodeCourse(lines[i]).value]
  {
    assert lines[..i + 1][..i] == lines[..i];
  }

  /**
   * Per-line tolerance for students: what two pieces of a file yield together
   * is what the first yields followed by what the second yields, so a skipped
   * line changes nothing before or after it.
   */
  lemma {:induction false} DecodeStudentsAppend(a: seq<string>, b: seq<string>)
    ensures DecodeStudents(a + b) == DecodeStudents(a) + DecodeStudents(b)
    decreases |b|
  {
    if b == [] {
      assert a + b == a;
    } else {
      var n := |b| - 1;
      assert (a + b)[..|a + b| - 1] == a + b[..n];
      DecodeStudentsAppend(a, b[..n]);
    }
  }

  /** Per-line tolerance for courses, as for students. */
  lemma {:induction false} DecodeCoursesAppend(a: seq<string>, b: seq<string>)
    ensures DecodeCourses(a + b) == DecodeCourses(a) + DecodeCourses(b)
    decreases |b|
  {
    if b == [] {
      assert a + b == a;
    } else {
      var n := |b| - 1;
      assert (a + b)[..|a + b| - 1] == a + b[..n];
      DecodeCoursesAppend(a, b[..n]);
    }
  }

  /** A one-line file yields its record, or nothing when the line is skipped. */
  lemma DecodeStudentsSingle(line: string, s: Student)
    requires DecodeStudent(line) == Some(s)
    ensures DecodeStudents([line]) == [s]
  {
    assert [line][..0] == [];
  }

  lemma DecodeCoursesSingle(line: string, c: Course)
    requires DecodeCourse(line) == Some(c)
    ensures DecodeCourses([line]) == [c]
  {
    assert [line][..0] == [];
  }

  /** Every student a file yields comes from one of its lines. */
  lemma {:induction false} DecodedStudentsFromLines(lines: seq<string>, s: Student)
    requires s in DecodeStudents(lines)
    ensures exists i :: 0 <= i < |lines| && DecodeStudent(lines[i]) == Some(s)
    decreases |lines|
  {
    var n := |lines| - 1;
    if s in DecodeStudents(lines[..n]) {
      DecodedStudentsFromLines(lines[..n], s);
      var i :| 0 <= i < n && DecodeStudent(lines[..n][i]) == Some(s);
      assert lines[i] == lines[..n][i];
    } else {
      assert DecodeStudent(lines[n]) == Some(s);
    }
  }

  /** Every student can be written and read back: comma-free fields and a non-empty number. */
  predicate AllStudentsWritable(students: seq<Student>) {
    forall i :: 0 <= i < |students| ==> StudentWritable(students[i]) && students[i].regNo != []
  }

  predicate AllCoursesWritable(courses: seq<Course>) {
    forall i :: 0 <= i < |courses| ==> CourseWritable(courses[i])
  }

  /** Students round trip at file level: exporting and importing comma-free students with non-empty numbers. */
  lemma {:induction false} StudentsFileRoundTrip(students: seq<Student>)
    requires AllStudentsWritable(students)
    ensures DecodeStudents(StudentLines(students)) == Fresh(students)
    decreases |students|
  {
    if students != [] {
      var n := |students| - 1;
      var s := students[n];
      var line := EncodeStudent(s);
      StudentLinesSnoc(students);
      StudentsFileRoundTrip(students[..n]);
      assert StudentWritable(s) && s.regNo != [];
      StudentRoundTrip(s);
      DecodeStudentsAppend(StudentLines(students[..n]), [line]);
      DecodeStudentsSingle(line, Fresh(students)[n]);
      FreshSnoc(students);
    }
  }

  /** Courses round trip at file level: exporting and importing comma-free courses gives them back. */
  lemma {:induction false} CoursesFileRoundTrip(courses: seq<Course>)
    requires AllCoursesWritable(courses)
    ensures DecodeCourses(CourseLines(courses)) == courses
    decreases |courses|
  {
    if courses != [] {
      var n := |courses| - 1;
      var line := EncodeCourse(courses[n]);
      CourseLinesSnoc(courses);
      CoursesFileRoundTrip(courses[..n]);
      CourseRoundTrip(courses[n]);
      DecodeCoursesAppend(CourseLines(courses[..n]), [line]);
      DecodeCoursesSingle(line, courses[n]);
      assert courses[..n] + [courses[n]] == courses;
    }
  }

  /** Each student as a freshly imported one: active, without enrollments. */
  function Fresh(students: seq<Student>): (r: seq<Student>)
    ensures |r| == |students|
    ensures forall i :: 0 <= i < |students| ==>
      r[i] == NewStudent(students[i].fullName, students[i].email, students[i].dateOfBirth, students[i].regNo)
  {
    seq(|students|, i requires 0 <= i < |students| =>
      NewStudent(students[i].fullName, students[i].email, students[i].dateOfBirth, students[i].regNo))
  }

  lemma FreshSnoc(students: seq<Student>)
    requires students != []
    ensures Fresh(students) == Fresh(students[..|students| - 1]) + [Fresh(students)[|students| - 1]]
  {
    var n := |students| - 1;
    var f, g := Fresh(students), Fresh(students[..n]) + [Fresh(students)[n]];
    forall j | 0 <= j < |f|
      ensures f[j] == g[j]
    {
      if j < n {
        assert students[..n][j] == students[j];
      }
    }
  }

  // ---- Enrollment import ----

  /** Why a resolved enrollment line was reported: a bad grade name, or no enrollment to grade. */
  datatype ReplayFailure = UnknownGrade | NotEnrolled

  /** What the replay made of one line. */
  datatype LineStatus = Malformed | Unresolved | Applied | Reported(reason: ReplayFailure)

  datatype Replayed = Replayed(students: seq<Student>, status: LineStatus)

  /**
   * One enrollment line replayed against the stores: look up both ends; when
   * both resolve, try to enroll (a refusal is swallowed), then set the grade
   * unless the field is `NULL`. A bad grade name or a missing enrollment is
   * reported after the enrollment attempt has taken effect.
   */
  function ReplayLine(students: seq<Student>, courses: seq<Course>, rule: EnrollRule, line: string): (r: Replayed)
    ensures |r.students| == |students|
    ensures forall j :: 0 <= j < |students| ==> r.students[j].regNo == students[j].regNo
    ensures r.status == Malformed <==> |Split(line)| < 3
    ensures r.status == Malformed || r.status == Unresolved ==> r.students == students
    ensures r.status == Unresolved <==>
      |Split(line)| >= 3 && (FindStudent(students, Split(line)[0]).None? || FindCourse(courses, Split(line)[1]).None?)
  {
    match DecodeEnrollment(line)
    case None => Replayed(students, Malformed)
    case Some(EnrollmentLine(regNo, code, action)) =>
      match (FindStudent(students, regNo), FindCourse(courses, code))
      case (Some(i), Some(c)) =>
        var enrolled := EnrollAt(students, i, c, rule);
        match action {
          case KeepGrade => Replayed(enrolled, Applied)
          case InvalidGrade => Replayed(enrolled, Reported(UnknownGrade))
          case SetGrade(g) =>
            match GradeAt(enrolled, i, c.code, g)
            case None => Replayed(enrolled, Reported(NotEnrolled))
            case Some(graded) => Replayed(graded, Applied)
        }
      case _ => Replayed(students, Unresolved)
  }

  /** The student store after replaying `lines` in file order. */
  function ReplayAll(students: seq<Student>, courses: seq<Course>, rule: EnrollRule, lines: seq<string>): (r: seq<Student>)
    ensures |r| == |students|
    ensures forall j :: 0 <= j < |students| ==> r[j].regNo == students[j].regNo
  {
    if lines == [] then students
    else ReplayLine(ReplayAll(students, courses, rule, lines[..|lines| - 1]), courses, rule, lines[|lines| - 1]).students
  }

  /** Replaying two pieces of a file one after the other is replaying the whole file. */
  lemma {:induction false} ReplayAllAppend(students: seq<Student>, courses: seq<Course>, rule: EnrollRule, a: seq<string>, b: seq<string>)
    ensures ReplayAll(students, courses, rule, a + b) == ReplayAll(ReplayAll(students, courses, rule, a), courses, rule, b)
    decreases |b|
  {
    if b == [] {
      assert a + b == a;
    } else {
      var n := |b| - 1;
      var ab := a + b;
      assert ab[..|ab| - 1] == a + b[..n] && ab[|ab| - 1] == b[n];
      ReplayAllAppend(students, courses, rule, a, b[..n]);
      ReplayAllSnoc(students, courses, rule, ab);
      ReplayAllSnoc(ReplayAll(students, courses, rule, a), courses, rule, b);
    }
  }

  lemma ReplayAllSnoc(students: seq<Student>, courses: seq<Course>, rule: EnrollRule, lines: seq<string>)
    requires lines != []
    ensures ReplayAll(students, courses, rule, lines)
            == ReplayLine(ReplayAll(students, courses, rule, lines[..|lines| - 1]), courses, rule, lines[|lines| - 1]).students
  {
  }


  /**
   * A line replayed with status `Applied` and the `NULL` grade field keeps
   * every grade already held: the enrollment it adds, if any, is ungraded.
   */
  lemma NullLineKeepsGrades(students: seq<Student>, courses: seq<Course>, rule: EnrollRule, line: string, j: nat, k: nat)
    requires |Split(line)| >= 3 && EqualsIgnoreCase("NULL", Split(line)[2])
    requires j < |students| && k < |students[j].enrolledCourses|
    ensures var r := ReplayLine(students, courses, rule, line).students;
      k < |r[j].enrolledCourses| && r[j].enrolledCourses[k] == students[j].enrolledCourses[k]
    ensures var r := ReplayLine(students, courses, rule, line).students;
      forall m :: |students[j].enrolledCourses| <= m < |r[j].enrolledCourses| ==> r[j].enrolledCourses[m].grade.None?
  {
  }

  /**
   * A resolved line with a grade other than `NULL`: the enrollment attempt
   * always takes effect first, and then exactly one of three things happens.
   */
  lemma ResolvedGradeLine(students: seq<Student>, courses: seq<Course>, rule: EnrollRule, line: string, i: nat, c: Course)
    requires |Split(line)| >= 3 && !EqualsIgnoreCase("NULL", Split(line)[2])
    requires FindStudent(students, Split(line)[0]) == Some(i) && FindCourse(courses, Split(line)[1]) == Some(c)
    ensures var r := ReplayLine(students, courses, rule, line);
      var enrolled := EnrollAt(students, i, c, rule);
      && (GradeValueOf(Split(line)[2]).None? ==> r == Replayed(enrolled, Reported(UnknownGrade)))
      && (GradeValueOf(Split(line)[2]).Some? && EnrollmentIndex(enrolled[i].enrolledCourses, c.code).None? ==>
            r == Replayed(enrolled, Reported(NotEnrolled)))
      && (GradeValueOf(Split(line)[2]).Some? && EnrollmentIndex(enrolled[i].enrolledCourses, c.code).Some? ==>
            r == Replayed(GradeAt(enrolled, i, c.code, GradeValueOf(Split(line)[2]).value).value, Applied))
  {
  }

  /** A line whose two identifiers resolve: the enrollment attempt, then the grade field's action. */
  lemma ReplayResolvedLine(students: seq<Student>, courses: seq<Course>, rule: EnrollRule, line: string, i: nat, c: Course)
    requires DecodeEnrollment(line).Some?
    requires FindStudent(students, DecodeEnrollment(line).value.regNo) == Some(i)
    requires FindCourse(courses, DecodeEnrollment(line).value.courseCode) == Some(c)
    ensures var enrolled := EnrollAt(students, i, c, rule);
      ReplayLine(students, courses, rule, line).students ==
        match DecodeEnrollment(line).value.action
        case SetGrade(g) => (match GradeAt(enrolled, i, c.code, g) case None => enrolled case Some(graded) => graded)
        case _ => enrolled
  {
  }
}
