/**
 * The three data files together: saving writes students, courses and
 * enrollments; loading reads them back in that order into the stores, and
 * replaying the enrollment lines rebuilds the student–course graph. For a
 * well-formed store, a save followed by a load into empty stores gives back
 * every student (as active), every course and every enrollment with its grade.
 */
module RoundTrip {
  import opened Wrappers
  import opened JavaString
  import opened Domain
  import opened Services
  import opened LineCodec
  import opened Snapshot

  /** The in-memory state the codec saves and loads: the student and course stores. */
  datatype Store = Store(students: seq<Student>, courses: seq<Course>)

  /** The data directory's three files; `None` is a file that does not exist. */
  datatype DataFiles = DataFiles(students: Option<seq<string>>, courses: Option<seq<string>>, enrollments: Option<seq<string>>)

  /** What the exit path writes: each file replaced by a full snapshot. */
  function Save(st: Store): (r: DataFiles)
    ensures r.students.Some? && r.courses.Some? && r.enrollments.Some?
    ensures |r.students.value| == |st.students| && |r.courses.value| == |st.courses|
  {
    DataFiles(Some(StudentLines(st.students)), Some(CourseLines(st.courses)), Some(EnrollmentLines(st.students)))
  }

  /** The student store after `importStudents`: a missing file adds nothing. */
  function LoadStudents(file: Option<seq<string>>, students: seq<Student>): (r: seq<Student>)
    ensures students <= r
    ensures file.None? ==> r == students
  {
    match file
    case None => students
    case Some(lines) => students + DecodeStudents(lines)
  }

  /** The course store after `importCourses`: a missing file adds nothing. */
  function LoadCourses(file: Option<seq<string>>, courses: seq<Course>): (r: seq<Course>)
    ensures courses <= r
    ensures file.None? ==> r == courses
  {
    match file
    case None => courses
    case Some(lines) => courses + DecodeCourses(lines)
  }

  /** The student store after `importEnrollments`: a missing file changes nothing. */
  function LoadEnrollments(file: Option<seq<string>>, students: seq<Student>, courses: seq<Course>, rule: EnrollRule): (r: seq<Student>)
    ensures |r| == |students|
    ensures file.None? ==> r == students
  {
    match file
    case None => students
    case Some(lines) => ReplayAll(students, courses, rule, lines)
  }

  /** The start-up load: students, then courses, then enrollments against both. */
  function Load(files: DataFiles, st: Store, rule: EnrollRule): (r: Store)
    ensures r.courses == LoadCourses(files.courses, st.courses)
    ensures |r.students| == |LoadStudents(files.students, st.students)|
  {
    var students := LoadStudents(files.students, st.students);
    var courses := LoadCourses(files.courses, st.courses);
    Store(LoadEnrollments(files.enrollments, students, courses, rule), courses)
  }

  // ---- When a store survives a save and a load ----

  predicate UniqueRegNos(students: seq<Student>) {
    forall j, k :: 0 <= j < k < |students| ==> students[j].regNo != students[k].regNo
  }

  predicate UniqueCodes(courses: seq<Course>) {
    forall j, k :: 0 <= j < k < |courses| ==> courses[j].code != courses[k].code
  }

  /** No student holds two enrollments in the same course. */
  predicate NoDuplicateEnrollment(es: seq<Enrollment>) {
    forall j, k :: 0 <= j < k < |es| ==> es[j].course.code != es[k].course.code
  }

  /**
   * The engine admits each enrollment given the ones before it, as they stand:
   * the order in which the replay presents them.
   */
  predicate Replayable(rule: EnrollRule, es: seq<Enrollment>) {
    forall k :: 0 <= k < |es| ==> rule(es[..k], es[k].course).None?
  }

  /**
   * What a save-then-load needs: delimiter-free text fields, non-empty
   * registration numbers, unique identifiers, enrollments that refer to stored
   * courses without duplicates, and an engine that admits them again.
   */
  predicate WellFormed(st: Store, rule: EnrollRule) {
    && UniqueRegNos(st.students)
    && UniqueCodes(st.courses)
    && AllCoursesWritable(st.courses)
    && AllStudentsWritable(st.students)
    && (forall i :: 0 <= i < |st.students| ==> NoDuplicateEnrollment(st.students[i].enrolledCourses))
    && (forall i :: 0 <= i < |st.students| ==> Replayable(rule, st.students[i].enrolledCourses))
    && (forall i, e :: 0 <= i < |st.students| && e in st.students[i].enrolledCourses ==> e.course in st.courses)
  }

  /** Each student as it comes back: the same, except that it is active. */
  function Reactivated(students: seq<Student>): (r: seq<Student>)
    ensures |r| == |students|
    ensures forall i :: 0 <= i < |students| ==> r[i] == students[i].(active := true)
  {
    seq(|students|, i requires 0 <= i < |students| => students[i].(active := true))
  }

  lemma FindStudentUnique(students: seq<Student>, i: nat)
    requires UniqueRegNos(students) && i < |students|
    ensures FindStudent(students, students[i].regNo) == Some(i)
  {
  }

  lemma FindCourseUnique(courses: seq<Course>, c: Course)
    requires UniqueCodes(courses) && c in courses
    ensures FindCourse(courses, c.code) == Some(c)
  {
    var i := CourseIndex(courses, c.code).value;
  }

  /**
   * Replaying the line of enrollment `k` of `es` for the student at `i`, when
   * that student already holds `es[..k]`, makes it hold `es[..k + 1]`.
   */
  lemma ReplayEnrollmentLine(state: seq<Student>, courses: seq<Course>, rule: EnrollRule, i: nat, es: seq<Enrollment>, k: nat)
    requires UniqueRegNos(state) && i < |state| && CommaFree(state[i].regNo)
    requires k < |es| && state[i].enrolledCourses == es[..k]
    requires CommaFree(es[k].course.code) && FindCourse(courses, es[k].course.code) == Some(es[k].course)
    requires rule(es[..k], es[k].course).None?
    requires forall m :: 0 <= m < k ==> es[m].course.code != es[k].course.code
    ensures ReplayLine(state, courses, rule, EncodeEnrollment(state[i].regNo, es[k])).students
            == state[i := state[i].(enrolledCourses := es[..k + 1])]
  {
    var e := es[k];
    EnrollmentRoundTrip(state[i].regNo, e);
    FindStudentUnique(state, i);
    ReplayResolvedLine(state, courses, rule, EncodeEnrollment(state[i].regNo, e), i, e.course);
    EnrollThenGrade(state, rule, i, es, k);
  }

  /**
   * Enrolling the student at `i`, which holds `es[..k]`, in the course of
   * `es[k]` and then grading it as `es[k]` is graded makes it hold `es[..k + 1]`.
   */
  lemma EnrollThenGrade(state: seq<Student>, rule: EnrollRule, i: nat, es: seq<Enrollment>, k: nat)
    requires i < |state| && k < |es| && state[i].enrolledCourses == es[..k]
    requires rule(es[..k], es[k].course).None?
    requires forall m :: 0 <= m < k ==> es[m].course.code != es[k].course.code
    ensures var enrolled := EnrollAt(state, i, es[k].course, rule);
      var target := state[i := state[i].(enrolledCourses := es[..k + 1])];
      match ActionFor(es[k].grade)
      case SetGrade(g) => GradeAt(enrolled, i, es[k].course.code, g) == Some(target)
      case _ => enrolled == target
  {
    var e := es[k];
    var enrolled := EnrollAt(state, i, e.course, rule);
    var own := enrolled[i].enrolledCourses;
    assert own == es[..k] + [Enrollment(e.course, None)];
    assert es[..k + 1] == es[..k] + [e];
    if e.grade.Some? {
      forall m | 0 <= m < k
        ensures own[m].course.code != e.course.code
      {
        assert own[m] == es[m];
      }
      EnrollmentIndexFirst(own, e.course.code, k);
      var graded := GradeAt(enrolled, i, e.course.code, e.grade.value).value;
      var target := state[i := state[i].(enrolledCourses := es[..k + 1])];
      var es' := graded[i].enrolledCourses;
      forall m | 0 <= m < |es'|
        ensures es'[m] == es[..k + 1][m]
      {
        if m < k {
          assert own[m] == es[m];
        }
      }
      assert es' == es[..k + 1];
      forall j | 0 <= j < |state|
        ensures graded[j] == target[j]
      {
      }
      assert graded == target;
    }
  }

  /**
   * What replaying the saved lines of student `s` at position `i` of `state`
   * needs: unique numbers in the store, unique comma-free course codes, and
   * enrollments in stored courses, without duplicates, that the rule admits.
   */
  predicate OwnReplay(state: seq<Student>, courses: seq<Course>, rule: EnrollRule, i: nat, s: Student) {
    && UniqueRegNos(state) && i < |state| && state[i].regNo == s.regNo && CommaFree(s.regNo)
    && UniqueCodes(courses) && (forall c :: 0 <= c < |courses| ==> CommaFree(courses[c].code))
    && (forall e :: e in s.enrolledCourses ==> e.course in courses)
    && NoDuplicateEnrollment(s.enrolledCourses) && Replayable(rule, s.enrolledCourses)
  }

  /**
   * Replaying the first `k` lines of a student's enrollments into a store where
   * that student holds none gives the student exactly its first `k` enrollments.
   */
  lemma {:induction false} ReplayOwnLines(state: seq<Student>, courses: seq<Course>, rule: EnrollRule, i: nat, s: Student, k: nat)
    requires OwnReplay(state, courses, rule, i, s)
    requires state[i].enrolledCourses == [] && k <= |s.enrolledCourses|
    ensures ReplayAll(state, courses, rule, OwnEnrollmentLines(s)[..k])
            == state[i := state[i].(enrolledCourses := s.enrolledCourses[..k])]
    decreases k
  {
    var es := s.enrolledCourses;
    var lines := OwnEnrollmentLines(s);
    if k == 0 {
      assert lines[..0] == [];
      assert state[i := state[i].(enrolledCourses := es[..0])] == state;
    } else {
      ReplayOwnLines(state, courses, rule, i, s, k - 1);
      ReplayOwnLine(state, courses, rule, i, s, k - 1);
    }
  }

  /** The step of `ReplayOwnLines`: one more line, one more enrollment. */
  lemma ReplayOwnLine(state: seq<Student>, courses: seq<Course>, rule: EnrollRule, i: nat, s: Student, j: nat)
    requires OwnReplay(state, courses, rule, i, s) && j < |s.enrolledCourses|
    requires ReplayAll(state, courses, rule, OwnEnrollmentLines(s)[..j])
             == state[i := state[i].(enrolledCourses := s.enrolledCourses[..j])]
    ensures ReplayAll(state, courses, rule, OwnEnrollmentLines(s)[..j + 1])
            == state[i := state[i].(enrolledCourses := s.enrolledCourses[..j + 1])]
  {
    var es := s.enrolledCourses;
    var lines := OwnEnrollmentLines(s);
    var k := j + 1;
    var mid := state[i := state[i].(enrolledCourses := es[..j])];
    var line := EncodeEnrollment(mid[i].regNo, es[j]);
    ReplayAllSnoc(state, courses, rule, lines[..k]);
    assert lines[..k][..j] == lines[..j];
    assert lines[..k][j] == line;
    UpdateKeepsRegNos(state, i, es[..j]);
    assert es[j] in es;
    FindCourseUnique(courses, es[j].course);
    assert CommaFree(courses[CourseIndex(courses, es[j].course.code).value].code);
    ReplayEnrollmentLine(mid, courses, rule, i, es, j);
    UpdateTwice(state, i, es[..j], es[..k]);
  }

  lemma UpdateTwice(state: seq<Student>, i: nat, a: seq<Enrollment>, b: seq<Enrollment>)
    requires i < |state|
    ensures var mid := state[i := state[i].(enrolledCourses := a)];
      mid[i := mid[i].(enrolledCourses := b)] == state[i := state[i].(enrolledCourses := b)]
  {
  }

  /** Changing one student's enrollments keeps registration numbers unique. */
  lemma UpdateKeepsRegNos(state: seq<Student>, i: nat, es: seq<Enrollment>)
    requires UniqueRegNos(state) && i < |state|
    ensures UniqueRegNos(state[i := state[i].(enrolledCourses := es)])
  {
    var next := state[i := state[i].(enrolledCourses := es)];
    forall a, b | 0 <= a < b < |next|
      ensures next[a].regNo != next[b].regNo
    {
      assert next[a].regNo == state[a].regNo && next[b].regNo == state[b].regNo;
    }
  }

  /** The first `i` students restored, the rest as freshly imported. */
  function Partly(students: seq<Student>, i: nat): (r: seq<Student>)
    ensures |r| == |students|
  {
    seq(|students|, j requires 0 <= j < |students| => if j < i then students[j].(active := true) else Fresh(students)[j])
  }

  lemma PartlyStep(students: seq<Student>, i: nat)
    requires i < |students|
    ensures Partly(students, i)[i := Partly(students, i)[i].(enrolledCourses := students[i].enrolledCourses)]
            == Partly(students, i + 1)
  {
  }

  /** Replaying the enrollment lines of the first `i` students restores exactly those students. */
  lemma {:induction false} ReplayStudents(st: Store, rule: EnrollRule, i: nat)
    requires WellFormed(st, rule) && i <= |st.students|
    ensures ReplayAll(Fresh(st.students), st.courses, rule, EnrollmentLines(st.students[..i])) == Partly(st.students, i)
    decreases i
  {
    var students := st.students;
    if i == 0 {
      assert students[..0] == [];
      assert Partly(students, 0) == Fresh(students);
    } else {
      ReplayStudents(st, rule, i - 1);
      ReplayStudent(st, rule, i - 1);
    }
  }

  /** The step of `ReplayStudents`: one more student's lines restore that student. */
  lemma ReplayStudent(st: Store, rule: EnrollRule, j: nat)
    requires WellFormed(st, rule) && j < |st.students|
    requires ReplayAll(Fresh(st.students), st.courses, rule, EnrollmentLines(st.students[..j])) == Partly(st.students, j)
    ensures ReplayAll(Fresh(st.students), st.courses, rule, EnrollmentLines(st.students[..j + 1])) == Partly(st.students, j + 1)
  {
    var students := st.students;
    EnrollmentLinesPrefix(students, j);
    ReplayAllAppend(Fresh(students), st.courses, rule, EnrollmentLines(students[..j]), OwnEnrollmentLines(students[j]));
    WellFormedStudent(st, rule, j);
    ReplayStudentOwn(students, st.courses, rule, j);
  }

  /** The lines of the student at `j`, replayed once the students before it are restored, restore it too. */
  lemma {:induction false} ReplayStudentOwn(students: seq<Student>, courses: seq<Course>, rule: EnrollRule, i: nat)
    requires UniqueRegNos(students) && i < |students| && CommaFree(students[i].regNo)
    requires UniqueCodes(courses) && forall c :: 0 <= c < |courses| ==> CommaFree(courses[c].code)
    requires forall e :: e in students[i].enrolledCourses ==> e.course in courses
    requires NoDuplicateEnrollment(students[i].enrolledCourses) && Replayable(rule, students[i].enrolledCourses)
    ensures ReplayAll(Partly(students, i), courses, rule, OwnEnrollmentLines(students[i])) == Partly(students, i + 1)
  {
    var s := students[i];
    var own := OwnEnrollmentLines(s);
    var mid := Partly(students, i);
    PartlyUnique(students, i);
    PartlyAt(students, i);
    assert own[..|s.enrolledCourses|] == own;
    assert s.enrolledCourses[..|s.enrolledCourses|] == s.enrolledCourses;
    ReplayOwnLines(mid, courses, rule, i, s, |s.enrolledCourses|);
    PartlyStep(students, i);
  }

  /** What a well-formed store promises about the student at `j` and the course store. */
  lemma WellFormedStudent(st: Store, rule: EnrollRule, j: nat)
    requires WellFormed(st, rule) && j < |st.students|
    ensures CommaFree(st.students[j].regNo) && UniqueCodes(st.courses)
    ensures forall c :: 0 <= c < |st.courses| ==> CommaFree(st.courses[c].code)
    ensures forall e :: e in st.students[j].enrolledCourses ==> e.course in st.courses
    ensures NoDuplicateEnrollment(st.students[j].enrolledCourses) && Replayable(rule, st.students[j].enrolledCourses)
  {
  }

  lemma PartlyAt(students: seq<Student>, j: nat)
    requires j < |students|
    ensures Partly(students, j)[j].regNo == students[j].regNo && Partly(students, j)[j].enrolledCourses == []
  {
  }

  lemma EnrollmentLinesPrefix(students: seq<Student>, j: nat)
    requires j < |students|
    ensures EnrollmentLines(students[..j + 1]) == EnrollmentLines(students[..j]) + OwnEnrollmentLines(students[j])
  {
    assert students[..j + 1][..j] == students[..j];
  }

  lemma PartlyUnique(students: seq<Student>, j: nat)
    requires UniqueRegNos(students)
    ensures UniqueRegNos(Partly(students, j))
  {
    var mid := Partly(students, j);
    forall a, b | 0 <= a < b < |mid|
      ensures mid[a].regNo != mid[b].regNo
    {
      assert mid[a].regNo == students[a].regNo && mid[b].regNo == students[b].regNo;
    }
  }

  /**
   * Export-then-import: saving a well-formed store and loading the files into
   * empty stores gives back the same courses, and the same students with the
   * same enrollments and grades in the same order, every student active.
   */
  lemma SaveLoad(st: Store, rule: EnrollRule)
    requires WellFormed(st, rule)
    ensures Load(Save(st), Store([], []), rule) == Store(Reactivated(st.students), st.courses)
  {
    SavedFilesLoad(st);
    assert st.students[..|st.students|] == st.students;
    ReplayStudents(st, rule, |st.students|);
    PartlyAll(st.students);
  }

  /** The students and courses files of a save read back as fresh students and the same courses. */
  lemma SavedFilesLoad(st: Store)
    requires AllStudentsWritable(st.students) && AllCoursesWritable(st.courses)
    ensures LoadStudents(Save(st).students, []) == Fresh(st.students)
    ensures LoadCourses(Save(st).courses, []) == st.courses
  {
    StudentsFileRoundTrip(st.students);
    CoursesFileRoundTrip(st.courses);
  }

  lemma PartlyAll(students: seq<Student>)
    ensures Partly(students, |students|) == Reactivated(students)
  {
  }
}
