/**
 * The stores and the enrollment engine the codec feeds, reduced to the contract
 * the codec depends on: stores are sequences that `add` appends to and `find`
 * searches for the first record with the identifier; `enroll` either appends an
 * ungraded enrollment or fails with one of the two business-rule errors and
 * changes nothing; `assignGrade` fails when the student holds no enrollment in
 * the course.
 */
module Services {
  import opened Wrappers
  import opened Domain

  /** `DuplicateEnrollmentException` and `MaxCreditLimitExceededException`. */
  datatype EnrollError = DuplicateEnrollment | MaxCreditLimitExceeded

  /**
   * The engine's decision on a new enrollment, given the student's current
   * enrollments and the course; `None` admits it.
   */
  type EnrollRule = (seq<Enrollment>, Course) -> Option<EnrollError>

  /** The position of the first element whose key is `k`: the search every store lookup makes. */
  function FirstIndex<T>(xs: seq<T>, key: T -> string, k: string): (r: Option<nat>)
    ensures r.Some? ==> r.value < |xs| && key(xs[r.value]) == k
    ensures r.Some? ==> forall j :: 0 <= j < r.value ==> key(xs[j]) != k
    ensures r.None? ==> forall j :: 0 <= j < |xs| ==> key(xs[j]) != k
  {
    if xs == [] then None
    else if key(xs[0]) == k then Some(0)
    else match FirstIndex(xs[1..], key, k)
      case None => None
      case Some(i) => Some(i + 1)
  }

  /** `findStudentByRegNo`: the position of the first student with `regNo`. */
  function FindStudent(students: seq<Student>, regNo: string): (r: Option<nat>)
    ensures r.Some? ==> r.value < |students| && students[r.value].regNo == regNo
    ensures r.Some? ==> forall j :: 0 <= j < r.value ==> students[j].regNo != regNo
    ensures r.None? ==> forall j :: 0 <= j < |students| ==> students[j].regNo != regNo
  {
    FirstIndex(students, (s: Student) => s.regNo, regNo)
  }

  /** The position of the first course with `code`. */
  function CourseIndex(courses: seq<Course>, code: string): (r: Option<nat>)
    ensures r.Some? ==> r.value < |courses| && courses[r.value].code == code
    ensures r.Some? ==> forall j :: 0 <= j < r.value ==> courses[j].code != code
    ensures r.None? ==> forall j :: 0 <= j < |courses| ==> courses[j].code != code
  {
    FirstIndex(courses, (c: Course) => c.code, code)
  }

  /** `findCourseByCode`: the first course with `code`, or nothing when no course has it. */
  function FindCourse(courses: seq<Course>, code: string): (r: Option<Course>)
    ensures r.Some? ==> r.value.code == code && r.value in courses
    ensures r.Some? ==> CourseIndex(courses, code).Some? && r.value == courses[CourseIndex(courses, code).value]
    ensures r.None? <==> forall j :: 0 <= j < |courses| ==> courses[j].code != code
  {
    match CourseIndex(courses, code)
    case None => None
    case Some(i) => Some(courses[i])
  }

  /** The position of the first enrollment in the course with `code`. */
  function EnrollmentIndex(es: seq<Enrollment>, code: string): (r: Option<nat>)
    ensures r.Some? ==> r.value < |es| && es[r.value].course.code == code
    ensures r.Some? ==> forall k :: 0 <= k < r.value ==> es[k].course.code != code
    ensures r.None? ==> forall k :: 0 <= k < |es| ==> es[k].course.code != code
  {
    FirstIndex(es, (e: Enrollment) => e.course.code, code)
  }

  /** The first enrollment in a course is the one `EnrollmentIndex` finds. */
  lemma EnrollmentIndexFirst(es: seq<Enrollment>, code: string, k: nat)
    requires k < |es| && es[k].course.code == code
    requires forall m :: 0 <= m < k ==> es[m].course.code != code
    ensures EnrollmentIndex(es, code) == Some(k)
  {
  }

  /** `enrollStudent` on the student at position `i`. */
  function EnrollAt(students: seq<Student>, i: nat, c: Course, rule: EnrollRule): (r: seq<Student>)
    requires i < |students|
    ensures |r| == |students|
    ensures forall j :: 0 <= j < |r| && j != i ==> r[j] == students[j]
    ensures rule(students[i].enrolledCourses, c).Some? ==> r == students
    ensures rule(students[i].enrolledCourses, c).None? ==>
      r[i] == students[i].(enrolledCourses := students[i].enrolledCourses + [Enrollment(c, None)])
  {
    if rule(students[i].enrolledCourses, c).Some? then students
    else students[i := students[i].(enrolledCourses := students[i].enrolledCourses + [Enrollment(c, None)])]
  }

  /**
   * `assignGrade` on the student at position `i`: `None` (NotFound) when the
   * student holds no enrollment in `code`; otherwise the first such enrollment
   * now carries `g`, and nothing else changes.
   */
  function GradeAt(students: seq<Student>, i: nat, code: string, g: Grade): (r: Option<seq<Student>>)
    requires i < |students|
    ensures r.None? <==> EnrollmentIndex(students[i].enrolledCourses, code).None?
    ensures r.Some? ==> |r.value| == |students|
    ensures r.Some? ==> forall j :: 0 <= j < |students| && j != i ==> r.value[j] == students[j]
    ensures r.Some? ==>
      var es, es' := students[i].enrolledCourses, r.value[i].enrolledCourses;
      var k := EnrollmentIndex(es, code).value;
      && r.value[i] == students[i].(enrolledCourses := es')
      && |es'| == |es|
      && es'[k] == es[k].(grade := Some(g))
      && forall m :: 0 <= m < |es| && m != k ==> es'[m] == es[m]
  {
    var es := students[i].enrolledCourses;
    match EnrollmentIndex(es, code)
    case None => None
    case Some(k) => Some(students[i := students[i].(enrolledCourses := es[k := es[k].(grade := Some(g))])])
  }

  /** The student store: every student in insertion order. */
  class StudentService {
    var students: seq<Student>

    constructor ()
      ensures students == []
    {
      students := [];
    }

    method AddStudent(s: Student)
      modifies this
      ensures students == old(students) + [s]
    {
      students := students + [s];
    }

    method FindStudentByRegNo(regNo: string) returns (r: Option<nat>)
      ensures r == FindStudent(students, regNo)
    {
      r := FindStudent(students, regNo);
    }
  }

  /** The course store: every course in insertion order. */
  class CourseService {
    var courses: seq<Course>

    constructor ()
      ensures courses == []
    {
      courses := [];
    }

    method AddCourse(c: Course)
      modifies this
      ensures courses == old(courses) + [c]
    {
      courses := courses + [c];
    }

    method FindCourseByCode(code: string) returns (r: Option<Course>)
      ensures r == FindCourse(courses, code)
    {
      r := FindCourse(courses, code);
    }
  }

  /** The enrollment engine; its business rules are the `rule` it was built with. */
  class EnrollmentService {
    const rule: EnrollRule

    constructor (rule: EnrollRule)
      ensures this.rule == rule
    {
      this.rule := rule;
    }

    /** Enrolls the student at position `i`; a refusal leaves every student as it was. */
    method EnrollStudent(ss: StudentService, i: nat, c: Course) returns (err: Option<EnrollError>)
      requires i < |ss.students|
      modifies ss
      ensures err == rule(old(ss.students)[i].enrolledCourses, c)
      ensures err.Some? ==> ss.students == old(ss.students)
      ensures ss.students == EnrollAt(old(ss.students), i, c, rule)
    {
      err := rule(ss.students[i].enrolledCourses, c);
      ss.students := EnrollAt(ss.students, i, c, rule);
    }

    /** Grades the student at position `i`; `false` (NotFound) leaves every student as it was. */
    method AssignGrade(ss: StudentService, i: nat, c: Course, g: Grade) returns (found: bool)
      requires i < |ss.students|
      modifies ss
      ensures found <==> EnrollmentIndex(old(ss.students)[i].enrolledCourses, c.code).Some?
      ensures found ==> ss.students == GradeAt(old(ss.students), i, c.code, g).value
      ensures !found ==> ss.students == old(ss.students)
    {
      var r := GradeAt(ss.students, i, c.code, g);
      found := r.Some?;
      if found {
        ss.students := r.value;
      }
    }
  }
}
