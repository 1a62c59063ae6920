/**
 * The records the codec reads and writes: students, courses and the enrollments
 * a student holds, with the `Grade` and `Semester` enumerations.
 */
module Domain {
  import opened Wrappers
  import Dates
  import JavaInt
  import JavaString

  /** Letter grades, in the order of the enum constants. */
  datatype Grade = S | A | B | C | D | E | F

  /** `grade.name()`: the constant's name, a single capital letter. */
  function GradeName(g: Grade): (r: string)
    ensures |r| == 1 && 'A' <= r[0] <= 'Z'
  {
    match g
    case S => "S"
    case A => "A"
    case B => "B"
    case C => "C"
    case D => "D"
    case E => "E"
    case F => "F"
  }

  /** `Grade.valueOf(s)`: exact, case-sensitive match of a constant's name. */
  function GradeValueOf(s: string): (r: Option<Grade>)
    ensures forall g :: r == Some(g) <==> s == GradeName(g)
  {
    if s == "S" then Some(S)
    else if s == "A" then Some(A)
    else if s == "B" then Some(B)
    else if s == "C" then Some(C)
    else if s == "D" then Some(D)
    else if s == "E" then Some(E)
    else if s == "F" then Some(F)
    else None
  }

  datatype Semester = SPRING | SUMMER | FALL

  /** `semester.name()`: the constant's name, capital letters only. */
  function SemesterName(m: Semester): (r: string)
    ensures r != [] && JavaString.CommaFree(r)
  {
    match m
    case SPRING => "SPRING"
    case SUMMER => "SUMMER"
    case FALL => "FALL"
  }

  /** `Semester.valueOf(s)`: exact, case-sensitive match of a constant's name. */
  function SemesterValueOf(s: string): (r: Option<Semester>)
    ensures forall m :: r == Some(m) <==> s == SemesterName(m)
  {
    if s == "SPRING" then Some(SPRING)
    else if s == "SUMMER" then Some(SUMMER)
    else if s == "FALL" then Some(FALL)
    else None
  }

  /** One enrollment of a student: the course it refers to and its grade, if any. */
  datatype Enrollment = Enrollment(course: Course, grade: Option<Grade>)

  /** A student; `enrolledCourses` is in enrollment order. */
  datatype Student = Student(
    fullName: string,
    email: string,
    dateOfBirth: Dates.CalendarDate,
    regNo: string,
    active: bool,
    enrolledCourses: seq<Enrollment>)

  /** `new Student(fullName, email, dob, regNo)`: active, with no enrollments. */
  function NewStudent(fullName: string, email: string, dob: Dates.CalendarDate, regNo: string): (r: Student)
    ensures r.active && r.enrolledCourses == []
    ensures r.fullName == fullName && r.email == email && r.dateOfBirth == dob && r.regNo == regNo
  {
    Student(fullName, email, dob, regNo, true, [])
  }

  datatype Course = Course(
    code: string,
    title: string,
    credits: JavaInt.Int32,
    department: string,
    semester: Semester)
}
