/**
 * `ImportExportService` over a data directory held in memory: each export
 * replaces its whole file, each import walks the lines of its file in order and
 * feeds the stores, and a file that does not exist makes its import a no-op.
 */
module ImportExport {
  import opened Wrappers
  import opened JavaString
  import opened Domain
  import opened Services
  import opened LineCodec
  import opened Snapshot
  import opened RoundTrip

  /** The `data` directory: `students.csv`, `courses.csv` and `enrollments.csv`, each present or not. */
  class DataDirectory {
    var students: Option<seq<string>>
    var courses: Option<seq<string>>
    var enrollments: Option<seq<string>>

    constructor (files: DataFiles)
      ensures Files() == files
    {
      students, courses, enrollments := files.students, files.courses, files.enrollments;
    }

    function Files(): DataFiles
      reads this
    {
      DataFiles(students, courses, enrollments)
    }
  }

  class ImportExportService {
    const dir: DataDirectory

    constructor (dir: DataDirectory)
      ensures this.dir == dir
    {
      this.dir := dir;
    }

    /** Replaces `students.csv` with one line per student; the other files stay as they were. */
    method ExportStudents(students: seq<Student>)
      modifies dir
      ensures dir.Files() == old(dir.Files()).(students := Some(StudentLines(students)))
    {
      dir.students := Some(StudentLines(students));
    }

    /** Appends to the store every student `students.csv` yields, in file order. */
    method ImportStudents(ss: StudentService)
      modifies ss
      ensures ss.students == LoadStudents(dir.students, old(ss.students))
    {
      if dir.students.None? {
        return;
      }
      var lines := dir.students.value;
      for i := 0 to |lines|
        invariant ss.students == old(ss.students) + DecodeStudents(lines[..i])
      {
        DecodeStudentsStep(lines, i);
        var s := DecodeStudent(lines[i]);
        if s.Some? {
          AppendAssoc(old(ss.students), DecodeStudents(lines[..i]), [s.value]);
          ss.AddStudent(s.value);
        }
      }
      assert lines[..|lines|] == lines;
    }

    /** Replaces `courses.csv` with one line per course; the other files stay as they were. */
    method ExportCourses(courses: seq<Course>)
      modifies dir
      ensures dir.Files() == old(dir.Files()).(courses := Some(CourseLines(courses)))
    {
      dir.courses := Some(CourseLines(courses));
    }

    /** Appends to the store every course `courses.csv` yields, in file order. */
    method ImportCourses(cs: CourseService)
      modifies cs
      ensures cs.courses == LoadCourses(dir.courses, old(cs.courses))
    {
      if dir.courses.None? {
        return;
      }
      var lines := dir.courses.value;
      for i := 0 to |lines|
        invariant cs.courses == old(cs.courses) + DecodeCourses(lines[..i])
      {
        DecodeCoursesStep(lines, i);
        var c := DecodeCourse(lines[i]);
        if c.Some? {
          AppendAssoc(old(cs.courses), DecodeCourses(lines[..i]), [c.value]);
          cs.AddCourse(c.value);
        }
      }
      assert lines[..|lines|] == lines;
    }

    /** Replaces `enrollments.csv` with one line per enrollment; the other files stay as they were. */
    method ExportEnrollments(students: seq<Student>)
      modifies dir
      ensures dir.Files() == old(dir.Files()).(enrollments := Some(EnrollmentLines(students)))
    {
      dir.enrollments := Some(EnrollmentLines(students));
    }

    /**
     * Replays `enrollments.csv` line by line against the stores: a short line
     * or an unknown identifier skips the line; otherwise the enrollment is
     * attempted, a refusal swallowed, and the grade set unless the field is
     * `NULL`; a bad grade or a missing enrollment abandons only that line.
     */
    method ImportEnrollments(ss: StudentService, cs: CourseService, es: EnrollmentService)
      modifies ss
      ensures ss.students == LoadEnrollments(dir.enrollments, old(ss.students), cs.courses, es.rule)
    {
      if dir.enrollments.None? {
        return;
      }
      var lines := dir.enrollments.value;
      for i := 0 to |lines|
        invariant ss.students == ReplayAll(old(ss.students), cs.courses, es.rule, lines[..i])
      {
        assert lines[..i + 1][..i] == lines[..i];
        ghost var before := ss.students;
        var line := lines[i];
        var parts := Split(line);
        if |parts| < 3 {
          continue;
        }
        var studentOpt := ss.FindStudentByRegNo(parts[0]);
        var courseOpt := cs.FindCourseByCode(parts[1]);
        if studentOpt.Some? && courseOpt.Some? {
          var student, course := studentOpt.value, courseOpt.value;
          ReplayResolvedLine(before, cs.courses, es.rule, line, student, course);
          // a refused enrollment is expected when the pair already exists
          var _ := es.EnrollStudent(ss, student, course);
          if !EqualsIgnoreCase("NULL", parts[2]) {
            var grade := GradeValueOf(parts[2]);
            if grade.Some? {
              var _ := es.AssignGrade(ss, student, course, grade.value);
            }
          }
        }
      }
      assert lines[..|lines|] == lines;
    }

    /** The start-up load: students, then courses, then enrollments, which need both. */
    method LoadAll(ss: StudentService, cs: CourseService, es: EnrollmentService)
      modifies ss, cs
      ensures Store(ss.students, cs.courses) == Load(dir.Files(), Store(old(ss.students), old(cs.courses)), es.rule)
    {
      ImportStudents(ss);
      ImportCourses(cs);
      ImportEnrollments(ss, cs, es);
    }

    /** The exit path: students, courses and enrollments, each file rewritten in full. */
    method SaveAll(ss: StudentService, cs: CourseService)
      modifies dir
      ensures dir.Files() == Save(Store(ss.students, cs.courses))
    {
      ExportStudents(ss.students);
      ExportCourses(cs.courses);
      ExportEnrollments(ss.students);
    }
  }

  /**
   * A session that ends with a save followed by one that starts with a load:
   * the new stores hold the same courses and the same students, enrollments and
   * grades, every student active again.
   */
  method Restart(io: ImportExportService, ss: StudentService, cs: CourseService, es: EnrollmentService)
      returns (ss': StudentService, cs': CourseService)
    requires WellFormed(Store(ss.students, cs.courses), es.rule)
    modifies io.dir
    ensures fresh(ss') && fresh(cs')
    ensures ss'.students == Reactivated(ss.students) && cs'.courses == cs.courses
  {
    io.SaveAll(ss, cs);
    ss' := new StudentService();
    cs' := new CourseService();
    io.LoadAll(ss', cs', es);
    SaveLoad(Store(ss.students, cs.courses), es.rule);
  }
}
