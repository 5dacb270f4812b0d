/**
 * The two entities of the record store (sec.py, classes Student and Course).
 * Both are plain values here: the store replaces a student record when it
 * appends to that student's course list.
 */
module Records {
  import opened Wrappers

  /** A student; `courses` holds course NAMES, in the order they were assigned. */
  datatype Student = Student(
    studentId: string,
    name: string,
    age: int,
    rollNo: string,
    grade: string,
    courses: seq<string>)

  datatype Course = Course(courseId: string, courseName: string)

  /**
   * Student.__init__: the course list is optional; an absent or empty
   * argument gives a student with no courses.
   */
  function NewStudent(studentId: string, name: string, age: int, rollNo: string, grade: string,
                      courses: Option<seq<string>>): (s: Student)
    ensures s.studentId == studentId && s.name == name && s.age == age
    ensures s.rollNo == rollNo && s.grade == grade
    ensures s.courses == [] <==> courses == None || courses == Some([])
    ensures courses.Some? ==> s.courses == courses.value
  {
    Student(studentId, name, age, rollNo, grade, if courses.Some? then courses.value else [])
  }

  /** The key every student lookup compares against. */
  function StudentKey(s: Student): string { s.studentId }

  /** The key every course lookup compares against. */
  function CourseKey(c: Course): string { c.courseId }
}
