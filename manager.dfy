/**
 * StudentManager (sec.py:27-167): the in-memory record store and its two
 * backing files. Every mutation writes the whole affected list back to its
 * file before returning, so after a successful add, delete or assignment the
 * file holds exactly the rows of the list in memory.
 */
module Manager {
  import opened Wrappers
  import opened Records
  import opened Codec
  import opened Lookup

  class StudentManager {
    /** The students in memory, in insertion order; ids may repeat. */
    var students: seq<Student>
    /** The courses in memory, in insertion order; ids may repeat. */
    var courses: seq<Course>
    /** The data rows of students.csv, or None while that file does not exist. */
    var studentsFile: Option<seq<StudentRow>>
    /** The data rows of courses.csv, or None while that file does not exist. */
    var coursesFile: Option<seq<Course>>

    /** A store with both lists empty, over whatever the two files hold at start-up. */
    constructor(studentsOnDisk: Option<seq<StudentRow>>, coursesOnDisk: Option<seq<Course>>)
      ensures students == [] && courses == []
      ensures studentsFile == studentsOnDisk && coursesFile == coursesOnDisk
    {
      students := [];
      courses := [];
      studentsFile := studentsOnDisk;
      coursesFile := coursesOnDisk;
    }

    /**
     * Appends one student per row of students.csv, in row order, after the
     * students already in memory; a missing file adds nothing.
     */
    method LoadStudents() returns (fileFound: bool)
      modifies this`students
      ensures fileFound == studentsFile.Some?
      ensures students == old(students) + (if fileFound then DecodeRows(studentsFile.value) else [])
    {
      if studentsFile.None? {
        return false;
      }
      var rows := studentsFile.value;
      for k := 0 to |rows|
        invariant students == old(students) + DecodeRows(rows[..k])
      {
        assert DecodeRows(rows[..k + 1]) == DecodeRows(rows[..k]) + [DecodeStudent(rows[k])];
        students := students + [DecodeStudent(rows[k])];
      }
      assert rows[..|rows|] == rows;
      return true;
    }

    /**
     * Appends one course per row of courses.csv, in row order, after the
     * courses already in memory; a missing file adds nothing.
     */
    method LoadCourses() returns (fileFound: bool)
      modifies this`courses
      ensures fileFound == coursesFile.Some?
      ensures courses == old(courses) + (if fileFound then coursesFile.value else [])
    {
      if coursesFile.None? {
        return false;
      }
      var rows := coursesFile.value;
      for k := 0 to |rows|
        invariant courses == old(courses) + rows[..k]
      {
        assert rows[..k + 1] == rows[..k] + [rows[k]];
        courses := courses + [Course(rows[k].courseId, rows[k].courseName)];
      }
      assert rows[..|rows|] == rows;
      return true;
    }

    /** Overwrites students.csv with one row per student in memory, in order. */
    method SaveStudents()
      modifies this`studentsFile
      ensures studentsFile == Some(EncodeRows(students))
    {
      var rows: seq<StudentRow> := [];
      for k := 0 to |students|
        invariant rows == EncodeRows(students[..k])
      {
        rows := rows + [EncodeStudent(students[k])];
      }
      assert students[..|students|] == students;
      studentsFile := Some(rows);
    }

    /** Overwrites courses.csv with one row per course in memory, in order. */
    method SaveCourses()
      modifies this`coursesFile
      ensures coursesFile == Some(courses)
    {
      var rows: seq<Course> := [];
      for k := 0 to |courses|
        invariant rows == courses[..k]
      {
        assert courses[..k + 1] == courses[..k] + [courses[k]];
        rows := rows + [Course(courses[k].courseId, courses[k].courseName)];
      }
      assert courses[..|courses|] == courses;
      coursesFile := Some(rows);
    }

    /** Appends a student, without checking its id, and saves the students. */
    method AddStudent(student: Student)
      modifies this`students, this`studentsFile
      ensures students == old(students) + [student]
      ensures studentsFile == Some(EncodeRows(students))
    {
      students := students + [student];
      SaveStudents();
    }

    /**
     * Removes the first student whose id is `sid` and saves the students;
     * reports whether there was one, and changes nothing when there was not.
     */
    method DeleteStudent(sid: string) returns (found: bool)
      modifies this`students, this`studentsFile
      ensures found <==> exists j :: 0 <= j < |old(students)| && old(students)[j].studentId == sid
      ensures students == RemoveFirst(old(students), StudentKey, sid)
      ensures studentsFile == if found then Some(EncodeRows(students)) else old(studentsFile)
    {
      var i := 0;
      while i < |students|
        invariant i <= |students|
        invariant students == old(students) && studentsFile == old(studentsFile)
        invariant forall j :: 0 <= j < i ==> students[j].studentId != sid
      {
        if students[i].studentId == sid {
          FirstIsUnique(students, StudentKey, sid, i);
          students := students[..i] + students[i + 1..];
          SaveStudents();
          return true;
        }
        i := i + 1;
      }
      return false;
    }

    /** Appends a course, without checking its id, and saves the courses. */
    method AddCourse(cid: string, courseName: string)
      modifies this`courses, this`coursesFile
      ensures courses == old(courses) + [Course(cid, courseName)]
      ensures coursesFile == Some(courses)
    {
      courses := courses + [Course(cid, courseName)];
      SaveCourses();
    }

    /**
     * Removes the first course whose id is `cid` and saves the courses;
     * reports whether there was one, and changes nothing when there was not.
     * Students that list the course's name keep it.
     */
    method DeleteCourse(cid: string) returns (found: bool)
      modifies this`courses, this`coursesFile
      ensures found <==> exists j :: 0 <= j < |old(courses)| && old(courses)[j].courseId == cid
      ensures courses == RemoveFirst(old(courses), CourseKey, cid)
      ensures coursesFile == if found then Some(courses) else old(coursesFile)
    {
      var i := 0;
      while i < |courses|
        invariant i <= |courses|
        invariant courses == old(courses) && coursesFile == old(coursesFile)
        invariant forall j :: 0 <= j < i ==> courses[j].courseId != cid
      {
        if courses[i].courseId == cid {
          FirstIsUnique(courses, CourseKey, cid, i);
          courses := courses[..i] + courses[i + 1..];
          SaveCourses();
          return true;
        }
        i := i + 1;
      }
      return false;
    }

    /**
     * Appends the name of the first course with id `cid` to the course list
     * of the first student with id `sid` and saves the students; when either
     * is missing, reports which and changes nothing.
     */
    method AssignCourseToStudent(sid: string, cid: string) returns (outcome: AssignOutcome)
      modifies this`students, this`studentsFile
      ensures (students, outcome) == Assign(old(students), courses, sid, cid)
      ensures studentsFile == if outcome == Assigned then Some(EncodeRows(students)) else old(studentsFile)
    {
      var i := 0;
      while i < |students|
        invariant i <= |students|
        invariant students == old(students) && studentsFile == old(studentsFile)
        invariant forall n :: 0 <= n < i ==> students[n].studentId != sid
      {
        if students[i].studentId == sid {
          FirstIsUnique(students, StudentKey, sid, i);
          var j := 0;
          while j < |courses|
            invariant j <= |courses|
            invariant forall n :: 0 <= n < j ==> courses[n].courseId != cid
          {
            if courses[j].courseId == cid {
              FirstIsUnique(courses, CourseKey, cid, j);
              var s := students[i];
              students := students[i := s.(courses := s.courses + [courses[j].courseName])];
              SaveStudents();
              return Assigned;
            }
            j := j + 1;
          }
          return CourseNotFound;
        }
        i := i + 1;
      }
      return StudentNotFound;
    }
  }

  /**
   * Program start-up (sec.py:171-173): a fresh store loads the students,
   * then the courses, from whatever the two files hold.
   */
  method StartUp(studentsOnDisk: Option<seq<StudentRow>>, coursesOnDisk: Option<seq<Course>>)
    returns (students: seq<Student>, courses: seq<Course>)
    ensures studentsOnDisk.None? ==> students == []
    ensures coursesOnDisk.None? ==> courses == []
    ensures studentsOnDisk.Some? ==> students == DecodeRows(studentsOnDisk.value)
    ensures coursesOnDisk.Some? ==> courses == coursesOnDisk.value
  {
    var m := new StudentManager(studentsOnDisk, coursesOnDisk);
    var _ := m.LoadStudents();
    var _ := m.LoadCourses();
    students, courses := m.students, m.courses;
  }

  /**
   * A session from an empty disk: add student S1, add course C1, assign C1
   * to S1, delete S1. Returns what students.csv and courses.csv hold after
   * each step.
   */
  method Session()
    returns (afterAdd: Option<seq<StudentRow>>, coursesAfterAdd: Option<seq<Course>>,
             afterAssign: Option<seq<StudentRow>>, afterDelete: Option<seq<StudentRow>>)
    ensures afterAdd == Some([StudentRow("S1", "Ann", 20, "R1", "A", Some(""))])
    ensures coursesAfterAdd == Some([Course("C1", "Math")])
    ensures afterAssign == Some([StudentRow("S1", "Ann", 20, "R1", "A", Some("Math"))])
    ensures afterDelete == Some([])
  {
    var m := new StudentManager(None, None);
    var ann := NewStudent("S1", "Ann", 20, "R1", "A", None);
    m.AddStudent(ann);
    assert m.students == [ann];
    assert EncodeRows([ann]) == [EncodeStudent(ann)];
    afterAdd := m.studentsFile;
    m.AddCourse("C1", "Math");
    assert m.courses == [Course("C1", "Math")];
    coursesAfterAdd := m.coursesFile;
    assert coursesAfterAdd == Some([Course("C1", "Math")]);
    AssignFound(m.students, m.courses, "S1", "C1", 0, 0);
    var outcome := m.AssignCourseToStudent("S1", "C1");
    var annMath := ann.(courses := ["Math"]);
    assert ann.courses + [Course("C1", "Math").courseName] == ["Math"];
    assert |m.students| == 1 && m.students[0] == annMath;
    assert m.students == [annMath];
    assert EncodeRows([annMath]) == [EncodeStudent(annMath)];
    afterAssign := m.studentsFile;
    assert m.students[0].studentId == "S1";
    var found := m.DeleteStudent("S1");
    assert found;
    RemoveFirstFound([annMath], StudentKey, "S1", 0);
    assert m.students == [];
    afterDelete := m.studentsFile;
    assert EncodeRows([]) == [];
    assert afterDelete == Some([]);
  }

  /** Starting again from the files left after the assignment in `Session` gives back S1 with its course. */
  method Restart() returns (students: seq<Student>, courses: seq<Course>)
    ensures students == [Student("S1", "Ann", 20, "R1", "A", ["Math"])]
    ensures courses == [Course("C1", "Math")]
  {
    var afterAdd, coursesAfterAdd, afterAssign, afterDelete := Session();
    var annMath := Student("S1", "Ann", 20, "R1", "A", ["Math"]);
    assert Encodable(annMath.courses) by {
      assert forall n :: n in annMath.courses ==> n == "Math";
    }
    StudentRoundTrip(annMath);
    assert afterAssign.value == [EncodeStudent(annMath)];
    students, courses := StartUp(afterAssign, coursesAfterAdd);
    assert students == [DecodeStudent(afterAssign.value[0])];
  }
}
