/**
 * The persistence codec: how one student's course list is packed into the
 * single `courses` cell of a students.csv row and unpacked again, and how
 * whole rows are written and read.
 *
 * The cell is written with `",".join(courses)` and read back with
 * `cell.split(",")`, except that an absent or empty cell reads as no courses.
 * No escaping is done, so the round trip only holds for some course lists;
 * `CellRoundTrip` says exactly which.
 */
module Codec {
  import opened Wrappers
  import opened Records

  /** The separator between course names inside a cell. */
  const Sep: char := ','

  predicate CommaFree(name: string) {
    Sep !in name
  }

  /** `",".join(names)`: the cell written for a course list (sec.py:158). */
  function Join(names: seq<string>): (cell: string)
    ensures cell == "" <==> names == [] || names == [""]
  {
    if |names| == 0 then ""
    else if |names| == 1 then names[0]
    else names[0] + [Sep] + Join(names[1..])
  }

  /** `cell.split(",")`: one part more than there are separators, none of them holding one. */
  function Split(cell: string): (parts: seq<string>)
    ensures |parts| >= 1
    ensures forall p :: p in parts ==> CommaFree(p)
    decreases |cell|
  {
    if cell == [] then [""]
    else
      var rest := Split(cell[1..]);
      if cell[0] == Sep then [""] + rest
      else
        assert rest[0] in rest && forall p :: p in rest[1..] ==> p in rest;
        [[cell[0]] + rest[0]] + rest[1..]
  }

  /**
   * The course list read from a cell (sec.py:47): an absent or empty cell
   * gives no courses, any other cell is split at every separator.
   */
  function DecodeCell(cell: Option<string>): (names: seq<string>)
    ensures names == [] <==> cell == None || cell == Some("")
    ensures forall n :: n in names ==> CommaFree(n)
  {
    match cell
    case None => []
    case Some(c) => if c == "" then [] else Split(c)
  }

  /** The course lists that survive a write followed by a read. */
  predicate Encodable(names: seq<string>) {
    names != [""] && forall n :: n in names ==> CommaFree(n)
  }

  /** Joining after an empty first name puts a separator in front. */
  lemma {:induction false} JoinEmptyFirst(rest: seq<string>)
    requires |rest| >= 1
    ensures Join([""] + rest) == [Sep] + Join(rest)
  {
    assert ([""] + rest)[1..] == rest;
  }

  /** Joining a first name before at least one more puts a separator between them. */
  lemma {:induction false} JoinCons(first: string, rest: seq<string>)
    requires |rest| >= 1
    ensures Join([first] + rest) == first + [Sep] + Join(rest)
  {
    assert ([first] + rest)[1..] == rest;
  }

  /** Joining after a character is glued to the first name puts that character in front. */
  lemma {:induction false} JoinGlued(c: char, rest: seq<string>)
    requires |rest| >= 1
    ensures Join([[c] + rest[0]] + rest[1..]) == [c] + Join(rest)
  {
    if |rest| == 1 {
      assert [[c] + rest[0]] + rest[1..] == [[c] + rest[0]];
    } else {
      var tail := rest[1..];
      JoinCons([c] + rest[0], tail);
      JoinCons(rest[0], tail);
      assert rest == [rest[0]] + tail;
      assert ([c] + rest[0]) + [Sep] + Join(tail) == [c] + (rest[0] + [Sep] + Join(tail));
    }
  }

  /** Splitting a cell and joining the parts again gives the cell back. */
  lemma {:induction false} JoinSplit(cell: string)
    ensures Join(Split(cell)) == cell
    decreases |cell|
  {
    if cell != [] {
      var rest := Split(cell[1..]);
      JoinSplit(cell[1..]);
      if cell[0] == Sep {
        JoinEmptyFirst(rest);
      } else {
        JoinGlued(cell[0], rest);
      }
      assert cell == [cell[0]] + cell[1..];
    }
  }

  /** A separator-free prefix is glued to the first part of what follows it. */
  lemma {:induction false} SplitPrefix(x: string, r: string)
    requires CommaFree(x)
    ensures Split(x + r) == [x + Split(r)[0]] + Split(r)[1..]
    decreases |x|
  {
    if x == [] {
      var parts := Split(r);
      assert x + r == r && x + parts[0] == parts[0];
      assert parts == [parts[0]] + parts[1..];
    } else {
      var tail := x[1..];
      SplitPrefix(tail, r);
      assert x[0] in x;
      assert (x + r)[0] == x[0] != Sep;
      assert (x + r)[1..] == tail + r;
      var rest := Split(tail + r);
      assert rest == [tail + Split(r)[0]] + Split(r)[1..];
      assert Split(x + r) == [[x[0]] + rest[0]] + rest[1..];
      assert rest[1..] == Split(r)[1..];
      assert x == [x[0]] + tail;
      assert [x[0]] + rest[0] == x + Split(r)[0];
    }
  }

  /** Splitting the join of separator-free names gives the names back. */
  lemma {:induction false} SplitJoin(names: seq<string>)
    requires |names| >= 1
    requires forall n :: n in names ==> CommaFree(n)
    ensures Split(Join(names)) == names
    decreases |names|
  {
    if |names| == 1 {
      SplitPrefix(names[0], "");
      assert names[0] + "" == names[0];
    } else {
      var tail := names[1..];
      SplitJoin(tail);
      var rest := [Sep] + Join(tail);
      assert rest[1..] == Join(tail);
      assert Split(rest) == [""] + tail;
      assert names[0] in names;
      SplitPrefix(names[0], rest);
      assert Join(names) == names[0] + rest;
      assert Split(rest)[0] == "" && Split(rest)[1..] == tail;
      assert names[0] + "" == names[0];
      assert names == [names[0]] + tail;
    }
  }

  /**
   * The course-cell round trip holds exactly for the encodable lists: a name
   * holding the separator comes back in pieces, and the list [""] comes back
   * as the empty list.
   */
  lemma CellRoundTrip(names: seq<string>)
    ensures DecodeCell(Some(Join(names))) == names <==> Encodable(names)
  {
    if Encodable(names) && names != [] {
      SplitJoin(names);
    }
  }

  /** One students.csv data row, field by field; `courses` is None when the cell is missing. */
  datatype StudentRow = StudentRow(
    studentId: string,
    name: string,
    age: int,
    rollNo: string,
    grade: string,
    courses: Option<string>)

  /** The row `save_students` writes for a student (sec.py:152-159). */
  function EncodeStudent(s: Student): (row: StudentRow)
  {
    StudentRow(s.studentId, s.name, s.age, s.rollNo, s.grade, Some(Join(s.courses)))
  }

  /** The student `load_students` builds from a row (sec.py:41-48). */
  function DecodeStudent(row: StudentRow): (s: Student)
  {
    NewStudent(row.studentId, row.name, row.age, row.rollNo, row.grade, Some(DecodeCell(row.courses)))
  }

  /** Every field except the course list always survives; the course list does exactly when encodable. */
  lemma StudentRoundTrip(s: Student)
    ensures DecodeStudent(EncodeStudent(s)).(courses := s.courses) == s
    ensures DecodeStudent(EncodeStudent(s)) == s <==> Encodable(s.courses)
  {
    CellRoundTrip(s.courses);
  }

  /** The data rows written for a list of students, one per student, in order. */
  function EncodeRows(students: seq<Student>): (rows: seq<StudentRow>)
  {
    seq(|students|, i requires 0 <= i < |students| => EncodeStudent(students[i]))
  }

  /** The students read from a list of rows, one per row, in order. */
  function DecodeRows(rows: seq<StudentRow>): (students: seq<Student>)
  {
    seq(|rows|, i requires 0 <= i < |rows| => DecodeStudent(rows[i]))
  }

  /** Saving a list of students and loading it back gives it back exactly when every course list is encodable. */
  lemma RowsRoundTrip(students: seq<Student>)
    ensures DecodeRows(EncodeRows(students)) == students <==>
            forall i :: 0 <= i < |students| ==> Encodable(students[i].courses)
  {
    var back := DecodeRows(EncodeRows(students));
    forall i | 0 <= i < |students|
      ensures back[i] == students[i] <==> Encodable(students[i].courses)
    {
      StudentRoundTrip(students[i]);
    }
  }
}
