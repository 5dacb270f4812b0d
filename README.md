# Student and course record store, modelled in Dafny

A model of `StudentManager` from `sec.py`, a command-line record manager that keeps
students and courses in two in-memory lists and writes each list to a CSV file
(`students.csv`, `courses.csv`) after every change.

- `records.dfy` (module `Records`): the `Student` and `Course` records. A student's
  `courses` list holds course names in the order they were assigned.
- `codec.dfy` (module `Codec`): the persistence codec. A course list is packed into one
  cell with `",".join` and unpacked with `.split(",")`. An absent or empty cell reads as
  no courses. Also covers whole student rows and whole files.
- `lookup.dfy` (module `Lookup`): the store's operations as functions on the two lists.
  These are first-match lookup, remove-first-match and course assignment.
- `manager.dfy` (module `Manager`): the class `StudentManager`. Its fields are the two
  lists and the current contents of the two files. Each method scans, appends or removes
  in place, with loop invariants, and is proved against the `Lookup` and `Codec` functions.
  The module also has the program's start-up sequence and two fixed sessions.

Ids and names that the program reads from the terminal are method parameters. The
"deleted" / "not found" messages become return values: `found`, or an `AssignOutcome`.
A file is modelled as its sequence of data rows, or `None` while it does not exist.
Saving sets that sequence to the rows of the current list.

The round trip is stated as the code behaves. Writing and re-reading a course list gives
it back exactly when no name contains a comma and the list is not `[""]`. A single
course with an empty name is written as an empty cell, and an empty cell reads back as no
courses. The "no embedded commas" condition alone is not enough.

## Model

| member | source | states |
|---|---|---|
| `Records.NewStudent` | sec.py:4-10 | The fields are copied. The student has no courses exactly when the list argument is absent or empty; a given list is kept as is. |
| `Codec.Join` | sec.py:158 | The cell written for a course list. It is empty exactly when the list is `[]` or `[""]`; its inverse is stated in `CellRoundTrip`. |
| `Codec.Split` | sec.py:47 | Splitting always gives at least one part, and no part contains the separator. |
| `Codec.DecodeCell` | sec.py:47 | A cell decodes to no courses exactly when it is absent or empty. Every decoded name is free of commas. |
| `Codec.JoinSplit` | sec.py:47 | Joining the parts of a split cell gives the cell back, for every cell. |
| `Codec.SplitJoin` | sec.py:158 | Splitting the join of a non-empty list of comma-free names gives the list back. |
| `Codec.CellRoundTrip` | sec.py:47 | Decoding the encoded course list gives the list back if and only if no name contains a comma and the list is not `[""]`. |
| `Codec.StudentRoundTrip` | sec.py:152-159 | Saving a student as a row and loading it back keeps every field except the course list. The whole student comes back exactly when its course list is encodable. |
| `Codec.EncodeStudent` | sec.py:152-159 | The row written for one student; defined by its body, and given its meaning by `StudentRoundTrip`. |
| `Codec.DecodeStudent` | sec.py:41-48 | The student built from one row; defined by its body, and given its meaning by `StudentRoundTrip`. |
| `Codec.EncodeRows` | sec.py:151-159 | One row per student, in list order; defined by its body, and given its meaning by `RowsRoundTrip`. |
| `Codec.DecodeRows` | sec.py:39-49 | One student per row, in row order; defined by its body, and given its meaning by `RowsRoundTrip`. |
| `Codec.RowsRoundTrip` | sec.py:39-49 | Loading the rows saved for a student list gives that list back if and only if every student's course list is encodable. |
| `Lookup.FindFirst` | sec.py:102-103 | The result is None exactly when no element has the key. Otherwise it is the position of a matching element with no match before it. |
| `Lookup.RemoveFirst` | sec.py:102-107 | The list after removing its first match (also sec.py:122-127). It is one shorter exactly when some element matches, and its multiset is contained in the original's. `RemoveFirstFound` and `RemoveFirstMissing` give it in full. |
| `Lookup.RemoveFirstFound` | sec.py:102-107 | With a match, exactly the first matching element is removed. The list gets one shorter, the other elements keep their order, and the multiset loses exactly that element. |
| `Lookup.RemoveFirstMissing` | sec.py:102-108 | With no match, the list is unchanged. |
| `Lookup.RemoveAfterAppend` | sec.py:79-108 | Appending an element whose key is new and then removing that key restores the original list. |
| `Lookup.RemoveAfterAppendDuplicate` | sec.py:79-108 | Appending an element whose key is already taken and then removing that key removes the older element. The new one stays, at the end. |
| `Lookup.Assign` | sec.py:133-144 | The outcome is StudentNotFound exactly when no student has the id. It is CourseNotFound exactly when a student has the id but no course does. In both cases the students are unchanged, and the list length never changes. |
| `Lookup.AssignFound` | sec.py:133-141 | When both ids are found, the first matching student gains one course name at the end, the name of the first matching course. Its other fields and all other students are unchanged. |
| `Manager.StudentManager.constructor` | sec.py:28-32 | The store starts with both lists empty, over the given file contents. |
| `Manager.StudentManager.LoadStudents` | sec.py:34-51 | Appends the decoded rows of students.csv, in row order, after the students already loaded. The list is not cleared first. A missing file adds nothing and is reported. |
| `Manager.StudentManager.LoadCourses` | sec.py:53-61 | Appends the rows of courses.csv, in row order, after the courses already loaded. A missing file adds nothing and is reported. |
| `Manager.StudentManager.SaveStudents` | sec.py:146-159 | students.csv afterwards holds the encoded row of every student, in list order. |
| `Manager.StudentManager.SaveCourses` | sec.py:161-167 | courses.csv afterwards holds every course, in list order. |
| `Manager.StudentManager.AddStudent` | sec.py:79-82 | The student is appended at the end with no id check, earlier students are unchanged, and the file matches the new list. |
| `Manager.StudentManager.DeleteStudent` | sec.py:97-108 | Reports whether some student has the id. The list becomes the old list minus its first match. The file is rewritten only when a student was removed. |
| `Manager.StudentManager.AddCourse` | sec.py:110-117 | The course is appended at the end with no id check, and the file matches the new list. |
| `Manager.StudentManager.DeleteCourse` | sec.py:119-128 | Reports whether some course has the id. The list becomes the old list minus its first match. The file is rewritten only when a course was removed. Students keep the name. |
| `Manager.StudentManager.AssignCourseToStudent` | sec.py:130-144 | The new student list and the outcome are those of `Assign`, and the courses are untouched. students.csv is rewritten only on success. |
| `Manager.StartUp` | sec.py:171-173 | A fresh store loads students, then courses. A missing file gives an empty list, and an existing file gives its decoded rows. |
| `Manager.Session` | sec.py:79-144 | From an empty disk: add S1 gives the row `S1,Ann,20,R1,A,` (empty courses cell). Add C1 gives `C1,Math`. Assign C1 to S1 gives `S1,Ann,20,R1,A,Math`. Delete S1 leaves no data rows. |
| `Manager.Restart` | sec.py:34-61 | Starting again from the files written after that assignment gives back S1 with the course list `["Math"]`, and course C1. |

## Left out

- File opening, reading and writing, and the CSV quoting rules of `csv.DictReader` and `csv.DictWriter`. A file is modelled as its sequence of data rows (header row left implicit), with the `courses` cell as an optional string. Opening errors other than a missing file, such as permissions, are not modelled.
- The round-trip statements are about these modelled rows, not about the bytes of the files. The files are read without `newline=""` (sec.py:37, sec.py:56) but written with it (sec.py:148, sec.py:163), so a carriage return inside a quoted field is read back as a line feed; that change is not captured.
- Terminal I/O: `print`, `input`, the `add_student_interactive` wrapper, and the prompts inside the delete, add-course and assign operations. Ids and names are parameters, and messages are return values.
- The menu loop after start-up (sec.py:175-208), which only dispatches to the operations above.
- Parsing the age with `int(...)`, and the `ValueError` it raises on bad input. The age is an `int` that is already parsed, in both records and rows.
- `__str__`, `display_students` and `display_courses`. These only render text.
- Object identity. A Python `Student` is a mutable object that the list holds by reference. Here it is a value, and assignment replaces the list element. A caller that keeps a reference to a student passed to `add_student` would see later assignments in Python but not in this model. The program itself never keeps such a reference.
- The `FILE_NAME` and `COURSE_FILE_NAME` attributes. Each file is a field of the store instead of a path.
