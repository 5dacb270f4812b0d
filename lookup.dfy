/**
 * The record store's lookups, as functions on the two lists. Every lookup is a
 * linear scan in list order that stops at the first element whose key
 * matches, so when ids are duplicated the first one wins.
 */
module Lookup {
  import opened Wrappers
  import opened Records

  /** `i` is the position of the first element of `s` whose key is `k`. */
  predicate IsFirst<T>(s: seq<T>, key: T -> string, k: string, i: nat) {
    i < |s| && key(s[i]) == k && forall j :: 0 <= j < i ==> key(s[j]) != k
  }

  /** The position of the first element whose key is `k`, if there is one. */
  function FindFirst<T>(s: seq<T>, key: T -> string, k: string): (r: Option<nat>)
    ensures r.None? <==> forall j :: 0 <= j < |s| ==> key(s[j]) != k
    ensures r.Some? ==> IsFirst(s, key, k, r.value)
    decreases |s|
  {
    if |s| == 0 then None
    else if key(s[0]) == k then Some(0)
    else match FindFirst(s[1..], key, k)
      case None => None
      case Some(i) =>
        assert forall j :: 1 <= j <= i ==> s[j] == s[1..][j - 1];
        Some(i + 1)
  }

  /** There is at most one first match. */
  lemma FirstIsUnique<T>(s: seq<T>, key: T -> string, k: string, i: nat)
    requires IsFirst(s, key, k, i)
    ensures FindFirst(s, key, k) == Some(i)
  {
  }

  /** The list after removing its first element whose key is `k`; unchanged when there is none. */
  function RemoveFirst<T>(s: seq<T>, key: T -> string, k: string): (r: seq<T>)
    ensures |r| == |s| - 1 <==> exists j :: 0 <= j < |s| && key(s[j]) == k
    ensures multiset(r) <= multiset(s)
  {
    match FindFirst(s, key, k)
    case None => s
    case Some(i) =>
      assert s == s[..i] + [s[i]] + s[i + 1..];
      s[..i] + s[i + 1..]
  }

  /**
   * With a match, exactly the first matching element goes: the list is one
   * shorter, keeps every other element in its order, and loses exactly that
   * element.
   */
  lemma RemoveFirstFound<T>(s: seq<T>, key: T -> string, k: string, i: nat)
    requires IsFirst(s, key, k, i)
    ensures RemoveFirst(s, key, k) == s[..i] + s[i + 1..]
    ensures |RemoveFirst(s, key, k)| == |s| - 1
    ensures forall j :: 0 <= j < i ==> RemoveFirst(s, key, k)[j] == s[j]
    ensures forall j :: i <= j < |s| - 1 ==> RemoveFirst(s, key, k)[j] == s[j + 1]
    ensures multiset(RemoveFirst(s, key, k)) + multiset{s[i]} == multiset(s)
  {
    FirstIsUnique(s, key, k, i);
    assert s == s[..i] + [s[i]] + s[i + 1..];
  }

  /** Without a match nothing is removed. */
  lemma RemoveFirstMissing<T>(s: seq<T>, key: T -> string, k: string)
    requires forall j :: 0 <= j < |s| ==> key(s[j]) != k
    ensures RemoveFirst(s, key, k) == s
  {
  }

  /** Adding an element with a fresh key and then removing that key restores the list. */
  lemma RemoveAfterAppend<T>(s: seq<T>, key: T -> string, x: T)
    requires forall j :: 0 <= j < |s| ==> key(s[j]) != key(x)
    ensures RemoveFirst(s + [x], key, key(x)) == s
  {
    FirstIsUnique(s + [x], key, key(x), |s|);
    assert (s + [x])[..|s|] == s;
  }

  /**
   * Adding an element whose key is already taken and then removing that key
   * removes the OLDER element: the new one stays, at the end.
   */
  lemma RemoveAfterAppendDuplicate<T>(s: seq<T>, key: T -> string, x: T, i: nat)
    requires IsFirst(s, key, key(x), i)
    ensures RemoveFirst(s + [x], key, key(x)) == RemoveFirst(s, key, key(x)) + [x]
  {
    FirstIsUnique(s, key, key(x), i);
    FirstIsUnique(s + [x], key, key(x), i);
    assert (s + [x])[..i] == s[..i];
    assert (s + [x])[i + 1..] == s[i + 1..] + [x];
  }

  /** What `assign_course_to_student` reports. */
  datatype AssignOutcome = Assigned | StudentNotFound | CourseNotFound

  /**
   * The student list after assigning course `cid` to student `sid`, and the
   * outcome: the first student with that id gets the name of the first course
   * with that id appended to its course list, when both exist.
   */
  function Assign(students: seq<Student>, courses: seq<Course>, sid: string, cid: string)
    : (r: (seq<Student>, AssignOutcome))
    ensures |r.0| == |students|
    ensures r.1 == StudentNotFound <==> forall i :: 0 <= i < |students| ==> students[i].studentId != sid
    ensures r.1 == CourseNotFound <==>
              (exists i :: 0 <= i < |students| && students[i].studentId == sid) &&
              (forall j :: 0 <= j < |courses| ==> courses[j].courseId != cid)
    ensures r.1 != Assigned ==> r.0 == students
  {
    match FindFirst(students, StudentKey, sid)
    case None => (students, StudentNotFound)
    case Some(i) =>
      match FindFirst(courses, CourseKey, cid)
      case None => (students, CourseNotFound)
      case Some(j) =>
        var s := students[i];
        (students[i := s.(courses := s.courses + [courses[j].courseName])], Assigned)
  }

  /**
   * When both ids are found, the first matching student gains exactly one
   * course name at the end of its list, that of the first matching course;
   * its other fields and every other student stay as they were.
   */
  lemma AssignFound(students: seq<Student>, courses: seq<Course>, sid: string, cid: string, i: nat, j: nat)
    requires IsFirst(students, StudentKey, sid, i)
    requires IsFirst(courses, CourseKey, cid, j)
    ensures Assign(students, courses, sid, cid).1 == Assigned
    ensures Assign(students, courses, sid, cid).0[i] ==
            students[i].(courses := students[i].courses + [courses[j].courseName])
    ensures forall n :: 0 <= n < |students| && n != i ==> Assign(students, courses, sid, cid).0[n] == students[n]
  {
    FirstIsUnique(students, StudentKey, sid, i);
    FirstIsUnique(courses, CourseKey, cid, j);
  }
}
