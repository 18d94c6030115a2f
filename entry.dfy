/**
 * Result entry: a teacher submits one form; the student and the course are
 * found by matric number and course code or created, the total is scored on
 * the grading ladder, and the result is stored unless one already exists for
 * the same student, course, semester and session.
 */
module ResultEntry {
  import opened Grading
  import opened Records

  /** The fields of the result-entry form, already converted to numbers. */
  datatype EntryForm = EntryForm(
    matric: string,
    studentName: string,
    department: string,
    level: string,
    courseCode: string,
    courseTitle: string,
    courseUnit: int,
    ca: real,
    exam: real,
    semester: string,
    session: string)

  /** The two notices the form can end with. */
  datatype Outcome = Entered | AlreadyExists

  function NewStudent(f: EntryForm): Student
  {
    Student(f.matric, f.studentName, f.department, f.level)
  }

  function NewCourse(f: EntryForm): Course
  {
    Course(f.courseCode, f.courseTitle, f.courseUnit)
  }

  /** The result row the form describes once its student and course ids are known. */
  function Scoring(f: EntryForm, studentId: nat, courseId: nat, userId: nat): (r: Result)
    ensures Scored(r)
    ensures r.total == f.ca + f.exam && r.ca == f.ca && r.exam == f.exam
    ensures HasKey(studentId, courseId, f.semester, f.session)(r) && r.enteredBy == userId
  {
    var total := f.ca + f.exam;
    var g := CalculateGrade(total);
    Result(studentId, courseId, f.semester, f.session, f.ca, f.exam, total, g.letter, g.point, userId)
  }

  /** Get-or-create by matric number keeps matric numbers unique. */
  lemma MatricsStayUnique(students: seq<Student>, f: EntryForm)
    requires forall i, j :: 0 <= i < j < |students| ==> students[i].matric != students[j].matric
    ensures var ss := LookupOrAppend(students, HasMatric(f.matric), NewStudent(f)).0;
            forall i, j :: 0 <= i < j < |ss| ==> ss[i].matric != ss[j].matric
  {
    if FirstWhere(students, HasMatric(f.matric)).None? {
      assert forall i :: 0 <= i < |students| ==> !HasMatric(f.matric)(students[i]);
    }
  }

  /** Get-or-create by course code keeps course codes unique. */
  lemma CodesStayUnique(courses: seq<Course>, f: EntryForm)
    requires forall i, j :: 0 <= i < j < |courses| ==> courses[i].code != courses[j].code
    ensures var cs := LookupOrAppend(courses, HasCode(f.courseCode), NewCourse(f)).0;
            forall i, j :: 0 <= i < j < |cs| ==> cs[i].code != cs[j].code
  {
    if FirstWhere(courses, HasCode(f.courseCode)).None? {
      assert forall i :: 0 <= i < |courses| ==> !HasCode(f.courseCode)(courses[i]);
    }
  }

  /**
   * Entering a form whose key is not taken keeps the store invariant: the
   * get-or-create lookups keep matric numbers and course codes unique, the
   * new row refers to the found or created student and course, its key is
   * new and it is scored.
   */
  lemma EntryKeepsInvariant(students: seq<Student>, courses: seq<Course>, results: seq<Result>, f: EntryForm, userId: nat)
    requires StoreInvariant(students, courses, results)
    ensures var (ss, sid) := LookupOrAppend(students, HasMatric(f.matric), NewStudent(f));
            var (cs, cid) := LookupOrAppend(courses, HasCode(f.courseCode), NewCourse(f));
            FirstWhere(results, HasKey(sid, cid, f.semester, f.session)).None? ==>
              StoreInvariant(ss, cs, results + [Scoring(f, sid, cid, userId)])
  {
    var (ss, sid) := LookupOrAppend(students, HasMatric(f.matric), NewStudent(f));
    var (cs, cid) := LookupOrAppend(courses, HasCode(f.courseCode), NewCourse(f));
    var row := Scoring(f, sid, cid, userId);
    MatricsStayUnique(students, f);
    CodesStayUnique(courses, f);
    if FirstWhere(results, HasKey(sid, cid, f.semester, f.session)).None? {
      forall i | 0 <= i < |results|
        ensures !SameKey(results[i], row)
      {
        assert !HasKey(sid, cid, f.semester, f.session)(results[i]);
      }
      var rs := results + [row];
      assert forall i :: 0 <= i < |results| ==> rs[i] == results[i];
    }
  }

  class ResultStore {
    var students: seq<Student>
    var courses: seq<Course>
    var results: seq<Result>

    ghost predicate Valid()
      reads this
    {
      StoreInvariant(students, courses, results)
    }

    constructor ()
      ensures Valid()
      ensures students == [] && courses == [] && results == []
    {
      students, courses, results := [], [], [];
    }

    /**
     * Handles one submitted form. The student and the course are looked up
     * or created first; a result with the same key leaves the whole store as
     * it was (nothing is committed), otherwise exactly one scored row is
     * appended.
     */
    method EnterResult(f: EntryForm, userId: nat) returns (outcome: Outcome)
      requires Valid()
      modifies this
      ensures Valid()
      ensures var (ss, sid) := LookupOrAppend(old(students), HasMatric(f.matric), NewStudent(f));
              var (cs, cid) := LookupOrAppend(old(courses), HasCode(f.courseCode), NewCourse(f));
              && (outcome == AlreadyExists <==> FirstWhere(old(results), HasKey(sid, cid, f.semester, f.session)).Some?)
              && (outcome == AlreadyExists ==>
                    students == old(students) && courses == old(courses) && results == old(results))
              && (outcome == Entered ==>
                    students == ss && courses == cs && results == old(results) + [Scoring(f, sid, cid, userId)])
      ensures outcome == AlreadyExists ==>
                FirstWhere(old(students), HasMatric(f.matric)).Some? && FirstWhere(old(courses), HasCode(f.courseCode)).Some?
    {
      var (ss, sid) := LookupOrAppend(students, HasMatric(f.matric), NewStudent(f));
      var (cs, cid) := LookupOrAppend(courses, HasCode(f.courseCode), NewCourse(f));
      var row := Scoring(f, sid, cid, userId);
      var existing := FirstWhere(results, HasKey(sid, cid, f.semester, f.session));
      if existing.Some? {
        // The stored row refers to the student and the course, so neither was created here.
        assert results[existing.value].studentId == sid && results[existing.value].courseId == cid;
        outcome := AlreadyExists;
        return;
      }
      EntryKeepsInvariant(students, courses, results, f, userId);
      students, courses, results := ss, cs, results + [row];
      outcome := Entered;
    }
  }

  /** Submitting the same form twice stores one row: the second submission is rejected. */
  method SubmitTwice(store: ResultStore, f: EntryForm, userId: nat) returns (first: Outcome, second: Outcome)
    requires store.Valid()
    modifies store
    ensures store.Valid()
    ensures second == AlreadyExists
    ensures var sid := LookupOrAppend(old(store.students), HasMatric(f.matric), NewStudent(f)).1;
            var cid := LookupOrAppend(old(store.courses), HasCode(f.courseCode), NewCourse(f)).1;
            first == Entered ==> store.results == old(store.results) + [Scoring(f, sid, cid, userId)]
    ensures first == AlreadyExists ==> store.results == old(store.results)
  {
    ghost var s0, c0 := store.students, store.courses;
    first := store.EnterResult(f, userId);
    LookupAgain(s0, HasMatric(f.matric), NewStudent(f));
    LookupAgain(c0, HasCode(f.courseCode), NewCourse(f));
    ghost var sid := LookupOrAppend(s0, HasMatric(f.matric), NewStudent(f)).1;
    ghost var cid := LookupOrAppend(c0, HasCode(f.courseCode), NewCourse(f)).1;
    ghost var rs := store.results;
    if first == Entered {
      FirstWhereFinds(rs, HasKey(sid, cid, f.semester, f.session), |rs| - 1);
    }
    second := store.EnterResult(f, userId);
  }
}
