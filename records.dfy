/**
 * The stored entities: students, courses and results. A student's or a
 * course's id is its position in the store's sequence of students or
 * courses; a result refers to both by id.
 */
module Records {
  import opened Grading

  datatype Option<T> = None | Some(value: T)

  datatype Student = Student(matric: string, fullName: string, department: string, level: string)

  datatype Course = Course(code: string, title: string, unit: int)

  datatype Result = Result(
    studentId: nat,
    courseId: nat,
    semester: string,
    session: string,
    ca: real,
    exam: real,
    total: real,
    grade: string,
    point: real,
    enteredBy: nat)

  /** The position of the first element satisfying `p`: a query's `.first()`. */
  function FirstWhere<T>(s: seq<T>, p: T -> bool): (r: Option<nat>)
    ensures r.Some? ==> r.value < |s| && p(s[r.value])
    ensures r.Some? ==> forall j :: 0 <= j < r.value ==> !p(s[j])
    ensures r.None? ==> forall j :: 0 <= j < |s| ==> !p(s[j])
  {
    if s == [] then None
    else if p(s[0]) then Some(0)
    else
      match FirstWhere(s[1..], p)
      case None => None
      case Some(k) =>
        assert forall j :: 1 <= j <= k + 1 ==> s[j] == s[1..][j - 1];
        Some(k + 1)
  }

  /**
   * Get-or-create: the id of the first element satisfying `p`, or, when
   * there is none, the table with `created` appended and the id of that new
   * element.
   */
  function LookupOrAppend<T>(table: seq<T>, p: T -> bool, created: T): (r: (seq<T>, nat))
    requires p(created)
    ensures r.1 < |r.0| && p(r.0[r.1])
    ensures FirstWhere(table, p).Some? ==> r.0 == table && r.1 == FirstWhere(table, p).value
    ensures FirstWhere(table, p).None? ==> r.0 == table + [created] && r.1 == |table|
  {
    match FirstWhere(table, p)
    case Some(i) => (table, i)
    case None => (table + [created], |table|)
  }

  /** Get-or-create is idempotent: a second lookup finds what the first one found or created. */
  lemma LookupAgain<T>(table: seq<T>, p: T -> bool, created: T)
    requires p(created)
    ensures var r := LookupOrAppend(table, p, created);
            LookupOrAppend(r.0, p, created) == r
  {
  }

  /** An element satisfying `p` makes the lookup succeed, at or before it. */
  lemma FirstWhereFinds<T>(s: seq<T>, p: T -> bool, i: nat)
    requires i < |s| && p(s[i])
    ensures FirstWhere(s, p).Some? && FirstWhere(s, p).value <= i
  {
  }

  function HasMatric(matric: string): Student -> bool
  {
    (s: Student) => s.matric == matric
  }

  function HasCode(code: string): Course -> bool
  {
    (c: Course) => c.code == code
  }

  /** Two results for the same student, course, semester and session. */
  predicate SameKey(a: Result, b: Result)
  {
    HasKey(a.studentId, a.courseId, a.semester, a.session)(b)
  }

  /** The filter of the duplicate check: a result with this student, course, semester and session. */
  function HasKey(studentId: nat, courseId: nat, semester: string, session: string): Result -> bool
  {
    (r: Result) => r.studentId == studentId && r.courseId == courseId && r.semester == semester && r.session == session
  }

  /** Every result refers to a stored student and a stored course. */
  ghost predicate ForeignKeys(students: seq<Student>, courses: seq<Course>, results: seq<Result>)
  {
    forall i :: 0 <= i < |results| ==> results[i].studentId < |students| && results[i].courseId < |courses|
  }

  /** The total is the sum of the two scores, and grade and point are the ladder's for it. */
  ghost predicate Scored(r: Result)
  {
    r.total == r.ca + r.exam && CalculateGrade(r.total) == Grade(r.grade, r.point)
  }

  /** What the store keeps true: references resolve, keys are unique, results are scored. */
  ghost predicate StoreInvariant(students: seq<Student>, courses: seq<Course>, results: seq<Result>)
  {
    && ForeignKeys(students, courses, results)
    && (forall i, j :: 0 <= i < j < |students| ==> students[i].matric != students[j].matric)
    && (forall i, j :: 0 <= i < j < |courses| ==> courses[i].code != courses[j].code)
    && (forall i, j :: 0 <= i < j < |results| ==> !SameKey(results[i], results[j]))
    && (forall i :: 0 <= i < |results| ==> Scored(results[i]))
  }

}
