/**
 * The result queries of the admin pages: results joined with their student
 * and their course, optionally filtered by the student's level and
 * department and by the result's semester, and the per-student result
 * lists the GPA is computed from.
 */
module ResultQuery {
  import opened Grading
  import opened Records
  import opened Gpa

  /** One row of results joined with students and courses. */
  datatype Row = Row(result: Result, student: Student, course: Course)

  /** The filters of the export; an empty string means "no filter". */
  datatype Filters = Filters(level: string, department: string, semester: string)

  const NoFilter: Filters := Filters("", "", "")

  function StudentIdOf(row: Row): nat
  {
    row.result.studentId
  }

  predicate Selected(row: Row, f: Filters)
  {
    && (f.level == "" || row.student.level == f.level)
    && (f.department == "" || row.student.department == f.department)
    && (f.semester == "" || row.result.semester == f.semester)
  }

  /** The joined row of a result; an inner join has none for a dangling reference. */
  function JoinRow(students: seq<Student>, courses: seq<Course>, r: Result): (row: Option<Row>)
    ensures row.Some? <==> r.studentId < |students| && r.courseId < |courses|
    ensures row.Some? ==> row.value.result == r
    ensures row.Some? ==> row.value.student == students[r.studentId] && row.value.course == courses[r.courseId]
  {
    if r.studentId < |students| && r.courseId < |courses| then
      Some(Row(r, students[r.studentId], courses[r.courseId]))
    else
      None
  }

  /** The filtered, joined results in store order. */
  function Query(students: seq<Student>, courses: seq<Course>, results: seq<Result>, f: Filters): (rows: seq<Row>)
    ensures |rows| <= |results|
    ensures forall k :: 0 <= k < |rows| ==> Selected(rows[k], f)
  {
    if results == [] then []
    else
      var joined := JoinRow(students, courses, results[0]);
      var head := if joined.Some? && Selected(joined.value, f) then [joined.value] else [];
      head + Query(students, courses, results[1..], f)
  }

  /**
   * A row is in the query exactly when it is the joined row of some stored
   * result that passes every non-empty filter.
   */
  lemma {:induction false} QueryMembership(students: seq<Student>, courses: seq<Course>, results: seq<Result>, f: Filters, row: Row)
    ensures row in Query(students, courses, results, f) <==>
            exists i :: 0 <= i < |results| && JoinRow(students, courses, results[i]) == Some(row) && Selected(row, f)
  {
    if results != [] {
      QueryMembership(students, courses, results[1..], f, row);
      if exists i :: 1 <= i < |results| && JoinRow(students, courses, results[i]) == Some(row) && Selected(row, f) {
        var i :| 1 <= i < |results| && JoinRow(students, courses, results[i]) == Some(row) && Selected(row, f);
        assert results[1..][i - 1] == results[i];
      }
    }
  }

  /**
   * With empty filters and resolving references the query is the whole
   * result table, row for row.
   */
  lemma {:induction false} QueryUnfiltered(students: seq<Student>, courses: seq<Course>, results: seq<Result>)
    requires ForeignKeys(students, courses, results)
    ensures var rows := Query(students, courses, results, NoFilter);
            |rows| == |results| &&
            forall i :: 0 <= i < |results| ==> Some(rows[i]) == JoinRow(students, courses, results[i])
  {
    if results != [] {
      assert ForeignKeys(students, courses, results[1..]) by {
        assert forall i :: 0 <= i < |results| - 1 ==> results[1..][i] == results[i + 1];
      }
      QueryUnfiltered(students, courses, results[1..]);
    }
  }

  /**
   * The query keeps store order and multiplicity: querying two stretches of
   * the result table one after the other gives the rows of the whole.
   */
  lemma {:induction false} QueryAppend(students: seq<Student>, courses: seq<Course>, a: seq<Result>, b: seq<Result>, f: Filters)
    ensures Query(students, courses, a + b, f) == Query(students, courses, a, f) + Query(students, courses, b, f)
  {
    if a == [] {
      assert a + b == b;
    } else {
      assert (a + b)[0] == a[0];
      assert (a + b)[1..] == a[1..] + b;
      QueryAppend(students, courses, a[1..], b, f);
    }
  }

  /** Every result's course resolves, so each result has a course unit. */
  ghost predicate CoursesResolve(courses: seq<Course>, results: seq<Result>)
  {
    forall i :: 0 <= i < |results| ==> results[i].courseId < |courses|
  }

  /**
   * A store that keeps its invariant (as every store built by result entry
   * does) meets the requirement of the GPA queries below.
   */
  lemma StoreResolvesCourses(students: seq<Student>, courses: seq<Course>, results: seq<Result>)
    requires StoreInvariant(students, courses, results)
    ensures CoursesResolve(courses, results)
  {
  }

  /** A result the per-student query keeps: the student's, and of the semester if one is given. */
  predicate Kept(r: Result, studentId: nat, semester: string)
  {
    r.studentId == studentId && (semester == "" || r.semester == semester)
  }

  /** What one result adds to a student's GPA items: its point and unit, if it is selected. */
  function Contribution(r: Result, courses: seq<Course>, studentId: nat, semester: string): seq<GpaItem>
    requires r.courseId < |courses|
  {
    if Kept(r, studentId, semester) then [GpaItem(r.point, courses[r.courseId].unit)] else []
  }

  /**
   * The grade points and course units of one student's results, restricted
   * to one semester unless `semester` is empty.
   */
  function StudentItems(results: seq<Result>, courses: seq<Course>, studentId: nat, semester: string): (items: seq<GpaItem>)
    requires CoursesResolve(courses, results)
    ensures |items| <= |results|
    ensures items == [] <==> forall i :: 0 <= i < |results| ==> !Kept(results[i], studentId, semester)
  {
    if results == [] then []
    else
      assert forall i :: 1 <= i < |results| ==> results[1..][i - 1] == results[i];
      Contribution(results[0], courses, studentId, semester) + StudentItems(results[1..], courses, studentId, semester)
  }

  /** The GPA of one student's kept results; 0.0 for a student with none. */
  function StudentGpa(results: seq<Result>, courses: seq<Course>, studentId: nat, semester: string): (gpa: real)
    requires CoursesResolve(courses, results)
    ensures (forall i :: 0 <= i < |results| ==> !Kept(results[i], studentId, semester)) ==> gpa == 0.0
  {
    CalculateGpa(StudentItems(results, courses, studentId, semester))
  }

  /** Courses resolve for two stretches of results exactly when they resolve for both. */
  lemma ResolvesAppend(courses: seq<Course>, a: seq<Result>, b: seq<Result>)
    ensures CoursesResolve(courses, a + b) <==> CoursesResolve(courses, a) && CoursesResolve(courses, b)
  {
    assert forall i :: 0 <= i < |a| ==> (a + b)[i] == a[i];
    assert forall i :: 0 <= i < |b| ==> (a + b)[|a| + i] == b[i];
  }

  /** The GPA query keeps store order: it distributes over two stretches of the result table. */
  lemma {:induction false} StudentItemsAppend(a: seq<Result>, b: seq<Result>, courses: seq<Course>, studentId: nat, semester: string)
    requires CoursesResolve(courses, a + b)
    ensures CoursesResolve(courses, a) && CoursesResolve(courses, b)
    ensures StudentItems(a + b, courses, studentId, semester) ==
            StudentItems(a, courses, studentId, semester) + StudentItems(b, courses, studentId, semester)
  {
    ResolvesAppend(courses, a, b);
    if a == [] {
      assert a + b == b;
    } else {
      var rest := a[1..];
      assert (a + b)[0] == a[0];
      assert (a + b)[1..] == rest + b;
      ResolvesAppend(courses, rest, b);
      StudentItemsAppend(rest, b, courses, studentId, semester);
      var head := Contribution(a[0], courses, studentId, semester);
      assert StudentItems(a, courses, studentId, semester) == head + StudentItems(rest, courses, studentId, semester);
      assert StudentItems(a + b, courses, studentId, semester) == head + StudentItems(rest + b, courses, studentId, semester);
    }
  }

  /**
   * One result contributes its grade point and its course's unit exactly
   * when it is the student's and, if a semester is given, of that semester.
   */
  lemma StudentItemsSingle(r: Result, courses: seq<Course>, studentId: nat, semester: string)
    requires r.courseId < |courses|
    ensures CoursesResolve(courses, [r])
    ensures StudentItems([r], courses, studentId, semester) ==
            if r.studentId == studentId && (semester == "" || r.semester == semester)
            then [GpaItem(r.point, courses[r.courseId].unit)] else []
  {
    assert [r][1..] == [];
  }

  /**
   * An item is in the GPA query exactly when it is the grade point and
   * course unit of a stored result of the student that passes the
   * semester filter.
   */
  lemma {:induction false} StudentItemsMembership(results: seq<Result>, courses: seq<Course>, studentId: nat, semester: string, item: GpaItem)
    requires CoursesResolve(courses, results)
    ensures item in StudentItems(results, courses, studentId, semester) <==>
            exists i :: 0 <= i < |results| && results[i].studentId == studentId
                        && (semester == "" || results[i].semester == semester)
                        && item == GpaItem(results[i].point, courses[results[i].courseId].unit)
  {
    if results != [] {
      var rest := results[1..];
      assert forall i :: 0 <= i < |rest| ==> rest[i] == results[i + 1];
      StudentItemsMembership(rest, courses, studentId, semester, item);
      if exists i :: 1 <= i < |results| && results[i].studentId == studentId
                     && (semester == "" || results[i].semester == semester)
                     && item == GpaItem(results[i].point, courses[results[i].courseId].unit) {
        var i :| 1 <= i < |results| && results[i].studentId == studentId
                 && (semester == "" || results[i].semester == semester)
                 && item == GpaItem(results[i].point, courses[results[i].courseId].unit);
        assert rest[i - 1] == results[i];
      }
    }
  }

  /**
   * A new result of another student, or of another semester when one is
   * asked for, leaves a student's GPA as it was.
   */
  lemma StudentGpaUnaffected(results: seq<Result>, courses: seq<Course>, r: Result, studentId: nat, semester: string)
    requires CoursesResolve(courses, results + [r])
    requires r.studentId != studentId || (semester != "" && r.semester != semester)
    ensures CoursesResolve(courses, results)
    ensures StudentGpa(results + [r], courses, studentId, semester) == StudentGpa(results, courses, studentId, semester)
  {
    StudentItemsAppend(results, [r], courses, studentId, semester);
    assert (results + [r])[|results|] == r;
    StudentItemsSingle(r, courses, studentId, semester);
    assert StudentItems(results, courses, studentId, semester) + [] == StudentItems(results, courses, studentId, semester);
  }

  /**
   * Bounds on the stored grade points and non-negative course units carry
   * over to the items the GPA is computed from.
   */
  lemma StudentItemsBounded(results: seq<Result>, courses: seq<Course>, studentId: nat, semester: string, lo: real, hi: real)
    requires CoursesResolve(courses, results)
    requires forall i :: 0 <= i < |results| ==> lo <= results[i].point <= hi
    requires forall c :: 0 <= c < |courses| ==> courses[c].unit >= 0
    ensures PointsWithin(StudentItems(results, courses, studentId, semester), lo, hi)
    ensures UnitsNonNegative(StudentItems(results, courses, studentId, semester))
  {
    var items := StudentItems(results, courses, studentId, semester);
    forall k | 0 <= k < |items|
      ensures lo <= items[k].point <= hi && items[k].unit >= 0
    {
      assert items[k] in items;
      StudentItemsMembership(results, courses, studentId, semester, items[k]);
    }
  }

  /**
   * In a store of scored results whose course units are not negative, a
   * student's GPA is on the 0..5 scale, with or without a semester filter.
   */
  lemma StudentGpaOnScale(results: seq<Result>, courses: seq<Course>, studentId: nat, semester: string)
    requires CoursesResolve(courses, results)
    requires forall i :: 0 <= i < |results| ==> Scored(results[i])
    requires forall c :: 0 <= c < |courses| ==> courses[c].unit >= 0
    ensures 0.0 <= StudentGpa(results, courses, studentId, semester) <= 5.0
  {
    forall i | 0 <= i < |results|
      ensures 0.0 <= results[i].point <= 5.0
    {
      GradePointRange(results[i].total);
    }
    StudentItemsBounded(results, courses, studentId, semester, 0.0, 5.0);
    GpaOnScale(StudentItems(results, courses, studentId, semester));
  }
}
