/**
 * The admin dashboard: every result joined with its student and course,
 * grouped by student in first-seen order, each student listed with its
 * course totals and its GPA over all of its results.
 */
module Dashboard {
  import opened Records
  import opened ResultQuery
  import opened Grouping

  /** A dashboard entry: the student, its course totals and its GPA. */
  datatype Summary = Summary(student: Student, totals: map<string, real>, gpa: real)

  /** The dashboard's loop: one entry per student of the order, with the GPA over all its results. */
  method Summarize(results: seq<Result>, courses: seq<Course>, order: seq<nat>, groups: map<nat, Group>)
    returns (summaries: seq<Summary>)
    requires CoursesResolve(courses, results)
    requires forall i :: 0 <= i < |order| ==> order[i] in groups
    ensures |summaries| == |order|
    ensures forall i :: 0 <= i < |order| ==>
              summaries[i] == Summary(groups[order[i]].student, groups[order[i]].totals,
                                      StudentGpa(results, courses, order[i], ""))
  {
    summaries := [];
    for i := 0 to |order|
      invariant |summaries| == i
      invariant forall m :: 0 <= m < i ==>
                  summaries[m] == Summary(groups[order[m]].student, groups[order[m]].totals,
                                          StudentGpa(results, courses, order[m], ""))
    {
      var data := groups[order[i]];
      summaries := summaries + [Summary(data.student, data.totals, StudentGpa(results, courses, order[i], ""))];
    }
  }

  /**
   * The admin dashboard: every result joined with its student and course,
   * grouped by student in first-seen order; each student's GPA is taken
   * over all of that student's results.
   */
  method AdminDashboard(students: seq<Student>, courses: seq<Course>, results: seq<Result>)
    returns (summaries: seq<Summary>)
    requires CoursesResolve(courses, results)
    ensures var rows := Query(students, courses, results, NoFilter);
            var order, groups := FirstSeen(rows), Grouped(rows);
            && |summaries| == |order|
            && forall i :: 0 <= i < |order| ==>
                 order[i] in groups &&
                 summaries[i] == Summary(groups[order[i]].student, groups[order[i]].totals,
                                         StudentGpa(results, courses, order[i], ""))
  {
    var rows := Query(students, courses, results, NoFilter);
    var order, groups, _ := GroupByStudent(rows);
    OrderInGroups(rows);
    summaries := Summarize(results, courses, order, groups);
  }
}
