/**
 * Grouping the queried rows by student, as the admin dashboard and the
 * export do: a dictionary keyed by student id, kept in first-seen order,
 * whose entries hold the student and a course-code-to-total map in which a
 * later row for the same course overwrites an earlier one; the export also
 * collects the set of all course codes seen.
 */
module Grouping {
  import opened Records
  import opened ResultQuery

  /** A dictionary entry: the student and its course-code-to-total map. */
  datatype Group = Group(student: Student, totals: map<string, real>)

  /** The dictionary's keys in insertion order. */
  function FirstSeen(rows: seq<Row>): (order: seq<nat>)
    ensures forall i, j :: 0 <= i < j < |order| ==> order[i] != order[j]
  {
    if rows == [] then []
    else
      var order := FirstSeen(rows[..|rows| - 1]);
      var sid := StudentIdOf(rows[|rows| - 1]);
      if sid in order then order else order + [sid]
  }

  /** The dictionary after the rows have been processed in order. */
  function Grouped(rows: seq<Row>): map<nat, Group>
  {
    if rows == [] then map[]
    else
      var groups := Grouped(rows[..|rows| - 1]);
      var row := rows[|rows| - 1];
      var sid := StudentIdOf(row);
      var g := if sid in groups then groups[sid] else Group(row.student, map[]);
      groups[sid := g.(totals := g.totals[row.course.code := row.result.total])]
  }

  /** The set of all course codes seen. */
  function CourseCodes(rows: seq<Row>): set<string>
  {
    if rows == [] then {}
    else CourseCodes(rows[..|rows| - 1]) + {rows[|rows| - 1].course.code}
  }

  /** The insertion order lists exactly the students that occur in the rows. */
  lemma {:induction false} FirstSeenMembers(rows: seq<Row>)
    ensures forall sid :: sid in FirstSeen(rows) <==> exists q :: 0 <= q < |rows| && StudentIdOf(rows[q]) == sid
  {
    if rows != [] {
      var init := rows[..|rows| - 1];
      FirstSeenMembers(init);
      assert forall q :: 0 <= q < |init| ==> init[q] == rows[q];
    }
  }

  /** The dictionary has an entry for exactly the students of the insertion order. */
  lemma {:induction false} GroupedKeys(rows: seq<Row>)
    ensures forall sid :: sid in Grouped(rows) <==> sid in FirstSeen(rows)
  {
    if rows != [] {
      GroupedKeys(rows[..|rows| - 1]);
    }
  }

  /** The collected codes are exactly the course codes of the rows. */
  lemma {:induction false} CourseCodesMembers(rows: seq<Row>)
    ensures forall code :: code in CourseCodes(rows) <==> exists q :: 0 <= q < |rows| && rows[q].course.code == code
  {
    if rows != [] {
      var init := rows[..|rows| - 1];
      CourseCodesMembers(init);
      assert forall q :: 0 <= q < |init| ==> init[q] == rows[q];
    }
  }

  /** Some row before position `q` belongs to student `sid`. */
  ghost predicate SeenBefore(rows: seq<Row>, sid: nat, q: int)
  {
    exists p :: 0 <= p < q && p < |rows| && StudentIdOf(rows[p]) == sid
  }

  /**
   * First-seen order: wherever a student listed later occurs in the rows, a
   * student listed earlier has already occurred.
   */
  lemma {:induction false} FirstSeenOrder(rows: seq<Row>, i: nat, j: nat, q: nat)
    requires i < j < |FirstSeen(rows)|
    requires q < |rows| && StudentIdOf(rows[q]) == FirstSeen(rows)[j]
    ensures SeenBefore(rows, FirstSeen(rows)[i], q)
  {
    var n := |rows| - 1;
    var init := rows[..n];
    var prev := FirstSeen(init);
    var sid := StudentIdOf(rows[n]);
    var order := FirstSeen(rows);
    assert forall p :: 0 <= p < n ==> init[p] == rows[p];
    if sid in prev {
      assert order == prev;
      if q < n {
        FirstSeenOrder(init, i, j, q);
      } else {
        FirstSeenMembers(init);
        assert prev[i] in prev;
        var p :| 0 <= p < n && StudentIdOf(init[p]) == prev[i];
      }
    } else {
      assert order == prev + [sid];
      if j < |prev| {
        if q < n {
          FirstSeenOrder(init, i, j, q);
        } else {
          assert false;
        }
      } else if q == n {
        FirstSeenMembers(init);
        assert prev[i] in prev;
        var p :| 0 <= p < n && StudentIdOf(init[p]) == prev[i];
      } else {
        // rows[q] is among the earlier rows, yet its student was not seen.
        FirstSeenMembers(init);
        assert false;
      }
    }
  }

  /** A student's entry holds the student of the first row for that student. */
  lemma {:induction false} GroupedStudent(rows: seq<Row>, q: nat)
    requires q < |rows|
    requires !SeenBefore(rows, StudentIdOf(rows[q]), q)
    ensures StudentIdOf(rows[q]) in Grouped(rows)
    ensures Grouped(rows)[StudentIdOf(rows[q])].student == rows[q].student
  {
    var n := |rows| - 1;
    var init := rows[..n];
    assert forall p :: 0 <= p < n ==> init[p] == rows[p];
    var sid := StudentIdOf(rows[q]);
    forall p | 0 <= p < q && p < n
      ensures StudentIdOf(init[p]) != sid
    {
      assert init[p] == rows[p];
    }
    if q < n {
      GroupedStudent(init, q);
    } else {
      GroupedKeys(init);
      FirstSeenMembers(init);
      assert sid !in Grouped(init);
    }
  }

  /** A student's course map has exactly the course codes of that student's rows as keys. */
  lemma {:induction false} GroupedCodes(rows: seq<Row>, sid: nat, code: string)
    requires sid in Grouped(rows)
    ensures code in Grouped(rows)[sid].totals <==>
            exists q :: 0 <= q < |rows| && StudentIdOf(rows[q]) == sid && rows[q].course.code == code
  {
    var n := |rows| - 1;
    var init := rows[..n];
    assert forall p :: 0 <= p < n ==> init[p] == rows[p];
    if sid in Grouped(init) {
      GroupedCodes(init, sid, code);
    } else {
      GroupedKeys(init);
      FirstSeenMembers(init);
    }
  }

  /** Latest wins: a course's entry is the total of the last row for that student and course. */
  lemma {:induction false} GroupedLastWins(rows: seq<Row>, q: nat)
    requires q < |rows|
    requires forall p :: q < p < |rows| ==>
               StudentIdOf(rows[p]) != StudentIdOf(rows[q]) || rows[p].course.code != rows[q].course.code
    ensures StudentIdOf(rows[q]) in Grouped(rows)
    ensures var g := Grouped(rows)[StudentIdOf(rows[q])];
            rows[q].course.code in g.totals && g.totals[rows[q].course.code] == rows[q].result.total
  {
    var n := |rows| - 1;
    var init := rows[..n];
    assert forall p :: 0 <= p < n ==> init[p] == rows[p];
    if q < n {
      GroupedLastWins(init, q);
    }
  }

  /** Every student of the insertion order has an entry in the dictionary. */
  lemma OrderInGroups(rows: seq<Row>)
    ensures forall i :: 0 <= i < |FirstSeen(rows)| ==> FirstSeen(rows)[i] in Grouped(rows)
  {
    GroupedKeys(rows);
    var order := FirstSeen(rows);
    forall i | 0 <= i < |order|
      ensures order[i] in Grouped(rows)
    {
      assert order[i] in order;
    }
  }

  /** Processing one more row: the three folds advance by that row. */
  lemma PrefixStep(rows: seq<Row>, i: nat)
    requires i < |rows|
    ensures var pre, r := rows[..i], rows[i];
            var sid, prev, groups := StudentIdOf(r), FirstSeen(pre), Grouped(pre);
            var g := if sid in groups then groups[sid] else Group(r.student, map[]);
            && (sid in prev <==> sid in groups)
            && FirstSeen(rows[..i + 1]) == (if sid in prev then prev else prev + [sid])
            && Grouped(rows[..i + 1]) == groups[sid := g.(totals := g.totals[r.course.code := r.result.total])]
            && CourseCodes(rows[..i + 1]) == CourseCodes(pre) + {r.course.code}
  {
    GroupedKeys(rows[..i]);
    var next := rows[..i + 1];
    assert next[..i] == rows[..i] && next[i] == rows[i];
  }

  /**
   * The loop of both admin pages: one pass over the rows that fills the
   * dictionary, remembers its insertion order and collects the course codes.
   */
  method GroupByStudent(rows: seq<Row>) returns (order: seq<nat>, groups: map<nat, Group>, allCourses: set<string>)
    ensures order == FirstSeen(rows)
    ensures groups == Grouped(rows)
    ensures allCourses == CourseCodes(rows)
  {
    order, groups, allCourses := [], map[], {};
    for i := 0 to |rows|
      invariant order == FirstSeen(rows[..i])
      invariant groups == Grouped(rows[..i])
      invariant allCourses == CourseCodes(rows[..i])
    {
      PrefixStep(rows, i);
      var r := rows[i];
      var sid := r.result.studentId;
      var code := r.course.code;
      allCourses := allCourses + {code};
      if sid !in groups {
        groups := groups[sid := Group(r.student, map[])];
        order := order + [sid];
      }
      var g := groups[sid];
      groups := groups[sid := g.(totals := g.totals[code := r.result.total])];
    }
    assert rows[..|rows|] == rows;
  }
}
