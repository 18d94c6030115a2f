/**
 * The exported worksheet built from the filtered, grouped rows: a header
 * row, one row per student, a "-" for every course the student has no
 * total for, and a file name made from the filters.
 */
module Export {
  import opened Records
  import opened Collation
  import opened ResultQuery
  import opened Grouping

  /** A worksheet cell: a piece of text or a number. */
  datatype Cell = Text(text: string) | Number(value: real)

  /** What a student lacking a course shows in that course's column. */
  const Missing: Cell := Text("-")

  /** Columns 1 to 4, course codes in the given order, then GPA. */
  ghost predicate IsHeader(h: seq<Cell>, codes: seq<string>)
  {
    && |h| == |codes| + 5
    && h[0] == Text("Matric No") && h[1] == Text("Student Name")
    && h[2] == Text("Department") && h[3] == Text("Level")
    && (forall k :: 0 <= k < |codes| ==> h[k + 4] == Text(codes[k]))
    && h[|codes| + 4] == Text("GPA")
  }

  /** The cell of a course column: the student's total for it, or the placeholder. */
  function CourseCell(totals: map<string, real>, code: string): (c: Cell)
    ensures c == Missing <==> code !in totals
    ensures code in totals ==> c == Number(totals[code])
  {
    if code in totals then Number(totals[code]) else Missing
  }

  /** A student's row lined up under a header with the same course codes. */
  ghost predicate IsDataRow(cells: seq<Cell>, s: Student, totals: map<string, real>, codes: seq<string>, gpa: real)
  {
    && |cells| == |codes| + 5
    && cells[0] == Text(s.matric) && cells[1] == Text(s.fullName)
    && cells[2] == Text(s.department) && cells[3] == Text(s.level)
    && (forall k :: 0 <= k < |codes| ==> cells[k + 4] == CourseCell(totals, codes[k]))
    && cells[|codes| + 4] == Number(gpa)
  }

  function HeaderRow(codes: seq<string>): (h: seq<Cell>)
    ensures IsHeader(h, codes)
  {
    [Text("Matric No"), Text("Student Name"), Text("Department"), Text("Level")]
    + seq(|codes|, k requires 0 <= k < |codes| => Text(codes[k]))
    + [Text("GPA")]
  }

  /** Writes one student's row, column by column. */
  method WriteRow(s: Student, totals: map<string, real>, codes: seq<string>, gpa: real) returns (cells: seq<Cell>)
    ensures IsDataRow(cells, s, totals, codes, gpa)
  {
    cells := [Text(s.matric), Text(s.fullName), Text(s.department), Text(s.level)];
    var colIndex := 5;
    for k := 0 to |codes|
      invariant colIndex == k + 5 && |cells| == colIndex - 1
      invariant cells[0] == Text(s.matric) && cells[1] == Text(s.fullName)
      invariant cells[2] == Text(s.department) && cells[3] == Text(s.level)
      invariant forall m :: 0 <= m < k ==> cells[m + 4] == CourseCell(totals, codes[m])
    {
      cells := cells + [CourseCell(totals, codes[k])];
      colIndex := colIndex + 1;
    }
    cells := cells + [Number(gpa)];
  }

  /** `str.replace(" ", "_")`. */
  function ReplaceSpaces(s: string): (r: string)
    ensures |r| == |s|
    ensures forall i :: 0 <= i < |s| ==> r[i] == if s[i] == ' ' then '_' else s[i]
  {
    if s == [] then []
    else [if s[0] == ' ' then '_' else s[0]] + ReplaceSpaces(s[1..])
  }

  lemma ReplaceSpacesAppend(a: string, b: string)
    ensures ReplaceSpaces(a + b) == ReplaceSpaces(a) + ReplaceSpaces(b)
  {
    var lhs, rhs := ReplaceSpaces(a + b), ReplaceSpaces(a) + ReplaceSpaces(b);
    assert |lhs| == |rhs|;
    forall i | 0 <= i < |lhs|
      ensures lhs[i] == rhs[i]
    {
      if i < |a| {
        assert (a + b)[i] == a[i];
      } else {
        assert (a + b)[i] == b[i - |a|];
      }
    }
  }

  /** `f"Results_{department}_{level}_{semester}.xlsx".replace(" ", "_")`. */
  function ExportFilename(f: Filters): (name: string)
    ensures |name| == |f.department| + |f.level| + |f.semester| + 15
    ensures ' ' !in name
  {
    var joined := "Results_" + f.department + "_" + f.level + "_" + f.semester + ".xlsx";
    NoSpaceLeft(joined);
    ReplaceSpaces(joined)
  }

  lemma KeepsSpaceless(s: string)
    requires ' ' !in s
    ensures ReplaceSpaces(s) == s
  {
  }

  /** No space survives the replacement. */
  lemma NoSpaceLeft(s: string)
    ensures ' ' !in ReplaceSpaces(s)
  {
    var r := ReplaceSpaces(s);
    assert forall i :: 0 <= i < |r| ==> r[i] != ' ';
  }

  /** Replacing spaces in a join of space-free separators and fields replaces them in each field. */
  lemma ReplaceInJoin(prefix: string, d: string, sep: string, l: string, m: string, suffix: string)
    requires ' ' !in prefix && ' ' !in sep && ' ' !in suffix
    ensures ReplaceSpaces(prefix + d + sep + l + sep + m + suffix) ==
            prefix + ReplaceSpaces(d) + sep + ReplaceSpaces(l) + sep + ReplaceSpaces(m) + suffix
  {
    KeepsSpaceless(prefix);
    KeepsSpaceless(sep);
    KeepsSpaceless(suffix);
    calc {
      ReplaceSpaces(prefix + d + sep + l + sep + m + suffix);
      { ReplaceSpacesAppend(prefix + d + sep + l + sep + m, suffix); }
      ReplaceSpaces(prefix + d + sep + l + sep + m) + suffix;
      { ReplaceSpacesAppend(prefix + d + sep + l + sep, m); }
      ReplaceSpaces(prefix + d + sep + l + sep) + ReplaceSpaces(m) + suffix;
      { ReplaceSpacesAppend(prefix + d + sep + l, sep); }
      ReplaceSpaces(prefix + d + sep + l) + sep + ReplaceSpaces(m) + suffix;
      { ReplaceSpacesAppend(prefix + d + sep, l); }
      ReplaceSpaces(prefix + d + sep) + ReplaceSpaces(l) + sep + ReplaceSpaces(m) + suffix;
      { ReplaceSpacesAppend(prefix + d, sep); }
      ReplaceSpaces(prefix + d) + sep + ReplaceSpaces(l) + sep + ReplaceSpaces(m) + suffix;
      { ReplaceSpacesAppend(prefix, d); }
      prefix + ReplaceSpaces(d) + sep + ReplaceSpaces(l) + sep + ReplaceSpaces(m) + suffix;
    }
  }

  /**
   * The file name is "Results_", the department, level and semester joined
   * by "_", and ".xlsx", with every space of the filters turned into "_";
   * an empty filter leaves an empty segment, and no space remains.
   */
  lemma ExportFilenameShape(f: Filters)
    ensures ExportFilename(f) ==
            "Results_" + ReplaceSpaces(f.department) + "_" + ReplaceSpaces(f.level) + "_"
            + ReplaceSpaces(f.semester) + ".xlsx"
    ensures ' ' !in ExportFilename(f)
  {
    ReplaceInJoin("Results_", f.department, "_", f.level, f.semester, ".xlsx");
    NoSpaceLeft("Results_" + f.department + "_" + f.level + "_" + f.semester + ".xlsx");
  }

  /** The export's loop: the header, then one row per student of the order. */
  method WriteSheet(results: seq<Result>, courses: seq<Course>, order: seq<nat>, groups: map<nat, Group>,
                    codes: seq<string>, semester: string)
    returns (sheet: seq<seq<Cell>>)
    requires CoursesResolve(courses, results)
    requires forall i :: 0 <= i < |order| ==> order[i] in groups
    ensures |sheet| == |order| + 1
    ensures IsHeader(sheet[0], codes)
    ensures forall i :: 0 <= i < |sheet| ==> |sheet[i]| == |codes| + 5
    ensures forall i :: 0 <= i < |order| ==>
              IsDataRow(sheet[i + 1], groups[order[i]].student, groups[order[i]].totals, codes,
                        StudentGpa(results, courses, order[i], semester))
  {
    sheet := [HeaderRow(codes)];
    var row := 2;
    for i := 0 to |order|
      invariant row == i + 2 && |sheet| == row - 1
      invariant IsHeader(sheet[0], codes)
      invariant forall m :: 0 <= m < |sheet| ==> |sheet[m]| == |codes| + 5
      invariant forall m :: 0 <= m < i ==>
                  IsDataRow(sheet[m + 1], groups[order[m]].student, groups[order[m]].totals, codes,
                            StudentGpa(results, courses, order[m], semester))
    {
      var data := groups[order[i]];
      var gpa := StudentGpa(results, courses, order[i], semester);
      var cells := WriteRow(data.student, data.totals, codes, gpa);
      sheet := sheet + [cells];
      row := row + 1;
    }
  }

  /**
   * The export: the filtered rows grouped by student, a header with the
   * sorted course codes, one row per student in first-seen order whose GPA
   * is taken over the student's results in the semester filter only (the
   * level and department filters do not apply to it), and the file name.
   */
  method ExportExcel(students: seq<Student>, courses: seq<Course>, results: seq<Result>, f: Filters)
    returns (sheet: seq<seq<Cell>>, filename: string)
    requires CoursesResolve(courses, results)
    ensures var rows := Query(students, courses, results, f);
            var order, groups := FirstSeen(rows), Grouped(rows);
            var codes := Sorted(CourseCodes(rows));
            && |sheet| == |order| + 1
            && IsHeader(sheet[0], codes)
            && (forall i :: 0 <= i < |sheet| ==> |sheet[i]| == |sheet[0]|)
            && forall i :: 0 <= i < |order| ==>
                 order[i] in groups &&
                 IsDataRow(sheet[i + 1], groups[order[i]].student, groups[order[i]].totals, codes,
                           StudentGpa(results, courses, order[i], f.semester))
    ensures filename == ExportFilename(f)
  {
    var rows := Query(students, courses, results, f);
    var order, groups, allCourses := GroupByStudent(rows);
    OrderInGroups(rows);
    sheet := WriteSheet(results, courses, order, groups, Sorted(allCourses), f.semester);
    filename := ExportFilename(f);
  }
}
