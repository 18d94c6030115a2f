# Result processing: grading, GPA, result entry and the admin reports

A Dafny model of the scoring and aggregation core of a small school
result-processing web application (`app.py`). The model covers:

- the grading ladder that turns a total score into a letter grade and a grade point;
- the unit-weighted grade point average;
- result entry, which gets or creates the student and the course, scores the
  result, rejects a second result for the same student, course, semester and
  session, and stores it otherwise;
- the admin dashboard, which groups the joined results by student and gives
  each student's GPA;
- the spreadsheet export, which filters, groups, sorts the course codes into a
  header, writes one row per student and names the file.

Modules, one per file:

| file | module | what it holds |
|---|---|---|
| grading.dfy | `Grading` | `CalculateGrade` and an independent threshold-counting description of it |
| gpa.dfy | `Gpa` | `CalculateGpa`, its order independence and its bounds |
| records.dfy | `Records` | students, courses, results, `.first()` lookups, get-or-create, the store invariant |
| entry.dfy | `ResultEntry` | the `ResultStore` class and `EnterResult` |
| query.dfy | `ResultQuery` | the joined and filtered result query, per-student GPA items |
| grouping.dfy | `Grouping` | the grouping loop and the folds that specify it |
| collation.dfy | `Collation` | Python's string order and `sorted` on a set of codes |
| dashboard.dfy | `Dashboard` | the admin dashboard: grouped students with totals and GPA |
| export.dfy | `Export` | the worksheet rows and the file name |

Representation choices:

- Scores, totals and grade points are exact `real`s. GPA is the exact quotient.
- A student's or a course's id is its position in the store's sequence. The
  database numbers rows from 1, but only equality of ids matters to the logic.
- A database `.join()` is an inner join. A result whose student or course id
  does not resolve is dropped from the joined rows.
- Query results come back in store (insertion) order. The queries in the
  application have no `ORDER BY`; this model fixes the order a simple table
  scan returns.
- A Python dict that keeps insertion order is a `map` with a `seq` of its keys.
- Form fields arrive already converted: `courseUnit` is an `int`, and `ca` and
  `exam` are `real`s.

## Model

| member | source | states |
|---|---|---|
| Grading.CalculateGrade | app.py:80-92 | the grade is one of the six pairs (F,0) (E,1) (D,2) (C,3) (B,4) (A,5): the point is the index of the letter |
| Grading.GradeByThresholds | app.py:80-92 | the ladder equals counting the inclusive thresholds 40, 45, 50, 60, 70 reached by the total: the point is that count and the letter is the count's letter |
| Grading.ReachedMonotone | app.py:80-92 | a larger total reaches at least as many thresholds |
| Grading.GradePointMonotone | app.py:80-92 | a higher total never earns a lower grade point |
| Grading.GradePointRange | app.py:80-92 | a grade point is always one of 0, 1, 2, 3, 4, 5 |
| Gpa.CalculateGpa | app.py:94-99 | 0 for an empty list, 0 when the unit sum is not positive (no division by zero), otherwise GPA × unit sum = Σ point × unit |
| Gpa.TotalsAppend | app.py:97-98 | both sums distribute over concatenation of result lists |
| Gpa.TotalsPermutation | app.py:97-98 | two result lists with the same multiset of results have the same point and unit sums |
| Gpa.GpaOrderIndependent | app.py:94-99 | the GPA does not depend on the order of the results |
| Gpa.WeightedSumBetween | app.py:97-98 | with non-negative units and points in [lo, hi], lo × Σunit ≤ Σ point × unit ≤ hi × Σunit |
| Gpa.GpaBetween | app.py:94-99 | with non-negative units of positive sum, the GPA lies within any bounds of the grade points |
| Gpa.GpaOnScale | app.py:94-99 | with points on the 0..5 scale and non-negative units, the GPA is in [0, 5] |
| Gpa.MinPoint | app.py:97 | the smallest grade point of a non-empty list: it occurs in the list and no point is below it |
| Gpa.MaxPoint | app.py:97 | the largest grade point of a non-empty list: it occurs in the list and no point is above it |
| Gpa.GpaBetweenExtremes | app.py:94-99 | with non-negative units of positive sum, min point ≤ GPA ≤ max point |
| Records.FirstWhere | app.py:171 | a `.first()` lookup: the index found satisfies the filter and no earlier element does; none found means no element does |
| Records.LookupOrAppend | app.py:169-194 | get-or-create: an existing match is returned with the table unchanged; otherwise the new record is appended and its id is the old length; the returned id always satisfies the filter |
| Records.LookupAgain | app.py:169-194 | get-or-create is idempotent: a second lookup returns the table and id of the first |
| Records.FirstWhereFinds | app.py:203-210 | a stored element that matches makes `.first()` succeed at or before it |
| ResultEntry.Scoring | app.py:196-226 | the stored row has total = ca + exam, grade and point from the ladder for that total, the found student and course ids, the form's semester and session, and the entering user |
| ResultEntry.MatricsStayUnique | app.py:169-181 | looking up or creating the student by matric number keeps matric numbers unique, as the column's unique constraint demands |
| ResultEntry.CodesStayUnique | app.py:183-194 | looking up or creating the course by code keeps course codes unique, as the column's unique constraint demands |
| ResultEntry.EntryKeepsInvariant | app.py:167-228 | entering a form whose key is not taken keeps references resolved, matric numbers, course codes and result keys unique, and every row scored |
| ResultEntry.ResultStore.EnterResult | app.py:167-228 | rejected exactly when a result with the same student, course, semester and session exists; then the whole store is unchanged and the student and course already existed; otherwise student and course are got-or-created and exactly the scored row is appended; the store invariant is kept |
| ResultEntry.SubmitTwice | app.py:202-212 | submitting the same form twice in a row: the second submission is always rejected; if the first was entered, the table is the old one plus exactly that form's scored row, otherwise it is unchanged |
| ResultQuery.JoinRow | app.py:240-245 | a result joins exactly when both its student id and its course id resolve, and the joined row carries the result, the student it refers to and the course it refers to |
| ResultQuery.Query | app.py:305-322 | the query returns no more rows than there are stored results, and every row passes each non-empty level, department and semester filter |
| ResultQuery.QueryAppend | app.py:305-322 | the query keeps store order and multiplicity: the rows of two stretches of the table, one after the other, are the rows of the whole |
| ResultQuery.QueryMembership | app.py:305-322 | a row is in the query exactly when it is the join of some stored result and passes the filters |
| ResultQuery.QueryUnfiltered | app.py:240-245 | with no filter and resolving references, the query is the whole result table joined, row for row |
| ResultQuery.StoreResolvesCourses | app.py:97 | every store that keeps the entry invariant has a resolving course for each result, which the GPA queries need |
| ResultQuery.StudentItems | app.py:356-360 | the per-student GPA query returns no more items than there are results, and is empty exactly when no stored result is the student's in the asked-for semester (any semester when none is given) |
| ResultQuery.StudentGpa | app.py:355-361 | a student none of whose results is kept has GPA 0.0 |
| ResultQuery.StudentItemsAppend | app.py:264-266 | the per-student GPA query distributes over two stretches of the result table, keeping store order |
| ResultQuery.StudentItemsSingle | app.py:356-360 | one result contributes its grade point and course unit exactly when it is the student's and, if a semester is given, of that semester |
| ResultQuery.StudentItemsMembership | app.py:356-360 | an item is in the per-student GPA query exactly when it is the point and unit of a stored result of that student passing the semester filter |
| ResultQuery.StudentGpaUnaffected | app.py:263-267 | a new result of another student, or of another semester when one is asked for, leaves a student's GPA unchanged |
| ResultQuery.StudentItemsBounded | app.py:263-266 | the items a student's GPA is computed from keep the bounds of the stored grade points and the non-negativity of course units |
| ResultQuery.StudentGpaOnScale | app.py:355-361 | in a store of scored results with non-negative course units, a student's GPA, with or without a semester filter, is in [0, 5] |
| Grouping.FirstSeen | app.py:324-338 | the dictionary's key order lists no student twice |
| Grouping.FirstSeenMembers | app.py:327-336 | the key order lists exactly the students that occur in the rows |
| Grouping.GroupedKeys | app.py:327-336 | the dictionary has an entry for exactly the students of the key order |
| Grouping.CourseCodesMembers | app.py:325-330 | the collected code set is exactly the course codes of the rows |
| Grouping.FirstSeenOrder | app.py:324-338 | a student listed earlier in the key order occurs in the rows before any occurrence of a student listed later |
| Grouping.GroupedStudent | app.py:332-336 | a student's entry holds the student of that student's first row |
| Grouping.GroupedCodes | app.py:338 | a student's course map has exactly the course codes of that student's rows as keys |
| Grouping.GroupedLastWins | app.py:338 | a course's total in a student's map is the total of the last row for that student and course |
| Grouping.OrderInGroups | app.py:353 | every student of the key order has an entry in the dictionary |
| Grouping.PrefixStep | app.py:326-338 | processing one more row adds its code, adds its student to the key order only if it was new, and sets that course's total in that student's map |
| Grouping.GroupByStudent | app.py:247-260 | the grouping loop produces exactly the key order, the dictionary and the code set that the folds above describe |
| Collation.BelowTransitive | app.py:342 | Python's string order is transitive |
| Collation.BelowTotal | app.py:342 | of two different strings, one is below the other |
| Collation.Least | app.py:342 | the least code of a non-empty set is in the set and below every other element |
| Collation.Sorted | app.py:342 | `sorted` on a set of codes: strictly ascending, as long as the set, and containing exactly the set's codes |
| Collation.SortedUnique | app.py:342-369 | a set has one strictly ascending listing, so the header and every row put the codes in the same order |
| Export.CourseCell | app.py:370-374 | a course column shows the student's total for that code, and "-" exactly when the student has none |
| Export.HeaderRow | app.py:341-343 | the header is Matric No, Student Name, Department, Level, the course codes in the given order, then GPA |
| Export.WriteRow | app.py:363-377 | a student's row is matric, name, department, level, one course cell per code in header order, then the GPA |
| Export.ReplaceSpaces | app.py:393 | `replace(" ", "_")` keeps the length, turns each space into "_" and keeps every other character |
| Export.ReplaceSpacesAppend | app.py:393 | replacing spaces distributes over concatenation |
| Export.NoSpaceLeft | app.py:393 | no space survives the replacement |
| Export.ReplaceInJoin | app.py:393 | on a join of space-free separators and fields, the replacement only touches the fields |
| Export.ExportFilename | app.py:393 | the file name is 15 characters longer than the three filter values together and contains no space |
| Export.ExportFilenameShape | app.py:393 | the file name is "Results_", department, "_", level, "_", semester, ".xlsx" with spaces in the filters turned into "_", and contains no space |
| Dashboard.Summarize | app.py:262-267 | one dashboard entry per student in key order, holding the student, its course totals and its GPA over all its results |
| Dashboard.AdminDashboard | app.py:236-272 | the dashboard lists every student of the unfiltered joined results once, in first-seen order, each with its grouped totals and its GPA over all its results |
| Export.WriteSheet | app.py:341-378 | the header followed by one row per student in key order, all of the header's length, each with its totals and its GPA |
| Export.ExportExcel | app.py:295-393 | the sheet has one header row of sorted course codes and one row per filtered student in first-seen order, all of one length; each row's GPA uses only the semester filter; the file name is the filters' one |

## Left out

- Flask routing, sessions, login and admin checks, flash messages, redirects and templates: these are web plumbing around the core.
- Password hashing, registration and login: they do not touch the results.
- The database engine. Queries are modelled over snapshots of the three tables, and `flush`, `commit` and rollback as the assignment or not of the new tables. Two concurrent entries racing between the duplicate check and the insert are not modelled.
- `manage_courses` and the teacher dashboard's counts: they are outside the scoring and aggregation core.
- Gpa.CalculateGpa: the GPA is the exact quotient. The source's `round(..., 2)` and binary floating point are not modelled; neither is the IEEE addition of `ca + exam`.
- ResultEntry.ResultStore.EnterResult: a malformed number in the form (`int()` or `float()` raising) is not modelled; the form arrives converted.
- Export.ExportExcel: cell fills, fonts, alignment, column widths, the workbook bytes and the download response are not modelled; the sheet is a sequence of cell rows.
- ResultQuery.StudentGpa: the application raises an AttributeError at app.py:97 when a student on a page has a result whose course does not exist; the GPA queries require every result's course to resolve instead, which every store built by result entry satisfies (`StoreResolvesCourses`).
- Grading and GPA bounds: course units are not validated by the application, so the [0, 5] range of a GPA is proved under non-negative units only; a negative unit can move the GPA outside that range.
- Query order: the model assumes rows come back in insertion order, which is what "first seen" refers to; the application does not ask for an order.
