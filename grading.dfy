/**
 * The grading ladder: a total score (continuous assessment plus exam) is
 * mapped to a letter grade and a grade point. Scores are not validated, so
 * negative totals and totals above 100 fall through the same ladder.
 */
module Grading {

  datatype Grade = Grade(letter: string, point: real)

  /** Inclusive lower bounds of the E, D, C, B and A bands, ascending. */
  const Thresholds: seq<real> := [40.0, 45.0, 50.0, 60.0, 70.0]

  /** Letters[k] is the letter of a total that reaches exactly k thresholds. */
  const Letters: seq<string> := ["F", "E", "D", "C", "B", "A"]

  function CalculateGrade(total: real): (g: Grade)
    ensures exists k :: 0 <= k < |Letters| && g == Grade(Letters[k], k as real)
  {
    if total >= 70.0 then
      assert Grade("A", 5.0) == Grade(Letters[5], 5 as real);
      Grade("A", 5.0)
    else if total >= 60.0 then
      assert Grade("B", 4.0) == Grade(Letters[4], 4 as real);
      Grade("B", 4.0)
    else if total >= 50.0 then
      assert Grade("C", 3.0) == Grade(Letters[3], 3 as real);
      Grade("C", 3.0)
    else if total >= 45.0 then
      assert Grade("D", 2.0) == Grade(Letters[2], 2 as real);
      Grade("D", 2.0)
    else if total >= 40.0 then
      assert Grade("E", 1.0) == Grade(Letters[1], 1 as real);
      Grade("E", 1.0)
    else
      assert Grade("F", 0.0) == Grade(Letters[0], 0 as real);
      Grade("F", 0.0)
  }

  /** The number of thresholds that `total` reaches. */
  function Reached(thresholds: seq<real>, total: real): (n: nat)
    ensures n <= |thresholds|
  {
    if thresholds == [] then 0
    else (if thresholds[0] <= total then 1 else 0) + Reached(thresholds[1..], total)
  }

  /**
   * An independent description of the ladder: the grade point is the number
   * of band thresholds the total reaches, and the letter is the one for
   * that count.
   */
  lemma {:induction false} GradeByThresholds(total: real)
    ensures var n := Reached(Thresholds, total);
            CalculateGrade(total) == Grade(Letters[n], n as real)
  {
    var t := Thresholds;
    assert Reached([70.0], total) == if total >= 70.0 then 1 else 0 by {
      assert [70.0][1..] == [];
    }
    assert Reached([60.0, 70.0], total) == (if total >= 60.0 then 1 else 0) + Reached([70.0], total) by {
      assert [60.0, 70.0][1..] == [70.0];
    }
    assert Reached([50.0, 60.0, 70.0], total) == (if total >= 50.0 then 1 else 0) + Reached([60.0, 70.0], total) by {
      assert [50.0, 60.0, 70.0][1..] == [60.0, 70.0];
    }
    assert Reached([45.0, 50.0, 60.0, 70.0], total) == (if total >= 45.0 then 1 else 0) + Reached([50.0, 60.0, 70.0], total) by {
      assert [45.0, 50.0, 60.0, 70.0][1..] == [50.0, 60.0, 70.0];
    }
    assert Reached(t, total) == (if total >= 40.0 then 1 else 0) + Reached([45.0, 50.0, 60.0, 70.0], total) by {
      assert t[1..] == [45.0, 50.0, 60.0, 70.0];
    }
  }

  /** Reaching thresholds is monotone in the total. */
  lemma {:induction false} ReachedMonotone(thresholds: seq<real>, x: real, y: real)
    requires x <= y
    ensures Reached(thresholds, x) <= Reached(thresholds, y)
  {
    if thresholds != [] {
      ReachedMonotone(thresholds[1..], x, y);
    }
  }

  /** A higher total never earns a lower grade point. */
  lemma GradePointMonotone(x: real, y: real)
    requires x <= y
    ensures CalculateGrade(x).point <= CalculateGrade(y).point
  {
    GradeByThresholds(x);
    GradeByThresholds(y);
    ReachedMonotone(Thresholds, x, y);
  }

  /** The grade point is one of 0, 1, 2, 3, 4, 5. */
  lemma GradePointRange(total: real)
    ensures var p := CalculateGrade(total).point;
            p == 0.0 || p == 1.0 || p == 2.0 || p == 3.0 || p == 4.0 || p == 5.0
  {
  }
}
