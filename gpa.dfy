/**
 * The grade point average of a list of results: the mean of the grade
 * points weighted by the course units. The average is kept exact; the
 * two-decimal rounding of the application is not modelled.
 */
module Gpa {

  /** What the average needs of one result: its grade point and its course's unit. */
  datatype GpaItem = GpaItem(point: real, unit: int)

  /** A result's share of the weighted sum: its grade point times its course unit. */
  function Weighted(item: GpaItem): real
  {
    item.point * (item.unit as real)
  }

  /** Sum of grade point times course unit. */
  function TotalPoints(items: seq<GpaItem>): real
  {
    if items == [] then 0.0
    else Weighted(items[0]) + TotalPoints(items[1..])
  }

  /** Sum of course units. */
  function TotalUnits(items: seq<GpaItem>): int
  {
    if items == [] then 0
    else items[0].unit + TotalUnits(items[1..])
  }

  /**
   * The weighted average. It is 0.0 for an empty list and whenever the units
   * do not add up to something positive, so it never divides by zero.
   */
  function CalculateGpa(items: seq<GpaItem>): (gpa: real)
    ensures items == [] ==> gpa == 0.0
    ensures TotalUnits(items) <= 0 ==> gpa == 0.0
    ensures TotalUnits(items) > 0 ==> gpa * (TotalUnits(items) as real) == TotalPoints(items)
  {
    if items == [] then 0.0
    else
      var units := TotalUnits(items);
      if units > 0 then TotalPoints(items) / (units as real) else 0.0
  }

  lemma {:induction false} TotalsAppend(a: seq<GpaItem>, b: seq<GpaItem>)
    ensures TotalPoints(a + b) == TotalPoints(a) + TotalPoints(b)
    ensures TotalUnits(a + b) == TotalUnits(a) + TotalUnits(b)
  {
    if a == [] {
      assert a + b == b;
    } else {
      assert (a + b)[0] == a[0];
      assert (a + b)[1..] == a[1..] + b;
      TotalsAppend(a[1..], b);
    }
  }

  /** Taking the i-th result out of the list takes its share out of both sums. */
  lemma TotalsRemove(b: seq<GpaItem>, i: nat)
    requires i < |b|
    ensures TotalPoints(b) == Weighted(b[i]) + TotalPoints(b[..i] + b[i + 1..])
    ensures TotalUnits(b) == b[i].unit + TotalUnits(b[..i] + b[i + 1..])
  {
    var pre, post := b[..i], b[i + 1..];
    var tail := [b[i]] + post;
    assert b == pre + tail;
    TotalsAppend(pre, tail);
    assert tail[0] == b[i] && tail[1..] == post;
    assert TotalPoints(tail) == Weighted(b[i]) + TotalPoints(post);
    assert TotalUnits(tail) == b[i].unit + TotalUnits(post);
    TotalsAppend(pre, post);
  }

  lemma MultisetRemove(a: seq<GpaItem>, b: seq<GpaItem>, i: nat)
    requires multiset(a) == multiset(b) && a != [] && i < |b| && b[i] == a[0]
    ensures multiset(a[1..]) == multiset(b[..i] + b[i + 1..])
  {
    var x := a[0];
    assert a == [x] + a[1..];
    assert b == b[..i] + [x] + b[i + 1..];
    var rest := b[..i] + b[i + 1..];
    assert multiset(b) == multiset(b[..i]) + multiset{x} + multiset(b[i + 1..]);
    assert multiset(rest) == multiset(b[..i]) + multiset(b[i + 1..]);
    assert multiset(a) == multiset{x} + multiset(a[1..]);
    assert multiset(a[1..]) == multiset(a) - multiset{x};
    assert multiset(rest) == multiset(b) - multiset{x};
  }

  /** Both sums, hence the average, do not depend on the order of the results. */
  lemma {:induction false} TotalsPermutation(a: seq<GpaItem>, b: seq<GpaItem>)
    requires multiset(a) == multiset(b)
    ensures TotalPoints(a) == TotalPoints(b)
    ensures TotalUnits(a) == TotalUnits(b)
    decreases |a|
  {
    if a == [] {
      assert |b| == |multiset(b)| == 0;
    } else {
      assert a[0] in multiset(b) by {
        assert a[0] in multiset(a);
      }
      var i :| 0 <= i < |b| && b[i] == a[0];
      MultisetRemove(a, b, i);
      TotalsPermutation(a[1..], b[..i] + b[i + 1..]);
      TotalsRemove(b, i);
    }
  }

  lemma GpaOrderIndependent(a: seq<GpaItem>, b: seq<GpaItem>)
    requires multiset(a) == multiset(b)
    ensures CalculateGpa(a) == CalculateGpa(b)
  {
    TotalsPermutation(a, b);
  }

  ghost predicate PointsWithin(items: seq<GpaItem>, lo: real, hi: real)
  {
    forall i :: 0 <= i < |items| ==> lo <= items[i].point <= hi
  }

  ghost predicate UnitsNonNegative(items: seq<GpaItem>)
  {
    forall i :: 0 <= i < |items| ==> items[i].unit >= 0
  }

  lemma ScaleBetween(p: real, u: real, lo: real, hi: real)
    requires lo <= p <= hi && u >= 0.0
    ensures lo * u <= p * u <= hi * u
  {
  }

  lemma AddBounds(l1: real, x1: real, h1: real, l2: real, x2: real, h2: real)
    requires l1 <= x1 <= h1 && l2 <= x2 <= h2
    ensures l1 + l2 <= x1 + x2 <= h1 + h2
  {
  }

  lemma Distribute(c: real, x: real, y: real)
    ensures c * (x + y) == c * x + c * y
  {
  }

  lemma Quotient(p: real, u: real, g: real, lo: real, hi: real)
    requires u > 0.0 && g * u == p && lo * u <= p <= hi * u
    ensures lo <= g <= hi
  {
  }

  /** One step of the induction below: adding a result keeps the weighted sum within the bounds. */
  lemma BoundsStep(lo: real, hi: real, p: real, u: real, rest: real, wrest: real, total: real)
    requires lo <= p <= hi && u >= 0.0
    requires lo * rest <= wrest <= hi * rest
    requires total == u + rest
    ensures lo * total <= p * u + wrest <= hi * total
  {
    ScaleBetween(p, u, lo, hi);
    Distribute(lo, u, rest);
    Distribute(hi, u, rest);
    AddBounds(lo * u, p * u, hi * u, lo * rest, wrest, hi * rest);
  }

  /** With non-negative units the weighted sum is bounded by the unit sum scaled by the bounds. */
  lemma {:induction false} WeightedSumBetween(items: seq<GpaItem>, lo: real, hi: real)
    requires PointsWithin(items, lo, hi) && UnitsNonNegative(items)
    ensures lo * (TotalUnits(items) as real) <= TotalPoints(items) <= hi * (TotalUnits(items) as real)
  {
    if items != [] {
      WeightedSumBetween(items[1..], lo, hi);
      BoundsStep(lo, hi, items[0].point, items[0].unit as real,
                 TotalUnits(items[1..]) as real, TotalPoints(items[1..]), TotalUnits(items) as real);
    }
  }

  /**
   * With non-negative units whose sum is positive, the average lies between
   * any lower and upper bound of the grade points.
   */
  lemma GpaBetween(items: seq<GpaItem>, lo: real, hi: real)
    requires PointsWithin(items, lo, hi) && UnitsNonNegative(items)
    requires TotalUnits(items) > 0
    ensures lo <= CalculateGpa(items) <= hi
  {
    WeightedSumBetween(items, lo, hi);
    Quotient(TotalPoints(items), TotalUnits(items) as real, CalculateGpa(items), lo, hi);
  }

  /** When every grade point is on the 0..5 scale and no unit is negative, so is the average. */
  lemma GpaOnScale(items: seq<GpaItem>)
    requires PointsWithin(items, 0.0, 5.0) && UnitsNonNegative(items)
    ensures 0.0 <= CalculateGpa(items) <= 5.0
  {
    if TotalUnits(items) > 0 {
      GpaBetween(items, 0.0, 5.0);
    }
  }

  /** The smallest grade point of a non-empty list. */
  function MinPoint(items: seq<GpaItem>): (m: real)
    requires items != []
    ensures exists i :: 0 <= i < |items| && items[i].point == m
    ensures forall i :: 0 <= i < |items| ==> m <= items[i].point
  {
    if |items| == 1 then items[0].point
    else
      var m := MinPoint(items[1..]);
      assert forall i :: 1 <= i < |items| ==> items[i] == items[1..][i - 1];
      if items[0].point <= m then items[0].point else m
  }

  /** The largest grade point of a non-empty list. */
  function MaxPoint(items: seq<GpaItem>): (m: real)
    requires items != []
    ensures exists i :: 0 <= i < |items| && items[i].point == m
    ensures forall i :: 0 <= i < |items| ==> items[i].point <= m
  {
    if |items| == 1 then items[0].point
    else
      var m := MaxPoint(items[1..]);
      assert forall i :: 1 <= i < |items| ==> items[i] == items[1..][i - 1];
      if items[0].point >= m then items[0].point else m
  }

  /** The average lies between the smallest and the largest grade point. */
  lemma GpaBetweenExtremes(items: seq<GpaItem>)
    requires UnitsNonNegative(items) && TotalUnits(items) > 0
    ensures items != [] && MinPoint(items) <= CalculateGpa(items) <= MaxPoint(items)
  {
    GpaBetween(items, MinPoint(items), MaxPoint(items));
  }
}
