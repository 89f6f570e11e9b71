/** The range condition itself (range_condition.hpp): an object whose set of intervals the
    operations replace. IntervalSets and CanonicalForm say what the new sets mean. */
module RangeConditions {
  import opened Intervals
  import opened IntervalSets
  import opened CanonicalForm

  /** Folding add_range over the intervals of another condition, in order. */
  function CombinedAll(s: seq<Interval>, xs: seq<Interval>, relation: Relation): seq<Interval> {
    if xs == [] then s
    else Combined(CombinedAll(s, xs[..|xs| - 1], relation), xs[|xs| - 1], relation)
  }

  /** get_intersect_range: the union of the intersections with each interval of the other. */
  function IntersectionOf(s: seq<Interval>, others: seq<Interval>): seq<Interval> {
    if others == [] then []
    else
      CombinedAll(
        IntersectionOf(s, others[..|others| - 1]),
        Combined(s, others[|others| - 1], And),
        Or)
  }

  class RangeCondition {
    var intervals: seq<Interval>

    constructor ()
      ensures intervals == []
    {
      intervals := [];
    }

    constructor FromValue(value: real)
      ensures Canonical(intervals)
      ensures forall x :: In(intervals, x) <==> x == value
    {
      intervals := Insert([], Point(value));
      assert Point(value) in [Point(value)];
    }

    constructor FromInterval(interval: Interval)
      ensures forall x :: In(intervals, x) <==> interval.Contains(x)
      ensures interval.IsHalfOpenPoint() || Canonical(intervals)
    {
      intervals := if interval.IsEmpty() then [] else Insert([], interval);
      assert interval in [interval];
    }

    method AddRange(interval: Interval, relation: Relation)
      modifies this
      ensures intervals == Combined(old(intervals), interval, relation)
    {
      match relation {
        case And => AndSingleInterval(interval);
        case Or => OrSingleInterval(interval);
        case Not => NotSingleInterval(interval);
        case _ =>
      }
      Simplify();
    }

    method AddValue(value: real, relation: Relation)
      modifies this
      ensures intervals == Combined(old(intervals), Point(value), relation)
    {
      AddRange(Point(value), relation);
    }

    /** Iterates over a copy of the other set, so the other condition may be this one. */
    method AddCondition(other: RangeCondition, relation: Relation)
      modifies this
      ensures intervals == CombinedAll(old(intervals), old(other.intervals), relation)
      ensures other != this ==> other.intervals == old(other.intervals)
    {
      hide Combined;
      var all := other.intervals;
      for k := 0 to |all|
        invariant intervals == CombinedAll(old(intervals), all[..k], relation)
        invariant other != this ==> other.intervals == old(other.intervals)
      {
        AddRange(all[k], relation);
        assert all[..k + 1][..k] == all[..k];
      }
      assert all[..|all|] == all;
    }

    method OrSingleInterval(interval: Interval)
      modifies this
      ensures intervals == Insert(old(intervals), interval)
    {
      intervals := Insert(intervals, interval);
    }

    method AndSingleInterval(interval: Interval)
      modifies this
      ensures intervals == AndAll(old(intervals), interval)
    {
      var result: seq<Interval> := [];
      for k := 0 to |intervals|
        invariant intervals == old(intervals)
        invariant result == AndAll(intervals[..k], interval)
      {
        var common := TryIntersect(intervals[k], interval);
        assert intervals[..k + 1][..k] == intervals[..k];
        if common.Some? {
          result := Insert(result, common.value);
        }
      }
      assert intervals[..|intervals|] == intervals;
      intervals := result;
    }

    method NotSingleInterval(interval: Interval)
      modifies this
      ensures intervals == NotAll(old(intervals), interval)
    {
      var result: seq<Interval> := [];
      for k := 0 to |intervals|
        invariant intervals == old(intervals)
        invariant result == NotAll(intervals[..k], interval)
      {
        ghost var start := result;
        var pieces := Difference(intervals[k], interval);
        for j := 0 to |pieces|
          invariant intervals == old(intervals)
          invariant result == InsertAll(start, pieces[..j])
        {
          result := Insert(result, pieces[j]);
          assert pieces[..j + 1][..j] == pieces[..j];
        }
        assert pieces[..|pieces|] == pieces;
        assert intervals[..k + 1][..k] == intervals[..k];
      }
      assert intervals[..|intervals|] == intervals;
      intervals := result;
    }

    method Simplify()
      modifies this
      ensures intervals == Simplified(old(intervals))
    {
      if |intervals| < 1 {
        return;
      } else if |intervals| == 1 {
        if intervals[0].IsEmpty() {
          intervals := [];
        }
        return;
      }
      var result: seq<Interval> := [];
      var current := intervals[0];
      var k := 1;
      while k < |intervals|
        invariant 1 <= k <= |intervals|
        invariant intervals == old(intervals)
        invariant Sweep(current, intervals[k..], result) == Simplified(intervals)
      {
        var next := intervals[k];
        assert intervals[k..][0] == next;
        assert intervals[k..][1..] == intervals[k + 1..];
        if current.IsEmpty() {
          current := next;
        } else {
          var merged := TryUnion(current, next);
          if merged.Some? {
            current := merged.value;
          } else {
            result := Insert(result, current);
            current := next;
          }
        }
        k := k + 1;
      }
      if !current.IsEmpty() {
        result := Insert(result, current);
      }
      intervals := result;
    }

    method GetIntersectRange(other: RangeCondition) returns (result: RangeCondition)
      ensures fresh(result)
      ensures result.intervals == IntersectionOf(intervals, other.intervals)
    {
      result := new RangeCondition();
      var all := other.intervals;
      for k := 0 to |all|
        invariant fresh(result)
        invariant result.intervals == IntersectionOf(intervals, all[..k])
      {
        var temp := new RangeCondition();
        temp.intervals := intervals;
        temp.AddRange(all[k], And);
        result.AddCondition(temp, Or);
        assert all[..k + 1][..k] == all[..k];
      }
      assert all[..|all|] == all;
    }

    method GetUnionRange(other: RangeCondition) returns (result: RangeCondition)
      ensures fresh(result)
      ensures result.intervals == CombinedAll(intervals, other.intervals, Or)
    {
      result := new RangeCondition();
      result.intervals := intervals;
      result.AddCondition(other, Or);
    }

    method GetDifferenceRange(other: RangeCondition) returns (result: RangeCondition)
      ensures fresh(result)
      ensures result.intervals == CombinedAll(intervals, other.intervals, Not)
    {
      result := new RangeCondition();
      result.intervals := intervals;
      result.AddCondition(other, Not);
    }

    method IsEqual(other: RangeCondition) returns (equal: bool)
      ensures Canonical(intervals) && Canonical(other.intervals) ==>
                (equal <==> forall x :: In(intervals, x) <==> In(other.intervals, x))
    {
      equal := intervals == other.intervals;
      if Canonical(intervals) && Canonical(other.intervals) {
        EqualIffSamePoints(intervals, other.intervals);
      }
    }

    method IsInRangeValue(value: real) returns (found: bool)
      ensures found <==> In(intervals, value)
    {
      for k := 0 to |intervals|
        invariant forall j :: 0 <= j < k ==> !intervals[j].Contains(value)
      {
        if intervals[k].Contains(value) {
          return true;
        }
      }
      return false;
    }

    method IsInRangeInterval(other: Interval) returns (found: bool)
      ensures found <==> IncludedInOne(intervals, other)
      ensures Canonical(intervals) && Inhabited(other) ==> (found <==> Subset([other], intervals))
    {
      if Canonical(intervals) && Inhabited(other) {
        IncludedInOneIffSubset(intervals, other);
      }
      for k := 0 to |intervals|
        invariant forall j :: 0 <= j < k ==> !intervals[j].Includes(other)
      {
        if intervals[k].Includes(other) {
          return true;
        }
      }
      return false;
    }

    method IsInRangeCondition(other: RangeCondition) returns (included: bool)
      ensures included <==> IncludesAll(intervals, other.intervals)
      ensures Canonical(intervals) && Canonical(other.intervals) ==> (included <==> Subset(other.intervals, intervals))
    {
      if Canonical(intervals) && Canonical(other.intervals) {
        IncludesAllIffSubset(intervals, other.intervals);
      }
      for k := 0 to |other.intervals|
        invariant forall j :: 0 <= j < k ==> IncludedInOne(intervals, other.intervals[j])
      {
        var found := IsInRangeInterval(other.intervals[k]);
        if !found {
          return false;
        }
      }
      return true;
    }

    method IsIntersect(other: RangeCondition) returns (found: bool)
      ensures found <==> SomeIntersect(intervals, other.intervals)
      ensures Canonical(intervals) && Canonical(other.intervals) && OneSided(intervals + other.intervals) ==>
                (found <==> exists x :: In(intervals, x) && In(other.intervals, x))
    {
      if Canonical(intervals) && Canonical(other.intervals) && OneSided(intervals + other.intervals) {
        SomeIntersectIsExact(intervals, other.intervals);
      }
      for k := 0 to |other.intervals|
        invariant forall i, j :: 0 <= i < k && 0 <= j < |intervals| ==> !other.intervals[i].IsIntersect(intervals[j])
      {
        for m := 0 to |intervals|
          invariant forall j :: 0 <= j < m ==> !other.intervals[k].IsIntersect(intervals[j])
        {
          if other.intervals[k].IsIntersect(intervals[m]) {
            return true;
          }
        }
      }
      return false;
    }
  }
}
