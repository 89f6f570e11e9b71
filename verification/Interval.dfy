/** A single interval of reals (single_interval.hpp). */
module Intervals {
  import opened Options
  import opened Endpoints

  datatype RawInterval = RawInterval(left: Endpoint, right: Endpoint)
  {
    predicate Valid() {
      && left.side == Left
      && right.side == Right
      && (left.Finite? && right.Finite? ==> left.bound <= right.bound)
    }

    predicate Contains(x: real) {
      left.Admits(x) && right.Admits(x)
    }

    /** IntervalState::Empty: equal finite bounds, both open. */
    predicate IsEmpty() {
      left.Finite? && right.Finite? && left.bound == right.bound && left.open && right.open
    }

    /** [a,a) or (a,a]: no point, yet not IntervalState::Empty. */
    predicate IsHalfOpenPoint() {
      left.Finite? && right.Finite? && left.bound == right.bound && left.open != right.open
    }

    predicate Less(other: RawInterval) {
      if left.Less(other.left) then true
      else if other.left.Less(left) then false
      else right.Less(other.right)
    }

    /** is_in_range(interval): other lies within this interval. */
    predicate Includes(other: RawInterval) {
      left.AtMost(other.left) && other.right.AtMost(right)
    }

    predicate IsAdjacent(other: RawInterval) {
      left.Adjacent() == other.right || right.Adjacent() == other.left
    }

    predicate IsDisjoint(other: RawInterval) {
      if IsAdjacent(other) then
        false
      else if other.right.Less(left) then
        if left.Value() == other.right.Value() then left.IsOpen() && other.right.IsOpen() else true
      else if right.Less(other.left) then
        if right.Value() == other.left.Value() then right.IsOpen() && other.left.IsOpen() else true
      else
        false
    }

    predicate IsIntersect(other: RawInterval) {
      !IsDisjoint(other) && !IsAdjacent(other)
    }
  }

  type Interval = i: RawInterval | i.Valid() witness RawInterval(Infinite(Left), Infinite(Right))

  /** The constructor from two bounds, which swaps finite bounds given in the wrong order. */
  function FromBounds(leftValue: Option<real>, leftOpen: bool, rightValue: Option<real>, rightOpen: bool): (i: Interval)
    ensures leftValue.Some? && rightValue.Some? && leftValue.value > rightValue.value ==>
              i == FromBounds(rightValue, rightOpen, leftValue, leftOpen)
    decreases leftValue.Some? && rightValue.Some? && leftValue.value > rightValue.value
  {
    if leftValue.Some? && rightValue.Some? && leftValue.value > rightValue.value then
      RawInterval(MakeEndpoint(rightValue, rightOpen, Left), MakeEndpoint(leftValue, leftOpen, Right))
    else
      RawInterval(MakeEndpoint(leftValue, leftOpen, Left), MakeEndpoint(rightValue, rightOpen, Right))
  }

  function FromEndpoints(left: Endpoint, right: Endpoint): Interval {
    FromBounds(left.Value(), left.IsOpen(), right.Value(), right.IsOpen())
  }

  /** The default constructor: the empty interval (0,0). */
  const EMPTY: Interval := RawInterval(Finite(0.0, true, Left), Finite(0.0, true, Right))

  function Point(x: real): Interval {
    RawInterval(Finite(x, false, Left), Finite(x, false, Right))
  }

  function TryIntersect(a: Interval, b: Interval): Option<Interval> {
    if !a.IsIntersect(b) then
      None
    else
      var left := if a.left.AtMost(b.left) then b.left else a.left;
      var right := if b.right.AtMost(a.right) then b.right else a.right;
      Some(FromEndpoints(left, right))
  }

  function TryUnion(a: Interval, b: Interval): Option<Interval> {
    if a.IsDisjoint(b) then
      None
    else
      var left := if a.left.AtMost(b.left) then a.left else b.left;
      var right := if b.right.AtMost(a.right) then a.right else b.right;
      Some(FromEndpoints(left, right))
  }

  /** a minus b, as a list of up to two pieces; an empty difference is one empty interval. */
  function Difference(a: Interval, b: Interval): seq<Interval> {
    if !a.IsIntersect(b) then
      [a]
    else if b.Includes(a) then
      [EMPTY]
    else
      match TryIntersect(a, b)
      case None => [EMPTY]
      case Some(c) =>
        var upTo := c.left.Adjacent();
        var from := c.right.Adjacent();
        if a.left.Less(c.left) && c.right.Less(a.right) then
          [FromEndpoints(a.left, upTo), FromEndpoints(from, a.right)]
        else if c.left == a.left then
          [FromEndpoints(from, a.right)]
        else if c.right == a.right then
          [FromEndpoints(a.left, upTo)]
        else
          []
  }

  // ---------------------------------------------------------------- meaning

  /** What the constructors describe: the numbers between the bounds, a bound itself if it is closed; bounds in the
      wrong order change places with their openness; a point is that point alone. */
  lemma {:induction false} BoundsArePlaced(left: Option<real>, leftOpen: bool, right: Option<real>, rightOpen: bool,
                                           x: real, y: real)
    ensures var i := FromBounds(left, leftOpen, right, rightOpen);
            if left.Some? && right.Some? && left.value > right.value then
              i == FromBounds(right, rightOpen, left, leftOpen)
            else
              && i.left.Value() == left && i.right.Value() == right
              && (left.Some? ==> i.left.IsOpen() == leftOpen) && (right.Some? ==> i.right.IsOpen() == rightOpen)
              && (i.Contains(x)
                  <==> && (left.Some? ==> left.value < x || (left.value == x && !leftOpen))
                       && (right.Some? ==> x < right.value || (x == right.value && !rightOpen)))
    ensures Point(y).Contains(x) <==> x == y
    ensures !EMPTY.Contains(x)
  {
  }

  /** One of the two reaches minus infinity and the other plus infinity. The code takes
      every such pair for adjacent, wherever the finite ends lie. */
  predicate Wraps(a: Interval, b: Interval) {
    || (a.left.Infinite? && b.right.Infinite?)
    || (a.right.Infinite? && b.left.Infinite?)
  }

  /** a is [v,v) and b is (v,v]: neither has a point, but asked in this order the code finds
      them to overlap in v. */
  predicate OppositePoints(a: Interval, b: Interval) {
    && a.IsHalfOpenPoint()
    && b.IsHalfOpenPoint()
    && a.left.bound == b.left.bound
    && !a.left.open && b.left.open
  }

  /** a ends below the start of b, with at least one real between them. */
  predicate GapBefore(a: Interval, b: Interval) {
    && a.right.Finite?
    && b.left.Finite?
    && (a.right.bound < b.left.bound || (a.right.bound == b.left.bound && a.right.open && b.left.open))
  }

  /** The interval has a point. */
  predicate Inhabited(a: Interval) {
    !a.IsEmpty() && !a.IsHalfOpenPoint()
  }

  function SomePoint(a: Interval): (x: real)
    requires Inhabited(a)
    ensures a.Contains(x)
  {
    if a.left.Infinite? then
      if a.right.Infinite? then 0.0 else a.right.bound - 1.0
    else if a.right.Infinite? then
      a.left.bound + 1.0
    else
      (a.left.bound + a.right.bound) / 2.0
  }

  lemma InhabitedIffPoint(a: Interval)
    ensures Inhabited(a) <==> exists x :: a.Contains(x)
  {
    if Inhabited(a) {
      var x := SomePoint(a);
    }
  }

  /** A real in the gap between two intervals. */
  function GapPoint(a: Interval, b: Interval): (x: real)
    requires GapBefore(a, b)
    ensures !a.Contains(x) && !b.Contains(x)
    ensures a.right.bound <= x <= b.left.bound
  {
    (a.right.bound + b.left.bound) / 2.0
  }

  /** The two intervals have a point in common, read off their ends. */
  predicate Overlaps(a: Interval, b: Interval) {
    && Inhabited(a)
    && Inhabited(b)
    && EndsMeet(a, b)
    && EndsMeet(b, a)
  }

  predicate EndsMeet(a: Interval, b: Interval) {
    a.left.Finite? && b.right.Finite? ==>
      a.left.bound < b.right.bound || (a.left.bound == b.right.bound && !a.left.open && !b.right.open)
  }

  function Clip(a: Interval, b: Interval): (c: Interval)
    requires Overlaps(a, b)
    ensures Inhabited(c)
    ensures forall x :: c.Contains(x) <==> a.Contains(x) && b.Contains(x)
  {
    RawInterval(if a.left.AtMost(b.left) then b.left else a.left, if b.right.AtMost(a.right) then b.right else a.right)
  }

  lemma OverlapsIffCommonPoint(a: Interval, b: Interval)
    ensures Overlaps(a, b) <==> exists x :: a.Contains(x) && b.Contains(x)
  {
    if Overlaps(a, b) {
      var x := SomePoint(Clip(a, b));
      assert a.Contains(x) && b.Contains(x);
    }
  }

  /** The test is_intersect, for intervals that have points: there is a common one, and the pair does not
      wrap. */
  lemma IsIntersectIff(a: Interval, b: Interval)
    requires Inhabited(a) && Inhabited(b)
    ensures a.IsIntersect(b) <==> !Wraps(a, b) && exists x :: a.Contains(x) && b.Contains(x)
  {
    OverlapsIffCommonPoint(a, b);
    TestDecides(a, b);
  }

  lemma TestDecides(a: Interval, b: Interval)
    requires Inhabited(a) && Inhabited(b)
    ensures a.IsIntersect(b) <==> !Wraps(a, b) && Overlaps(a, b)
  {
  }

  /** try_get_intersect is exact unless the pair wraps and really overlaps. */
  lemma IntersectIsExactIff(a: Interval, b: Interval)
    ensures (match TryIntersect(a, b)
             case Some(c) => forall x :: c.Contains(x) <==> a.Contains(x) && b.Contains(x)
             case None => forall x :: !(a.Contains(x) && b.Contains(x)))
            <==> !(Wraps(a, b) && Overlaps(a, b))
  {
    OverlapsIffCommonPoint(a, b);
  }

  /** try_get_union, when it answers, is exact unless the pair wraps over a gap or is [v,v) with (v,v]. */
  lemma UnionIsExactIff(a: Interval, b: Interval)
    requires TryUnion(a, b).Some?
    ensures (forall x :: TryUnion(a, b).value.Contains(x) <==> a.Contains(x) || b.Contains(x))
            <==> !(Wraps(a, b) && (GapBefore(a, b) || GapBefore(b, a))) && !OppositePoints(a, b)
  {
    if OppositePoints(a, b) {
      assert TryUnion(a, b).value.Contains(a.left.bound);
    }
    if Wraps(a, b) && GapBefore(a, b) {
      var x := GapPoint(a, b);
      assert TryUnion(a, b).value.Contains(x);
    }
    if Wraps(a, b) && GapBefore(b, a) {
      var x := GapPoint(b, a);
      assert TryUnion(a, b).value.Contains(x);
    }
  }

  /** (v,v) and one of [v,v) and (v,v], which the code takes for adjacent. */
  predicate EmptyAtHalfOpen(a: Interval, b: Interval) {
    && a.IsEmpty()
    && b.IsHalfOpenPoint()
    && a.left.bound == b.left.bound
  }

  /** try_get_union refuses exactly the pairs that a gap separates, except pairs that wrap, [v,v) with (v,v],
      and (v,v) with a half-open point of v. */
  lemma UnionRefusesIff(a: Interval, b: Interval)
    ensures TryUnion(a, b).None? <==> && (GapBefore(a, b) || GapBefore(b, a))
                                      && !Wraps(a, b) && !OppositePoints(a, b)
                                      && !EmptyAtHalfOpen(a, b) && !EmptyAtHalfOpen(b, a)
  {
  }

  /** get_difference is exact unless the pair wraps and overlaps, or is [v,v) with (v,v]. */
  lemma DifferenceIsExactIff(a: Interval, b: Interval)
    ensures (forall x :: (exists d :: d in Difference(a, b) && d.Contains(x)) <==> a.Contains(x) && !b.Contains(x))
            <==> !(Wraps(a, b) && Overlaps(a, b)) && !OppositePoints(a, b)
  {
    OverlapsIffCommonPoint(a, b);
    var ds := Difference(a, b);
    if Wraps(a, b) {
      assert ds == [a];
      assert a in ds;
    } else if OppositePoints(a, b) {
      var x := a.left.bound;
      assert ds[0] in ds && ds[0].Contains(x);
      assert !a.Contains(x);
    } else {
      forall x
        ensures (exists d :: d in ds && d.Contains(x)) <==> a.Contains(x) && !b.Contains(x)
      {
        DifferenceAt(a, b, x);
      }
    }
  }

  lemma {:induction false} SomeOfTwo(ds: seq<Interval>, x: real)
    requires |ds| <= 2
    ensures (exists d :: d in ds && d.Contains(x))
            <==> (|ds| >= 1 && ds[0].Contains(x)) || (|ds| == 2 && ds[1].Contains(x))
  {
  }

  /** The pieces of an interval that is met and not covered. */
  lemma PiecesAt(a: Interval, b: Interval, x: real)
    requires !Wraps(a, b) && !OppositePoints(a, b) && a.IsIntersect(b) && !b.Includes(a)
    ensures var ds := Difference(a, b);
            |ds| <= 2
            && ((|ds| >= 1 && ds[0].Contains(x)) || (|ds| == 2 && ds[1].Contains(x))
                <==> a.Contains(x) && !b.Contains(x))
  {
  }

  lemma DifferenceAt(a: Interval, b: Interval, x: real)
    requires !Wraps(a, b) && !OppositePoints(a, b)
    ensures (exists d :: d in Difference(a, b) && d.Contains(x)) <==> a.Contains(x) && !b.Contains(x)
  {
    if a.IsIntersect(b) && !b.Includes(a) {
      PiecesAt(a, b, x);
      hide Difference;
      SomeOfTwo(Difference(a, b), x);
    } else {
      SomeOfTwo(Difference(a, b), x);
    }
  }

  /** Intersections and differences of inhabited intervals are inhabited or IntervalState::Empty. */
  lemma PiecesHaveNoHalfOpenPoint(a: Interval, b: Interval)
    requires Inhabited(a) && !b.IsHalfOpenPoint()
    ensures TryIntersect(a, b).Some? ==> !TryIntersect(a, b).value.IsHalfOpenPoint()
    ensures forall d :: d in Difference(a, b) ==> !d.IsHalfOpenPoint()
  {
  }
}
