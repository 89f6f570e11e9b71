/** Operations with a whole condition (range_condition.hpp): add_range(condition), get_union_range,
    get_difference_range and get_intersect_range, and exactly when they give the set they are named after. */
module WholeConditions {
  import opened Intervals
  import opened IntervalSets
  import opened RangeConditions

  ghost predicate InEvery(xs: seq<Interval>, p: real) {
    forall c :: c in xs ==> c.Contains(p)
  }

  /** Every single add_range on the way is safe when it is made. */
  ghost predicate AllStepsSafe(s: seq<Interval>, xs: seq<Interval>, relation: Relation) {
    forall k | 0 <= k < |xs| :: StepIsSafe(CombinedAll(s, xs[..k], relation), xs[k], relation)
  }

  ghost predicate Everything(s: seq<Interval>, xs: seq<Interval>) {
    forall p :: In(s, p) || In(xs, p)
  }

  // ---------------------------------------------------------------- one interval after the other

  lemma {:induction false} SafeLast(s: seq<Interval>, xs: seq<Interval>, relation: Relation)
    requires xs != []
    ensures var init, last := xs[..|xs| - 1], xs[|xs| - 1];
            AllStepsSafe(s, xs, relation)
            <==> AllStepsSafe(s, init, relation) && StepIsSafe(CombinedAll(s, init, relation), last, relation)
  {
    hide StepIsSafe, CombinedAll;
    var init := xs[..|xs| - 1];
    forall k | 0 <= k < |init|
      ensures StepIsSafe(CombinedAll(s, init[..k], relation), init[k], relation)
              <==> StepIsSafe(CombinedAll(s, xs[..k], relation), xs[k], relation)
    {
      assert init[..k] == xs[..k];
    }
  }

  lemma {:induction false} MembersOfLast(xs: seq<Interval>)
    requires xs != []
    ensures forall p :: In(xs, p) <==> In(xs[..|xs| - 1], p) || xs[|xs| - 1].Contains(p)
    ensures forall p :: InEvery(xs, p) <==> InEvery(xs[..|xs| - 1], p) && xs[|xs| - 1].Contains(p)
  {
    var init, last := xs[..|xs| - 1], xs[|xs| - 1];
    assert xs == init + [last];
    assert forall c :: c in xs <==> c in init || c == last;
  }

  lemma {:induction false} CombinedAllIsCanonical(s: seq<Interval>, xs: seq<Interval>, relation: Relation)
    requires Canonical(s) && NoHalfOpenPoint(xs)
    ensures Canonical(CombinedAll(s, xs, relation))
  {
    if xs != [] {
      var init := xs[..|xs| - 1];
      assert forall c :: c in init ==> c in xs;
      CombinedAllIsCanonical(s, init, relation);
      StepIsCanonical(CombinedAll(s, init, relation), xs[|xs| - 1], relation);
    }
  }

  /** simplify() at the end of a step leaves the points alone, or bridges a gap to the whole line. */
  lemma StepSimplifies(s: seq<Interval>, x: Interval, relation: Relation)
    requires Canonical(s) && !x.IsHalfOpenPoint()
    ensures var t := Applied(s, x, relation);
            && (BridgesGap(t) ==> forall p :: In(Combined(s, x, relation), p))
            && (!BridgesGap(t) ==> forall p :: In(Combined(s, x, relation), p) <==> In(t, p))
  {
    CanonicalIsSorted(s);
    AppliedIsSorted(s, x, relation);
    AppliedHasNoHalfOpenPoint(s, x, relation);
    SimplifiedIsExactIff(Applied(s, x, relation));
  }

  lemma AndStaysInside(s: seq<Interval>, x: Interval)
    requires Canonical(s) && !x.IsHalfOpenPoint()
    ensures forall p :: In(Combined(s, x, And), p) ==> In(s, p) && x.Contains(p)
  {
    StepSimplifies(s, x, And);
    AndNeverBridges(s, x);
    AndAllMeaning(s, x);
  }

  lemma NotKeepsOutside(s: seq<Interval>, x: Interval)
    requires Canonical(s) && !x.IsHalfOpenPoint()
    ensures forall p :: In(s, p) && !x.Contains(p) ==> In(Combined(s, x, Not), p)
  {
    StepSimplifies(s, x, Not);
    NotAllMeaning(s, x);
  }

  // ---------------------------------------------------------------- the union

  /** Safe steps add exactly the points of the intervals; an unsafe one adds the whole line, for good. */
  lemma {:induction false} OrAddsAll(s: seq<Interval>, xs: seq<Interval>)
    requires Canonical(s) && NoHalfOpenPoint(xs)
    ensures Canonical(CombinedAll(s, xs, Or))
    ensures AllStepsSafe(s, xs, Or) ==> forall p :: In(CombinedAll(s, xs, Or), p) <==> In(s, p) || In(xs, p)
    ensures !AllStepsSafe(s, xs, Or) ==> forall p :: In(CombinedAll(s, xs, Or), p)
  {
    CombinedAllIsCanonical(s, xs, Or);
    if xs != [] {
      var init, last := xs[..|xs| - 1], xs[|xs| - 1];
      assert forall c :: c in init ==> c in xs;
      OrAddsAll(s, init);
      var t := CombinedAll(s, init, Or);
      SafeLast(s, xs, Or);
      MembersOfLast(xs);
      StepSimplifies(t, last, Or);
      StepIsExactIff(t, last, Or);
      InsertHasPoints(t, last);
      hide AllStepsSafe, Combined, Canonical, NoHalfOpenPoint, In;
    }
  }

  lemma {:induction false} InsertHasPoints(s: seq<Interval>, x: Interval)
    requires Canonical(s)
    ensures forall p :: In(Insert(s, x), p) <==> In(s, p) || x.Contains(p)
  {
    CanonicalIsSorted(s);
    InsertIsSetInsert(s, x);
    assert x in Insert(s, x);
  }

  /** add_range(condition, Or) and get_union_range give the union if and only if no step on the way bridges
      a gap, or the union is the whole line anyway. */
  lemma {:induction false} UnionOfConditionsIff(s: seq<Interval>, xs: seq<Interval>)
    requires Canonical(s) && NoHalfOpenPoint(xs)
    ensures (forall p :: In(CombinedAll(s, xs, Or), p) <==> In(s, p) || In(xs, p))
            <==> AllStepsSafe(s, xs, Or) || Everything(s, xs)
  {
    OrAddsAll(s, xs);
  }

  // ---------------------------------------------------------------- the difference

  lemma UnsafeNotLeavesAPoint(s: seq<Interval>, x: Interval) returns (p: real)
    requires Canonical(s) && Inhabited(x) && !StepIsSafe(s, x, Not)
    ensures x.Contains(p) && In(Combined(s, x, Not), p)
  {
    StepSimplifies(s, x, Not);
    if BridgesGap(NotAll(s, x)) {
      p := SomePoint(x);
    } else {
      var d :| d in s && Wraps(d, x) && Overlaps(d, x);
      p := SomePoint(Clip(d, x));
      NotAllMembers(s, x);
      assert d in Difference(d, x);
      assert d in NotAll(s, x);
    }
  }

  lemma {:induction false} NotRemovesAll(s: seq<Interval>, xs: seq<Interval>)
    requires Canonical(s) && Canonical(xs)
    ensures AllStepsSafe(s, xs, Not) ==> forall p :: In(CombinedAll(s, xs, Not), p) <==> In(s, p) && !In(xs, p)
    ensures !AllStepsSafe(s, xs, Not) ==> exists p :: In(CombinedAll(s, xs, Not), p) && In(xs, p)
  {
    if xs != [] {
      var init, last := xs[..|xs| - 1], xs[|xs| - 1];
      CanonicalIsSorted(init);
      NotRemovesAll(s, init);
      var t := CombinedAll(s, init, Not);
      CombinedAllIsCanonical(s, init, Not);
      SafeLast(s, xs, Not);
      MembersOfLast(xs);
      StepIsExactIff(t, last, Not);
      if !AllStepsSafe(s, init, Not) {
        var p :| In(t, p) && In(init, p);
        LastHasNot(xs, p);
        NotKeepsOutside(t, last);
        assert In(CombinedAll(s, xs, Not), p);
      } else if !StepIsSafe(t, last, Not) {
        var p := UnsafeNotLeavesAPoint(t, last);
        assert In(CombinedAll(s, xs, Not), p) && In(xs, p);
      }
    }
  }

  lemma LastHasNot(xs: seq<Interval>, p: real)
    requires Canonical(xs) && xs != [] && In(xs[..|xs| - 1], p)
    ensures !xs[|xs| - 1].Contains(p)
  {
    var j :| 0 <= j < |xs| - 1 && xs[..|xs| - 1][j].Contains(p);
    assert GapBefore(xs[j], xs[|xs| - 1]);
  }

  /** add_range(condition, Not) and get_difference_range give the difference if and only if every step on the
      way is safe. */
  lemma {:induction false} DifferenceOfConditionsIff(s: seq<Interval>, xs: seq<Interval>)
    requires Canonical(s) && Canonical(xs)
    ensures (forall p :: In(CombinedAll(s, xs, Not), p) <==> In(s, p) && !In(xs, p)) <==> AllStepsSafe(s, xs, Not)
  {
    NotRemovesAll(s, xs);
  }

  // ---------------------------------------------------------------- And with a whole condition

  lemma {:induction false} AndStaysInEvery(s: seq<Interval>, xs: seq<Interval>)
    requires Canonical(s) && NoHalfOpenPoint(xs)
    ensures forall p :: In(CombinedAll(s, xs, And), p) ==> In(s, p) && InEvery(xs, p)
  {
    if xs != [] {
      var init, last := xs[..|xs| - 1], xs[|xs| - 1];
      assert forall c :: c in init ==> c in xs;
      AndStaysInEvery(s, init);
      CombinedAllIsCanonical(s, init, And);
      AndStaysInside(CombinedAll(s, init, And), last);
      MembersOfLast(xs);
    }
  }

  ghost predicate SomeOverlap(s: seq<Interval>, t: seq<Interval>) {
    exists c, d :: c in s && d in t && Overlaps(c, d)
  }

  /** add_range(condition, And) intersects with every interval of the other in turn. That is the intersection
      with the other condition if and only if the other has one interval and no overlap across the infinities
      is lost, or has several and none of them meets this condition, or both are empty. */
  lemma {:induction false} AddConditionAndIsIntersectionIff(s: seq<Interval>, other: seq<Interval>)
    requires Canonical(s) && Canonical(other)
    ensures (forall p :: In(CombinedAll(s, other, And), p) <==> In(s, p) && In(other, p))
            <==> if |other| == 0 then s == []
                 else if |other| == 1 then !LosesOverlap(s, other[0])
                 else !SomeOverlap(s, other)
  {
    CanonicalIsSorted(other);
    if |other| == 0 {
      NothingInEmpty(s);
    } else if |other| == 1 {
      assert other[..0] == [] && other == [other[0]];
      StepIsExactIff(s, other[0], And);
      AndNeverBridges(s, other[0]);
    } else {
      AndStaysInEvery(s, other);
      forall p ensures !InEvery(other, p) {
        SeparatedShareNothing(other, p);
      }
      SomeOverlapIff(s, other);
    }
  }

  lemma NothingInEmpty(s: seq<Interval>)
    requires Canonical(s)
    ensures s == [] <==> forall p :: !In(s, p)
  {
    if s != [] {
      assert s[0] in s;
      assert In(s, SomePoint(s[0]));
    }
  }

  lemma SeparatedShareNothing(other: seq<Interval>, p: real)
    requires Canonical(other) && |other| > 1
    ensures !InEvery(other, p)
  {
    assert GapBefore(other[0], other[1]);
    assert other[0] in other && other[1] in other;
  }

  lemma SomeOverlapIff(s: seq<Interval>, t: seq<Interval>)
    ensures SomeOverlap(s, t) <==> exists p :: In(s, p) && In(t, p)
  {
    if p :| In(s, p) && In(t, p) {
      var c :| c in s && c.Contains(p);
      var d :| d in t && d.Contains(p);
      OverlapsIffCommonPoint(c, d);
    }
    if c, d :| c in s && d in t && Overlaps(c, d) {
      OverlapsIffCommonPoint(c, d);
      var p :| c.Contains(p) && d.Contains(p);
      assert In(s, p) && In(t, p);
    }
  }

  // ---------------------------------------------------------------- get_intersect_range

  ghost predicate NoneLost(s: seq<Interval>, others: seq<Interval>) {
    forall c | c in others :: !LosesOverlap(s, c)
  }

  /** Adding the intersection with each interval of the other bridges no gap. */
  ghost predicate PartsAreSafe(s: seq<Interval>, others: seq<Interval>) {
    forall k | 0 <= k < |others| :: AllStepsSafe(IntersectionOf(s, others[..k]), Combined(s, others[k], And), Or)
  }

  lemma {:induction false} PartsLast(s: seq<Interval>, others: seq<Interval>)
    requires others != []
    ensures var init, last := others[..|others| - 1], others[|others| - 1];
            PartsAreSafe(s, others)
            <==> PartsAreSafe(s, init) && AllStepsSafe(IntersectionOf(s, init), Combined(s, last, And), Or)
  {
    hide AllStepsSafe, IntersectionOf, Combined;
    var init := others[..|others| - 1];
    forall k | 0 <= k < |init|
      ensures AllStepsSafe(IntersectionOf(s, init[..k]), Combined(s, init[k], And), Or)
              <==> AllStepsSafe(IntersectionOf(s, others[..k]), Combined(s, others[k], And), Or)
    {
      assert init[..k] == others[..k];
    }
  }

  lemma {:induction false} NoneLostLast(s: seq<Interval>, others: seq<Interval>)
    requires others != []
    ensures var init, last := others[..|others| - 1], others[|others| - 1];
            NoneLost(s, others) <==> NoneLost(s, init) && !LosesOverlap(s, last)
  {
    hide LosesOverlap;
    var init, last := others[..|others| - 1], others[|others| - 1];
    assert others == init + [last];
    assert forall c :: c in others <==> c in init || c == last;
  }

  /** One part: the points that this condition shares with one interval, or fewer if an overlap is lost. */
  lemma PartIsInside(s: seq<Interval>, x: Interval)
    requires Canonical(s) && !x.IsHalfOpenPoint()
    ensures var part := Combined(s, x, And);
            && Canonical(part) && NoHalfOpenPoint(part)
            && (forall p :: In(part, p) ==> In(s, p) && x.Contains(p))
            && (!LosesOverlap(s, x) <==> forall p :: In(s, p) && x.Contains(p) ==> In(part, p))
  {
    StepIsCanonical(s, x, And);
    CanonicalIsSorted(Combined(s, x, And));
    StepSimplifies(s, x, And);
    AndNeverBridges(s, x);
    AndAllMeaning(s, x);
  }

  lemma {:induction false} PartsAddUp(s: seq<Interval>, others: seq<Interval>)
    requires Canonical(s) && Canonical(others)
    ensures Canonical(IntersectionOf(s, others))
    ensures !PartsAreSafe(s, others) ==> forall p :: In(IntersectionOf(s, others), p)
    ensures PartsAreSafe(s, others) ==> forall p :: In(IntersectionOf(s, others), p) ==> In(s, p) && In(others, p)
    ensures PartsAreSafe(s, others) ==>
              (NoneLost(s, others) <==> forall p :: In(s, p) && In(others, p) ==> In(IntersectionOf(s, others), p))
  {
    if others != [] {
      var init, last := others[..|others| - 1], others[|others| - 1];
      PartsAddUp(s, init);
      CanonicalIsSorted(others);
      assert last in others;
      forall p | In(init, p) ensures !last.Contains(p) {
        LastHasNot(others, p);
      }
      var part := Combined(s, last, And);
      var before, after := IntersectionOf(s, init), IntersectionOf(s, others);
      assert after == CombinedAll(before, part, Or);
      PartIsInside(s, last);
      hide In, Combined, CombinedAll, LosesOverlap, PartsAreSafe, NoneLost, AllStepsSafe, IntersectionOf;
      PartsLast(s, others);
      NoneLostLast(s, others);
      OrAddsAll(before, part);
      MembersOfLast(others);
      hide Canonical, NoHalfOpenPoint, InEvery;
      if PartsAreSafe(s, others) {
        PartAdds(s, init, last, others, part, before, after);
      }
    }
  }

  lemma PartAdds(
      s: seq<Interval>, init: seq<Interval>, last: Interval, others: seq<Interval>,
      part: seq<Interval>, before: seq<Interval>, after: seq<Interval>)
    requires forall p :: In(others, p) <==> In(init, p) || last.Contains(p)
    requires forall p :: In(init, p) ==> !last.Contains(p)
    requires forall p :: In(part, p) ==> In(s, p) && last.Contains(p)
    requires forall p :: In(before, p) ==> In(s, p) && In(init, p)
    requires forall p :: In(after, p) <==> In(before, p) || In(part, p)
    ensures forall p :: In(after, p) ==> In(s, p) && In(others, p)
    ensures (forall p :: In(s, p) && In(others, p) ==> In(after, p))
            <==> && (forall p :: In(s, p) && In(init, p) ==> In(before, p))
                 && (forall p :: In(s, p) && last.Contains(p) ==> In(part, p))
  {
    hide In;
    if forall p :: In(s, p) && In(others, p) ==> In(after, p) {
      forall p | In(s, p) && In(init, p) ensures In(before, p) {
        assert In(after, p);
      }
      forall p | In(s, p) && last.Contains(p) ensures In(part, p) {
        assert In(after, p);
      }
    }
  }

  lemma TwoLeaveAGap(s: seq<Interval>)
    requires Canonical(s) && |s| > 1
    ensures exists g :: !In(s, g)
  {
    CanonicalIsSorted(s);
    SortedFollows(s[1..]);
    GapIsFree(s[0], s[1..]);
    var g :| !s[0].Contains(g) && !In(s[1..], g);
    assert s == [s[0]] + s[1..];
    assert !In(s, g);
  }

  lemma WholeIsOne(s: seq<Interval>)
    requires Canonical(s) && forall p :: In(s, p)
    ensures |s| == 1 && s[0].left.Infinite? && s[0].right.Infinite?
  {
    assert In(s, 0.0);
    if |s| > 1 {
      TwoLeaveAGap(s);
      assert false;
    }
    var below := if s[0].left.Finite? then s[0].left.bound - 1.0 else 0.0;
    var above := if s[0].right.Finite? then s[0].right.bound + 1.0 else 0.0;
    assert In(s, below) && In(s, above);
  }

  /** get_intersect_range gives the common points if and only if no overlap across the infinities is lost and
      putting the parts together bridges no gap. */
  lemma {:induction false} IntersectionOfConditionsIff(s: seq<Interval>, others: seq<Interval>)
    requires Canonical(s) && Canonical(others)
    ensures (forall p :: In(IntersectionOf(s, others), p) <==> In(s, p) && In(others, p))
            <==> NoneLost(s, others) && PartsAreSafe(s, others)
  {
    PartsAddUp(s, others);
    if !PartsAreSafe(s, others) && forall p :: In(s, p) && In(others, p) {
      WholeIsOne(s);
      WholeIsOne(others);
      WholeMeetsWhole(s, others);
      assert false;
    }
  }

  /** The whole line is taken for adjacent to itself: nothing is left to be put together. */
  lemma {:induction false} WholeMeetsWhole(s: seq<Interval>, others: seq<Interval>)
    requires |s| == 1 && s[0].left.Infinite? && s[0].right.Infinite?
    requires |others| == 1 && others[0].left.Infinite? && others[0].right.Infinite?
    ensures PartsAreSafe(s, others)
  {
    assert TryIntersect(s[0], others[0]).None?;
    assert s[..0] == [] && AndAll(s, others[0]) == [];
    assert Combined(s, others[0], And) == [];
  }

  // ---------------------------------------------------------------- bounded on the same side

  /** For conditions bounded on the same side, the union and the difference are exact. */
  lemma {:induction false} CombinedAllIsExact(s: seq<Interval>, xs: seq<Interval>, relation: Relation, leftFinite: bool)
    requires Canonical(s) && NoHalfOpenPoint(xs)
    requires AllOneSided(s, leftFinite) && AllOneSided(xs, leftFinite)
    ensures Canonical(CombinedAll(s, xs, relation)) && AllOneSided(CombinedAll(s, xs, relation), leftFinite)
    ensures relation == Or ==> forall p :: In(CombinedAll(s, xs, relation), p) <==> In(s, p) || In(xs, p)
    ensures relation == Not ==> forall p :: In(CombinedAll(s, xs, relation), p) <==> In(s, p) && !In(xs, p)
    ensures relation == And ==>
              forall p :: In(CombinedAll(s, xs, relation), p) <==> In(s, p) && InEvery(xs, p)
  {
    if xs != [] {
      var n := |xs| - 1;
      var init, last := xs[..n], xs[n];
      assert xs == init + [last];
      assert forall c :: c in xs <==> c in init || c == last;
      CombinedAllIsExact(s, init, relation, leftFinite);
      var t := CombinedAll(s, init, relation);
      CanonicalIsSorted(t);
      OneSidedStep(t, last, relation, leftFinite);
      StepIsCanonical(t, last, relation);
      StepIsExactIff(t, last, relation);
      forall p ensures In(xs, p) <==> In(init, p) || last.Contains(p) {
      }
    }
  }

  /** get_intersect_range is exact for conditions bounded on the same side. */
  lemma {:induction false} IntersectionIsExact(s: seq<Interval>, others: seq<Interval>, leftFinite: bool)
    requires Canonical(s) && NoHalfOpenPoint(others)
    requires AllOneSided(s, leftFinite) && AllOneSided(others, leftFinite)
    ensures Canonical(IntersectionOf(s, others)) && AllOneSided(IntersectionOf(s, others), leftFinite)
    ensures forall p :: In(IntersectionOf(s, others), p) <==> In(s, p) && In(others, p)
  {
    if others != [] {
      var n := |others| - 1;
      var init, last := others[..n], others[n];
      assert others == init + [last];
      IntersectionIsExact(s, init, leftFinite);
      CanonicalIsSorted(s);
      OneSidedStep(s, last, And, leftFinite);
      StepIsCanonical(s, last, And);
      StepIsExactIff(s, last, And);
      var part := Combined(s, last, And);
      CanonicalIsSorted(part);
      CombinedAllIsExact(IntersectionOf(s, init), part, Or, leftFinite);
      forall p ensures In(others, p) <==> In(init, p) || last.Contains(p) {
      }
    }
  }
}
