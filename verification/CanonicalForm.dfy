/** What the canonical form is for: equality and the containment and intersection tests of
    range_condition.hpp decide the corresponding questions about the point sets. */
module CanonicalForm {
  import opened Options
  import opened Endpoints
  import opened Intervals
  import opened IntervalSets

  ghost predicate Subset(s: seq<Interval>, t: seq<Interval>) {
    forall x :: In(s, x) ==> In(t, x)
  }

  /** The test is_in_range makes on one interval. */
  predicate IncludedInOne(s: seq<Interval>, c: Interval) {
    exists d | d in s :: d.Includes(c)
  }

  predicate IncludesAll(s: seq<Interval>, t: seq<Interval>) {
    forall c | c in t :: IncludedInOne(s, c)
  }

  predicate SomeIntersect(s: seq<Interval>, t: seq<Interval>) {
    exists c, d | c in s && d in t :: d.IsIntersect(c)
  }

  /** The endpoint test of is_in_range decides containment of point sets. */
  lemma IncludesIffSubset(d: Interval, c: Interval)
    requires Inhabited(c)
    ensures d.Includes(c) <==> forall x :: c.Contains(x) ==> d.Contains(x)
  {
    if !d.Includes(c) {
      var x := Outside(d, c);
    }
  }

  /** A point of c that d misses. */
  function Outside(d: Interval, c: Interval): (x: real)
    requires Inhabited(c) && !d.Includes(c)
    ensures c.Contains(x) && !d.Contains(x)
  {
    var m := SomePoint(c);
    if !d.Contains(m) then
      m
    else if !d.left.AtMost(c.left) then
      if c.left.Infinite? then d.left.bound - 1.0
      else if c.left.bound == d.left.bound then d.left.bound
      else (c.left.bound + d.left.bound) / 2.0
    else
      if c.right.Infinite? then d.right.bound + 1.0
      else if c.right.bound == d.right.bound then d.right.bound
      else (c.right.bound + d.right.bound) / 2.0
  }

  /** A point of c above everything in s[k], when c starts inside s[k] and sticks out to the right. */
  lemma SticksOutRight(s: seq<Interval>, c: Interval, k: nat, p: real)
    requires Canonical(s) && k < |s| && c.Contains(p) && s[k].Contains(p) && s[k].right.Less(c.right)
    ensures exists x :: c.Contains(x) && !In(s, x)
  {
    var r := s[k].right.bound;
    var limit := if c.right.Infinite? then r + 2.0 else c.right.bound;
    var next := if k + 1 < |s| then s[k + 1].left.bound else r + 1.0;
    if k + 1 < |s| {
      assert GapBefore(s[k], s[k + 1]);
    }
    var x := if s[k].right.open then r else if next < limit then (r + next) / 2.0 else (r + limit) / 2.0;
    forall j | 0 <= j < |s| ensures !s[j].Contains(x) {
      if j < k {
        assert GapBefore(s[j], s[k]);
      } else if j > k + 1 {
        assert GapBefore(s[k + 1], s[j]);
      }
    }
    assert c.Contains(x) && !In(s, x);
  }

  lemma SticksOutLeft(s: seq<Interval>, c: Interval, k: nat, p: real)
    requires Canonical(s) && k < |s| && c.Contains(p) && s[k].Contains(p) && c.left.Less(s[k].left)
    ensures exists x :: c.Contains(x) && !In(s, x)
  {
    var l := s[k].left.bound;
    var limit := if c.left.Infinite? then l - 2.0 else c.left.bound;
    var prev := if k > 0 then s[k - 1].right.bound else l - 1.0;
    if k > 0 {
      assert GapBefore(s[k - 1], s[k]);
    }
    var x := if s[k].left.open then l else if prev > limit then (l + prev) / 2.0 else (l + limit) / 2.0;
    forall j | 0 <= j < |s| ensures !s[j].Contains(x) {
      if j > k {
        assert GapBefore(s[k], s[j]);
      } else if j < k - 1 {
        assert GapBefore(s[j], s[k - 1]);
      }
    }
    assert c.Contains(x) && !In(s, x);
  }

  /** Connectedness: an interval inside a union of separated intervals lies in one of them, so
      is_in_range(interval) is exact. */
  lemma IncludedInOneIffSubset(s: seq<Interval>, c: Interval)
    requires Canonical(s) && Inhabited(c)
    ensures IncludedInOne(s, c) <==> Subset([c], s)
  {
    if IncludedInOne(s, c) {
      var d :| d in s && d.Includes(c);
      IncludesIffSubset(d, c);
    }
    if Subset([c], s) {
      var p := SomePoint(c);
      assert c in [c];
      assert forall x :: c.Contains(x) ==> In([c], x);
      var k :| 0 <= k < |s| && s[k].Contains(p);
      if s[k].right.Less(c.right) {
        SticksOutRight(s, c, k, p);
        assert false;
      }
      if c.left.Less(s[k].left) {
        SticksOutLeft(s, c, k, p);
        assert false;
      }
      assert s[k] in s && s[k].Includes(c);
    }
  }

  /** is_in_range(condition) decides the subset relation. */
  lemma IncludesAllIffSubset(s: seq<Interval>, t: seq<Interval>)
    requires Canonical(s) && Canonical(t)
    ensures IncludesAll(s, t) <==> Subset(t, s)
  {
    forall c | c in t ensures IncludedInOne(s, c) <==> Subset([c], s) {
      IncludedInOneIffSubset(s, c);
    }
    if IncludesAll(s, t) {
      forall x | In(t, x) ensures In(s, x) {
        var c :| c in t && c.Contains(x);
        assert c in [c] && In([c], x);
        assert Subset([c], s);
      }
    }
    if Subset(t, s) {
      forall c | c in t ensures Subset([c], s) {
        forall x | In([c], x) ensures In(s, x) {
          assert In(t, x);
        }
      }
    }
  }

  ghost predicate OverlapsAcrossInfinity(s: seq<Interval>, t: seq<Interval>) {
    exists c, d :: c in s && d in t && Wraps(c, d) && Overlaps(c, d)
  }

  /** is_intersect decides whether there is a common point, except that it overlooks pairs that wrap
      around infinity: it is right if and only if some other pair meets, or none of those overlaps. */
  lemma SomeIntersectIsExactIff(s: seq<Interval>, t: seq<Interval>)
    requires Canonical(s) && Canonical(t)
    ensures (SomeIntersect(s, t) <==> exists x :: In(s, x) && In(t, x))
            <==> (OverlapsAcrossInfinity(s, t) ==> exists c, d :: c in s && d in t && !Wraps(c, d) && Overlaps(c, d))
  {
    forall c, d | c in s && d in t
      ensures d.IsIntersect(c) <==> !Wraps(c, d) && Overlaps(c, d)
    {
      TestDecides(d, c);
    }
    if x :| In(s, x) && In(t, x) {
      var c :| c in s && c.Contains(x);
      var d :| d in t && d.Contains(x);
      OverlapsIffCommonPoint(c, d);
    }
    if c, d :| c in s && d in t && Overlaps(c, d) {
      OverlapsIffCommonPoint(c, d);
      var x :| c.Contains(x) && d.Contains(x);
      assert In(s, x) && In(t, x);
    }
  }

  /** For conditions bounded on the same side is_intersect is simply exact. */
  lemma SomeIntersectIsExact(s: seq<Interval>, t: seq<Interval>)
    requires Canonical(s) && Canonical(t) && OneSided(s + t)
    ensures SomeIntersect(s, t) <==> exists x :: In(s, x) && In(t, x)
  {
    assert forall c :: c in s ==> c in s + t;
    assert forall c :: c in t ==> c in s + t;
    SomeIntersectIsExactIff(s, t);
  }

  // ---------------------------------------------------------------- uniqueness

  /** Mutual containment makes two canonical forms have the same members. */
  lemma SameMembers(s: seq<Interval>, t: seq<Interval>, c: Interval)
    requires Canonical(s) && IncludesAll(s, t) && IncludesAll(t, s) && c in s
    ensures c in t
  {
    var d :| d in t && d.Includes(c);
    var e :| e in s && e.Includes(d);
    var p := SharedPoint(c, d, e);
    CanonicalIsDisjoint(s, c, e, p);
  }

  lemma SharedPoint(c: Interval, d: Interval, e: Interval) returns (p: real)
    requires Inhabited(c) && d.Includes(c) && e.Includes(d)
    ensures c.Contains(p) && e.Contains(p)
    ensures e == c ==> d == c
  {
    p := SomePoint(c);
  }

  lemma HasMember(s: seq<Interval>)
    ensures s != [] ==> exists c :: c in s
  {
    assert s != [] ==> s[0] in s;
  }

  lemma {:induction false} SortedIsDeterminedByMembers(s: seq<Interval>, t: seq<Interval>)
    requires Sorted(s) && Sorted(t)
    requires forall c :: c in s <==> c in t
    ensures s == t
  {
    HasMember(s);
    HasMember(t);
    if s != [] {
      assert s[0] in t;
      assert t[0] in s;
      assert s[0] == t[0];
      assert s == [s[0]] + s[1..];
      assert t == [t[0]] + t[1..];
      assert forall c :: c in s[1..] <==> c in s && c != s[0];
      assert forall c :: c in t[1..] <==> c in t && c != t[0];
      SortedIsDeterminedByMembers(s[1..], t[1..]);
    }
  }

  /** Extensionality: is_equal on canonical conditions decides equality of the point sets. */
  lemma EqualIffSamePoints(s: seq<Interval>, t: seq<Interval>)
    requires Canonical(s) && Canonical(t)
    ensures s == t <==> forall x :: In(s, x) <==> In(t, x)
  {
    if forall x :: In(s, x) <==> In(t, x) {
      IncludesAllIffSubset(s, t);
      IncludesAllIffSubset(t, s);
      forall c ensures c in s <==> c in t {
        if c in s {
          SameMembers(s, t, c);
        }
        if c in t {
          SameMembers(t, s, c);
        }
      }
      CanonicalIsSorted(s);
      CanonicalIsSorted(t);
      SortedIsDeterminedByMembers(s, t);
    }
  }

  ghost predicate Denotes(s: seq<Interval>, steps: seq<Step>) {
    forall x :: In(s, x) <==> Described(steps, x)
  }

  ghost predicate SameDescription(steps: seq<Step>, others: seq<Step>) {
    forall x :: Described(steps, x) <==> Described(others, x)
  }

  /** Two histories over bounded intervals end in equal conditions if and only if they describe the
      same set, however differently they were put together. */
  lemma {:induction false} HistoriesEqualIff(steps: seq<Step>, others: seq<Step>)
    requires NoHalfOpenStep(steps) && (LeftFinite(steps) || RightFinite(steps))
    requires NoHalfOpenStep(others) && (LeftFinite(others) || RightFinite(others))
    ensures Run(steps) == Run(others) <==> SameDescription(steps, others)
  {
    BoundedHistoryIsExact(steps);
    BoundedHistoryIsExact(others);
    SameSetIffSameDescription(Run(steps), Run(others), steps, others);
    EqualIffSamePoints(Run(steps), Run(others));
  }

  lemma SameSetIffSameDescription(s: seq<Interval>, t: seq<Interval>, steps: seq<Step>, others: seq<Step>)
    requires Denotes(s, steps) && Denotes(t, others)
    ensures (forall x :: In(s, x) <==> In(t, x)) <==> SameDescription(steps, others)
  {
  }

  // ---------------------------------------------------------------- where the code falls short

  /** (-inf,1] Or [3,+inf) becomes the whole line. */
  lemma OrBridgesAGap()
    ensures var low: Interval := RawInterval(Infinite(Left), Finite(1.0, false, Right));
            var high: Interval := RawInterval(Finite(3.0, false, Left), Infinite(Right));
            Combined([low], high, Or) == [RawInterval(Infinite(Left), Infinite(Right))]
  {
    var low: Interval := RawInterval(Infinite(Left), Finite(1.0, false, Right));
    var high: Interval := RawInterval(Finite(3.0, false, Left), Infinite(Right));
    assert Insert([low], high) == [low, high];
    var whole: Interval := RawInterval(Infinite(Left), Infinite(Right));
    assert TryUnion(low, high) == Some(whole);
    assert [low, high][1..] == [high];
    assert Sweep(low, [high], []) == Sweep(whole, [high][1..], []);
  }

  /** (-inf,5] And [3,+inf) becomes empty although the two share [3,5]. */
  lemma AndLosesAnOverlap()
    ensures var low: Interval := RawInterval(Infinite(Left), Finite(5.0, false, Right));
            var high: Interval := RawInterval(Finite(3.0, false, Left), Infinite(Right));
            Combined([low], high, And) == [] && low.Contains(4.0) && high.Contains(4.0)
  {
    var low: Interval := RawInterval(Infinite(Left), Finite(5.0, false, Right));
    var high: Interval := RawInterval(Finite(3.0, false, Left), Infinite(Right));
    assert [low][..0] == [];
    assert AndAll([low], high) == AndAll([], high);
  }

  /** [3,3) Or (3,3] contains 3, which neither of the two does; and [3,3) alone is stored although it
      has no point, so the form is not canonical. */
  lemma HalfOpenPointsAppear()
    ensures var a: Interval := RawInterval(Finite(3.0, false, Left), Finite(3.0, true, Right));
            var b: Interval := RawInterval(Finite(3.0, true, Left), Finite(3.0, false, Right));
            && Combined(Combined([], a, Or), b, Or) == [Point(3.0)]
            && Combined([], a, Or) == [a]
            && (forall x :: !a.Contains(x) && !b.Contains(x))
  {
    var a: Interval := RawInterval(Finite(3.0, false, Left), Finite(3.0, true, Right));
    var b: Interval := RawInterval(Finite(3.0, true, Left), Finite(3.0, false, Right));
    assert Insert([a], b) == [a, b];
    assert TryUnion(a, b) == Some(Point(3.0));
    assert [a, b][1..] == [b];
    assert Sweep(a, [b], []) == Sweep(Point(3.0), [b][1..], []);
  }
}
