/** The sorted set of intervals behind a range condition, and what add_range computes on it
    (range_condition.hpp), as functions; RangeCondition.dfy holds the class itself. */
module IntervalSets {
  import opened Options
  import opened Intervals

  datatype Relation = Or | And | Xor | Not | Unknown

  /** x is a member of one of the intervals. */
  ghost predicate In(s: seq<Interval>, x: real) {
    exists c :: c in s && c.Contains(x)
  }

  ghost predicate Sorted(s: seq<Interval>) {
    forall i, j :: 0 <= i < j < |s| ==> s[i].Less(s[j])
  }

  ghost predicate NoHalfOpenPoint(s: seq<Interval>) {
    forall c :: c in s ==> !c.IsHalfOpenPoint()
  }

  /** The form simplify() aims for: intervals with points, in order, a gap between any two. */
  ghost predicate Canonical(s: seq<Interval>) {
    && (forall i :: 0 <= i < |s| ==> Inhabited(s[i]))
    && (forall i, j :: 0 <= i < j < |s| ==> GapBefore(s[i], s[j]))
  }

  /** std::set::insert. */
  function Insert(s: seq<Interval>, x: Interval): seq<Interval> {
    if s == [] then [x]
    else if s[0].Less(x) then [s[0]] + Insert(s[1..], x)
    else if x.Less(s[0]) then [x] + s
    else s
  }

  function InsertAll(s: seq<Interval>, xs: seq<Interval>): seq<Interval> {
    if xs == [] then s else Insert(InsertAll(s, xs[..|xs| - 1]), xs[|xs| - 1])
  }

  function AndAll(s: seq<Interval>, x: Interval): seq<Interval> {
    if s == [] then []
    else
      var result := AndAll(s[..|s| - 1], x);
      match TryIntersect(s[|s| - 1], x)
      case Some(c) => Insert(result, c)
      case None => result
  }

  function NotAll(s: seq<Interval>, x: Interval): seq<Interval> {
    if s == [] then []
    else InsertAll(NotAll(s[..|s| - 1], x), Difference(s[|s| - 1], x))
  }

  /** The sweep of simplify(): current is the segment being grown, rest what is still to come. */
  function Sweep(current: Interval, rest: seq<Interval>, result: seq<Interval>): seq<Interval>
    decreases |rest|
  {
    if rest == [] then
      if current.IsEmpty() then result else Insert(result, current)
    else if current.IsEmpty() then
      Sweep(rest[0], rest[1..], result)
    else
      match TryUnion(current, rest[0])
      case Some(merged) => Sweep(merged, rest[1..], result)
      case None => Sweep(rest[0], rest[1..], Insert(result, current))
  }

  function Simplified(s: seq<Interval>): seq<Interval> {
    if |s| < 1 then s
    else if |s| == 1 then (if s[0].IsEmpty() then [] else s)
    else Sweep(s[0], s[1..], [])
  }

  /** What add_range does before it simplifies; Xor and Unknown do nothing. */
  function Applied(s: seq<Interval>, x: Interval, relation: Relation): seq<Interval> {
    match relation
    case And => AndAll(s, x)
    case Or => Insert(s, x)
    case Not => NotAll(s, x)
    case _ => s
  }

  function Combined(s: seq<Interval>, x: Interval, relation: Relation): seq<Interval> {
    Simplified(Applied(s, x, relation))
  }

  /** The point-set operation that a relation names. */
  predicate Wanted(inSet: bool, inInterval: bool, relation: Relation) {
    match relation
    case And => inSet && inInterval
    case Or => inSet || inInterval
    case Not => inSet && !inInterval
    case _ => inSet
  }

  // ---------------------------------------------------------------- when it is exact

  /** During the sweep a segment that reaches minus infinity meets, over a gap, one that reaches
      plus infinity. */
  predicate Bridges(current: Interval, rest: seq<Interval>)
    decreases |rest|
  {
    rest != [] &&
    if current.IsEmpty() then
      Bridges(rest[0], rest[1..])
    else if Wraps(current, rest[0]) && GapBefore(current, rest[0]) then
      true
    else
      match TryUnion(current, rest[0])
      case Some(merged) => Bridges(merged, rest[1..])
      case None => false
  }

  predicate BridgesGap(s: seq<Interval>) {
    |s| > 1 && Bridges(s[0], s[1..])
  }

  /** A stored interval wraps against x although the two overlap. */
  predicate LosesOverlap(s: seq<Interval>, x: Interval) {
    exists c | c in s :: Wraps(c, x) && Overlaps(c, x)
  }

  predicate StepIsSafe(s: seq<Interval>, x: Interval, relation: Relation) {
    && ((relation == And || relation == Not) ==> !LosesOverlap(s, x))
    && !BridgesGap(Applied(s, x, relation))
  }

  // ---------------------------------------------------------------- std::set

  lemma {:induction false} InsertIsSetInsert(s: seq<Interval>, x: Interval)
    requires Sorted(s)
    ensures Sorted(Insert(s, x))
    ensures forall c :: c in Insert(s, x) <==> c in s || c == x
  {
    if s != [] {
      InsertIsSetInsert(s[1..], x);
      assert s == [s[0]] + s[1..];
      if s[0].Less(x) {
        var r := Insert(s[1..], x);
        forall j | 0 <= j < |r| ensures s[0].Less(r[j]) {
          assert r[j] in r;
        }
      } else if x.Less(s[0]) {
        forall j | 0 <= j < |s| ensures x.Less(s[j]) {
        }
      }
    }
  }

  lemma {:induction false} InsertAtEnd(s: seq<Interval>, x: Interval)
    requires forall c :: c in s ==> c.Less(x)
    ensures Insert(s, x) == s + [x]
  {
    if s != [] {
      InsertAtEnd(s[1..], x);
      assert s == [s[0]] + s[1..];
    }
  }

  lemma {:induction false} InsertAllIsUnion(s: seq<Interval>, xs: seq<Interval>)
    requires Sorted(s)
    ensures Sorted(InsertAll(s, xs))
    ensures forall c :: c in InsertAll(s, xs) <==> c in s || c in xs
  {
    if xs != [] {
      var n := |xs| - 1;
      InsertAllIsUnion(s, xs[..n]);
      InsertIsSetInsert(InsertAll(s, xs[..n]), xs[n]);
      assert xs == xs[..n] + [xs[n]];
    }
  }

  lemma {:induction false} AndAllMembers(s: seq<Interval>, x: Interval)
    ensures Sorted(AndAll(s, x))
    ensures forall c :: c in AndAll(s, x) <==> exists d :: d in s && TryIntersect(d, x) == Some(c)
  {
    if s != [] {
      var n := |s| - 1;
      AndAllMembers(s[..n], x);
      assert s == s[..n] + [s[n]];
      if TryIntersect(s[n], x).Some? {
        InsertIsSetInsert(AndAll(s[..n], x), TryIntersect(s[n], x).value);
      }
    }
  }

  lemma {:induction false} NotAllMembers(s: seq<Interval>, x: Interval)
    ensures Sorted(NotAll(s, x))
    ensures forall c :: c in NotAll(s, x) <==> exists d :: d in s && c in Difference(d, x)
  {
    if s != [] {
      var n := |s| - 1;
      NotAllMembers(s[..n], x);
      assert s == s[..n] + [s[n]];
      InsertAllIsUnion(NotAll(s[..n], x), Difference(s[n], x));
    }
  }

  lemma AppliedIsSorted(s: seq<Interval>, x: Interval, relation: Relation)
    requires Sorted(s)
    ensures Sorted(Applied(s, x, relation))
  {
    InsertIsSetInsert(s, x);
    AndAllMembers(s, x);
    NotAllMembers(s, x);
  }

  // ---------------------------------------------------------------- the sweep

  /** n may follow current in the sweep: it starts later, or starts with it and is not empty. */
  predicate Follows(current: Interval, n: Interval) {
    current.left.Less(n.left) || (current.left == n.left && !n.IsEmpty())
  }

  lemma SortedFollows(s: seq<Interval>)
    requires Sorted(s) && |s| > 0
    ensures Sorted(s[1..])
    ensures forall n :: n in s[1..] ==> Follows(s[0], n)
  {
    forall n | n in s[1..] ensures Follows(s[0], n) {
      var j :| 1 <= j < |s| && s[j] == n;
      assert s[0].Less(s[j]);
    }
  }

  /** One step of the sweep, for a current segment that is not empty. */
  lemma SweepStep(current: Interval, next: Interval)
    requires Inhabited(current) && !next.IsHalfOpenPoint() && Follows(current, next)
    ensures match TryUnion(current, next)
            case Some(merged) => merged.left == current.left && Inhabited(merged)
            case None => GapBefore(current, next)
  {
  }

  lemma {:induction false} SweepIsCanonical(current: Interval, rest: seq<Interval>, result: seq<Interval>)
    requires Canonical(result)
    requires Sorted(rest) && NoHalfOpenPoint(rest) && !current.IsHalfOpenPoint()
    requires forall n :: n in rest ==> Follows(current, n)
    requires forall c :: c in result ==> GapBefore(c, current)
    ensures Canonical(Sweep(current, rest, result))
    decreases |rest|
  {
    if !current.IsEmpty() {
      forall c | c in result ensures c.Less(current) {
      }
      InsertAtEnd(result, current);
    }
    if rest != [] {
      assert rest[0] in rest;
      SortedFollows(rest);
      if current.IsEmpty() {
        SweepIsCanonical(rest[0], rest[1..], result);
      } else {
        SweepStep(current, rest[0]);
        match TryUnion(current, rest[0])
        case Some(merged) => SweepIsCanonical(merged, rest[1..], result);
        case None => SweepIsCanonical(rest[0], rest[1..], result + [current]);
      }
    }
  }

  /** The whole line, once reached, absorbs everything that follows. */
  lemma {:induction false} WholeAbsorbs(current: Interval, rest: seq<Interval>, result: seq<Interval>)
    requires current.left.Infinite? && current.right.Infinite?
    ensures Sweep(current, rest, result) == Insert(result, current)
    decreases |rest|
  {
    if rest != [] {
      assert TryUnion(current, rest[0]) == Some(current);
      WholeAbsorbs(current, rest[1..], result);
    }
  }

  lemma {:induction false} SweepMeaning(current: Interval, rest: seq<Interval>, result: seq<Interval>)
    requires Sorted(result) && (current.left.Infinite? ==> result == [])
    requires Sorted(rest) && NoHalfOpenPoint(rest) && !current.IsHalfOpenPoint()
    requires forall n :: n in rest ==> Follows(current, n)
    ensures !Bridges(current, rest) ==>
              forall x :: In(Sweep(current, rest, result), x) <==> In(result, x) || current.Contains(x) || In(rest, x)
    ensures Bridges(current, rest) ==>
              && current.left.Infinite?
              && (forall x :: In(Sweep(current, rest, result), x))
              && exists g :: !current.Contains(g) && !In(rest, g)
    decreases |rest|
  {
    InsertIsSetInsert(result, current);
    if rest != [] {
      var next, tail := rest[0], rest[1..];
      assert rest == [next] + tail;
      assert next in rest;
      SortedFollows(rest);
      if current.IsEmpty() {
        SweepMeaning(next, tail, result);
      } else if Wraps(current, next) && GapBefore(current, next) {
        var merged := TryUnion(current, next).value;
        WholeAbsorbs(merged, tail, result);
        assert merged in Sweep(current, rest, result);
        GapIsFree(current, rest);
      } else {
        SweepStep(current, next);
        match TryUnion(current, next)
        case Some(merged) =>
          UnionIsExactIff(current, next);
          SweepMeaning(merged, tail, result);
        case None =>
          SweepMeaning(next, tail, Insert(result, current));
      }
    }
  }

  lemma GapIsFree(current: Interval, rest: seq<Interval>)
    requires rest != [] && GapBefore(current, rest[0])
    requires forall n :: n in rest[1..] ==> Follows(rest[0], n)
    ensures exists g :: !current.Contains(g) && !In(rest, g)
  {
    var g := GapPoint(current, rest[0]);
    forall n | n in rest ensures !n.Contains(g) {
      assert rest == [rest[0]] + rest[1..];
    }
    assert !In(rest, g);
  }

  /** simplify() keeps the point set if and only if its sweep bridges no gap. */
  lemma SimplifiedIsExactIff(s: seq<Interval>)
    requires Sorted(s) && NoHalfOpenPoint(s)
    ensures (forall x :: In(Simplified(s), x) <==> In(s, x)) <==> !BridgesGap(s)
    ensures BridgesGap(s) ==> forall x :: In(Simplified(s), x)
  {
    if |s| == 1 {
      assert s == [s[0]];
    } else if |s| > 1 {
      assert s == [s[0]] + s[1..];
      SortedFollows(s);
      SweepMeaning(s[0], s[1..], []);
      forall x ensures In(s, x) <==> s[0].Contains(x) || In(s[1..], x) {
      }
    }
  }

  /** simplify() always leaves the canonical form. */
  lemma SimplifiedIsCanonical(s: seq<Interval>)
    requires Sorted(s) && NoHalfOpenPoint(s)
    ensures Canonical(Simplified(s))
  {
    if |s| == 1 {
      assert s[0] in s;
    } else if |s| > 1 {
      SortedFollows(s);
      assert s[0] in s;
      SweepIsCanonical(s[0], s[1..], []);
    }
  }

  // ---------------------------------------------------------------- one step of add_range

  lemma CanonicalIsSorted(s: seq<Interval>)
    requires Canonical(s)
    ensures Sorted(s) && NoHalfOpenPoint(s)
  {
    forall i, j | 0 <= i < j < |s| ensures s[i].Less(s[j]) {
      assert GapBefore(s[i], s[j]);
    }
  }

  lemma AppliedHasNoHalfOpenPoint(s: seq<Interval>, x: Interval, relation: Relation)
    requires Canonical(s) && !x.IsHalfOpenPoint()
    ensures NoHalfOpenPoint(Applied(s, x, relation))
  {
    CanonicalIsSorted(s);
    InsertIsSetInsert(s, x);
    AndAllMembers(s, x);
    NotAllMembers(s, x);
    forall d | d in s
      ensures TryIntersect(d, x).Some? ==> !TryIntersect(d, x).value.IsHalfOpenPoint()
      ensures forall c :: c in Difference(d, x) ==> !c.IsHalfOpenPoint()
    {
      PiecesHaveNoHalfOpenPoint(d, x);
    }
  }

  /** Every add_range leaves the canonical form, whatever the relation. */
  lemma StepIsCanonical(s: seq<Interval>, x: Interval, relation: Relation)
    requires Canonical(s) && !x.IsHalfOpenPoint()
    ensures Canonical(Combined(s, x, relation))
  {
    CanonicalIsSorted(s);
    AppliedIsSorted(s, x, relation);
    AppliedHasNoHalfOpenPoint(s, x, relation);
    SimplifiedIsCanonical(Applied(s, x, relation));
  }

  lemma CanonicalIsDisjoint(s: seq<Interval>, c: Interval, d: Interval, x: real)
    requires Canonical(s) && c in s && d in s && c.Contains(x) && d.Contains(x)
    ensures c == d
  {
    var i :| 0 <= i < |s| && s[i] == c;
    var j :| 0 <= j < |s| && s[j] == d;
    assert i == j;
  }

  lemma {:induction false} AndAllMeaning(s: seq<Interval>, x: Interval)
    requires Canonical(s)
    ensures forall p :: In(AndAll(s, x), p) ==> In(s, p) && x.Contains(p)
    ensures !LosesOverlap(s, x) <==> forall p :: In(s, p) && x.Contains(p) ==> In(AndAll(s, x), p)
  {
    AndAllMembers(s, x);
    forall p | In(AndAll(s, x), p) ensures In(s, p) && x.Contains(p) {
      var c :| c in AndAll(s, x) && c.Contains(p);
      var d :| d in s && TryIntersect(d, x) == Some(c);
      IntersectIsExactIff(d, x);
    }
    if LosesOverlap(s, x) {
      var d :| d in s && Wraps(d, x) && Overlaps(d, x);
      var p := SomePoint(Clip(d, x));
      if In(AndAll(s, x), p) {
        var c :| c in AndAll(s, x) && c.Contains(p);
        var e :| e in s && TryIntersect(e, x) == Some(c);
        IntersectIsExactIff(e, x);
        CanonicalIsDisjoint(s, d, e, p);
      }
    } else {
      forall p | In(s, p) && x.Contains(p) ensures In(AndAll(s, x), p) {
        var d :| d in s && d.Contains(p);
        OverlapsIffCommonPoint(d, x);
        IntersectIsExactIff(d, x);
        assert TryIntersect(d, x).value in AndAll(s, x);
      }
    }
  }

  lemma {:induction false} NotAllMeaning(s: seq<Interval>, x: Interval)
    requires Canonical(s)
    ensures forall p :: In(s, p) && !x.Contains(p) ==> In(NotAll(s, x), p)
    ensures !LosesOverlap(s, x) <==> forall p :: In(NotAll(s, x), p) ==> In(s, p) && !x.Contains(p)
  {
    NotAllMembers(s, x);
    forall p | In(s, p) && !x.Contains(p) ensures In(NotAll(s, x), p) {
      var d :| d in s && d.Contains(p);
      DifferenceKeeps(d, x, p);
    }
    if LosesOverlap(s, x) {
      var d :| d in s && Wraps(d, x) && Overlaps(d, x);
      var p := SomePoint(Clip(d, x));
      assert d in Difference(d, x);
      assert In(NotAll(s, x), p);
    } else {
      forall p | In(NotAll(s, x), p) ensures In(s, p) && !x.Contains(p) {
        var c :| c in NotAll(s, x) && c.Contains(p);
        var d :| d in s && c in Difference(d, x);
        CanonicalIsSorted(s);
        DifferenceIsExactIff(d, x);
      }
    }
  }

  lemma DifferenceKeeps(d: Interval, x: Interval, p: real)
    requires Inhabited(d) && d.Contains(p) && !x.Contains(p)
    ensures exists c :: c in Difference(d, x) && c.Contains(p)
  {
    if Wraps(d, x) {
      assert d in Difference(d, x);
    } else {
      DifferenceAt(d, x, p);
    }
  }

  /** All left ends finite, or all right ends finite. */
  ghost predicate OneSided(s: seq<Interval>) {
    || (forall c :: c in s ==> c.left.Finite?)
    || (forall c :: c in s ==> c.right.Finite?)
  }

  lemma {:induction false} OneSidedNeverBridges(current: Interval, rest: seq<Interval>)
    requires OneSided([current] + rest)
    ensures !Bridges(current, rest)
    decreases |rest|
  {
    if rest != [] {
      assert current in [current] + rest && rest[0] in [current] + rest;
      assert forall c :: c in rest[1..] ==> c in [current] + rest;
      if current.IsEmpty() {
        OneSidedNeverBridges(rest[0], rest[1..]);
      } else if TryUnion(current, rest[0]).Some? {
        OneSidedNeverBridges(TryUnion(current, rest[0]).value, rest[1..]);
      }
    }
  }

  lemma {:induction false} AndNeverBridges(s: seq<Interval>, x: Interval)
    ensures !BridgesGap(AndAll(s, x))
  {
    AndAllMembers(s, x);
    var r := AndAll(s, x);
    forall c | c in r
      ensures x.left.Infinite? ==> c.right.Finite?
      ensures x.left.Finite? ==> c.left.Finite?
    {
      var d :| d in s && TryIntersect(d, x) == Some(c);
    }
    if |r| > 1 {
      assert r == [r[0]] + r[1..];
      OneSidedNeverBridges(r[0], r[1..]);
    }
  }

  /** add_range computes the intended point set if and only if the step is safe: no stored interval
      wraps against an overlapping x (And, Not), and the sweep bridges no gap. */
  lemma StepIsExactIff(s: seq<Interval>, x: Interval, relation: Relation)
    requires Canonical(s) && !x.IsHalfOpenPoint()
    ensures (forall p :: In(Combined(s, x, relation), p) <==> Wanted(In(s, p), x.Contains(p), relation))
            <==> StepIsSafe(s, x, relation)
  {
    CanonicalIsSorted(s);
    var t := Applied(s, x, relation);
    AppliedIsSorted(s, x, relation);
    AppliedHasNoHalfOpenPoint(s, x, relation);
    SimplifiedIsExactIff(t);
    match relation
    case And =>
      AndNeverBridges(s, x);
      AndAllMeaning(s, x);
    case Not =>
      NotAllMeaning(s, x);
    case Or =>
      InsertIsSetInsert(s, x);
      forall p ensures In(t, p) <==> In(s, p) || x.Contains(p) {
        assert x in t;
      }
    case _ =>
  }

  // ---------------------------------------------------------------- any history

  datatype Step = Step(interval: Interval, relation: Relation)

  /** The stored intervals after a sequence of add_range calls on an empty condition. */
  function Run(steps: seq<Step>): seq<Interval> {
    if steps == [] then []
    else
      var last := steps[|steps| - 1];
      Combined(Run(steps[..|steps| - 1]), last.interval, last.relation)
  }

  /** Whether x belongs to the set that the same calls describe. */
  predicate Described(steps: seq<Step>, x: real) {
    if steps == [] then false
    else
      var last := steps[|steps| - 1];
      Wanted(Described(steps[..|steps| - 1], x), last.interval.Contains(x), last.relation)
  }

  predicate NoHalfOpenStep(steps: seq<Step>) {
    forall k :: 0 <= k < |steps| ==> !steps[k].interval.IsHalfOpenPoint()
  }

  /** Every call is safe at the moment it is made. */
  ghost predicate EveryStepIsSafe(steps: seq<Step>) {
    forall k :: 0 <= k < |steps| ==> StepIsSafe(Run(steps[..k]), steps[k].interval, steps[k].relation)
  }

  /** After any history the stored form is canonical, and it denotes exactly the described set
      as long as every call was safe. */
  lemma {:induction false} HistoryIsExact(steps: seq<Step>)
    requires NoHalfOpenStep(steps)
    ensures Canonical(Run(steps))
    ensures EveryStepIsSafe(steps) ==> forall x :: In(Run(steps), x) <==> Described(steps, x)
  {
    if steps != [] {
      var n := |steps| - 1;
      var before := steps[..n];
      HistoryIsExact(before);
      StepIsCanonical(Run(before), steps[n].interval, steps[n].relation);
      if EveryStepIsSafe(steps) {
        forall k | 0 <= k < n ensures StepIsSafe(Run(before[..k]), before[k].interval, before[k].relation) {
          assert before[..k] == steps[..k];
          assert StepIsSafe(Run(steps[..k]), steps[k].interval, steps[k].relation);
        }
        assert steps[..n] == before;
        StepIsExactIff(Run(before), steps[n].interval, steps[n].relation);
      }
    }
  }

  predicate LeftFinite(steps: seq<Step>) {
    forall k :: 0 <= k < |steps| ==> steps[k].interval.left.Finite?
  }

  predicate RightFinite(steps: seq<Step>) {
    forall k :: 0 <= k < |steps| ==> steps[k].interval.right.Finite?
  }

  ghost predicate AllOneSided(s: seq<Interval>, leftFinite: bool) {
    forall c :: c in s ==> FiniteOn(c, leftFinite)
  }

  lemma {:induction false} SweepStaysOneSided(current: Interval, rest: seq<Interval>, result: seq<Interval>,
                                              leftFinite: bool)
    requires Sorted(result)
    requires AllOneSided([current] + rest, leftFinite) && AllOneSided(result, leftFinite)
    ensures AllOneSided(Sweep(current, rest, result), leftFinite)
    decreases |rest|
  {
    InsertIsSetInsert(result, current);
    assert current in [current] + rest;
    if rest != [] {
      assert rest[0] in [current] + rest;
      assert forall c :: c in rest[1..] ==> c in [current] + rest;
      if current.IsEmpty() {
        SweepStaysOneSided(rest[0], rest[1..], result, leftFinite);
      } else {
        match TryUnion(current, rest[0])
        case Some(merged) => SweepStaysOneSided(merged, rest[1..], result, leftFinite);
        case None => SweepStaysOneSided(rest[0], rest[1..], Insert(result, current), leftFinite);
      }
    }
  }

  ghost predicate FiniteOn(c: Interval, leftFinite: bool) {
    if leftFinite then c.left.Finite? else c.right.Finite?
  }

  lemma PiecesStayOneSided(d: Interval, x: Interval, leftFinite: bool)
    requires FiniteOn(d, leftFinite) && FiniteOn(x, leftFinite)
    ensures !Wraps(d, x)
    ensures TryIntersect(d, x).Some? ==> FiniteOn(TryIntersect(d, x).value, leftFinite)
    ensures forall c :: c in Difference(d, x) ==> FiniteOn(c, leftFinite)
  {
  }

  lemma AppliedStaysOneSided(s: seq<Interval>, x: Interval, relation: Relation, leftFinite: bool)
    requires Sorted(s) && AllOneSided(s, leftFinite) && FiniteOn(x, leftFinite)
    ensures AllOneSided(Applied(s, x, relation), leftFinite)
    ensures !LosesOverlap(s, x)
  {
    InsertIsSetInsert(s, x);
    AndAllMembers(s, x);
    NotAllMembers(s, x);
    forall d | d in s
      ensures !Wraps(d, x)
      ensures TryIntersect(d, x).Some? ==> FiniteOn(TryIntersect(d, x).value, leftFinite)
      ensures forall c :: c in Difference(d, x) ==> FiniteOn(c, leftFinite)
    {
      PiecesStayOneSided(d, x, leftFinite);
    }
    forall c | c in Applied(s, x, relation) ensures FiniteOn(c, leftFinite) {
    }
  }

  lemma OneSidedStep(s: seq<Interval>, x: Interval, relation: Relation, leftFinite: bool)
    requires Sorted(s) && AllOneSided(s, leftFinite) && FiniteOn(x, leftFinite)
    ensures StepIsSafe(s, x, relation)
    ensures AllOneSided(Combined(s, x, relation), leftFinite)
  {
    AppliedStaysOneSided(s, x, relation, leftFinite);
    AppliedIsSorted(s, x, relation);
    var t := Applied(s, x, relation);
    if |t| > 1 {
      assert t == [t[0]] + t[1..];
      OneSidedNeverBridges(t[0], t[1..]);
      SweepStaysOneSided(t[0], t[1..], [], leftFinite);
    }
  }

  lemma {:induction false} OneSidedHistory(steps: seq<Step>, leftFinite: bool)
    requires if leftFinite then LeftFinite(steps) else RightFinite(steps)
    requires NoHalfOpenStep(steps)
    ensures EveryStepIsSafe(steps)
    ensures AllOneSided(Run(steps), leftFinite)
  {
    if steps != [] {
      var n := |steps| - 1;
      var before := steps[..n];
      OneSidedHistory(before, leftFinite);
      HistoryIsExact(before);
      CanonicalIsSorted(Run(before));
      OneSidedStep(Run(before), steps[n].interval, steps[n].relation, leftFinite);
      forall k | 0 <= k < |steps| ensures StepIsSafe(Run(steps[..k]), steps[k].interval, steps[k].relation) {
        if k < n {
          assert before[..k] == steps[..k];
          assert StepIsSafe(Run(before[..k]), before[k].interval, before[k].relation);
        } else {
          assert steps[..k] == before;
        }
      }
    }
  }

  /** With intervals that are all bounded on the left, or all bounded on the right, every history
      of Or/And/Not denotes exactly the matching union, intersection and difference. */
  lemma {:induction false} BoundedHistoryIsExact(steps: seq<Step>)
    requires NoHalfOpenStep(steps) && (LeftFinite(steps) || RightFinite(steps))
    ensures Canonical(Run(steps))
    ensures forall x :: In(Run(steps), x) <==> Described(steps, x)
  {
    OneSidedHistory(steps, LeftFinite(steps));
    HistoryIsExact(steps);
  }
}
