/** When simplify() bridges a gap, told by the points that the stored intervals hold. */
module GapBridging {
  import opened Options
  import opened Intervals
  import opened IntervalSets
  import opened CanonicalForm

  /** What stands before position k is one left-unbounded interval c of points, an empty interval only
      inside it, and behind a gap comes a right-unbounded member. */
  ghost predicate GapAt(s: seq<Interval>, k: nat, c: Interval)
    requires k < |s|
  {
    && c.left.Infinite? && s[k].right.Infinite? && GapBefore(c, s[k])
    && (forall x :: In(s[..k], x) <==> c.Contains(x))
    && (forall i | 0 <= i < k && s[i].IsEmpty() :: c.Contains(s[i].left.bound))
  }

  /** The same behind a segment that the sweep has grown. */
  ghost predicate GapBehind(current: Interval, rest: seq<Interval>, k: nat, c: Interval)
    requires k < |rest|
  {
    && c.left.Infinite? && rest[k].right.Infinite? && GapBefore(c, rest[k])
    && (forall x :: current.Contains(x) || In(rest[..k], x) <==> c.Contains(x))
    && (forall i | 0 <= i < k && rest[i].IsEmpty() :: c.Contains(rest[i].left.bound))
  }

  lemma InSplits(s: seq<Interval>, x: real)
    requires s != []
    ensures In(s, x) <==> s[0].Contains(x) || In(s[1..], x)
  {
    if c :| c in s && c.Contains(x) {
      assert c == s[0] || c in s[1..];
    }
  }

  lemma SamePointsSameInterval(a: Interval, b: Interval)
    requires Inhabited(a) && Inhabited(b) && forall x :: a.Contains(x) <==> b.Contains(x)
    ensures a == b
  {
    IncludesIffSubset(a, b);
    IncludesIffSubset(b, a);
  }

  /** An empty interval is absorbed exactly where the growing segment has a point. */
  lemma EmptyMergesIff(current: Interval, next: Interval)
    requires Inhabited(current) && next.IsEmpty() && Follows(current, next)
    ensures TryUnion(current, next).Some? <==> current.Contains(next.left.bound)
    ensures TryUnion(current, next).Some? ==> TryUnion(current, next).value == current
  {
  }

  /** Later intervals do not reach back to the position of an empty one. */
  lemma LaterStartsBehind(next: Interval, n: Interval)
    requires next.IsEmpty() && Follows(next, n)
    ensures !n.Contains(next.left.bound)
  {
  }

  lemma MergeMoves(current: Interval, rest: seq<Interval>, merged: Interval, k: nat, c: Interval)
    requires 0 < k < |rest| && forall x :: merged.Contains(x) <==> current.Contains(x) || rest[0].Contains(x)
    requires rest[0].IsEmpty() ==> current.Contains(rest[0].left.bound)
    ensures GapBehind(current, rest, k, c) <==> GapBehind(merged, rest[1..], k - 1, c)
  {
    var tail := rest[1..];
    assert tail[..k - 1] == rest[..k][1..];
    forall x ensures In(rest[..k], x) <==> rest[0].Contains(x) || In(tail[..k - 1], x) {
      InSplits(rest[..k], x);
    }
    assert forall i | 0 <= i < k - 1 :: tail[i] == rest[i + 1];
    if GapBehind(merged, tail, k - 1, c) {
      forall i | 0 <= i < k && rest[i].IsEmpty() ensures c.Contains(rest[i].left.bound) {
        assert i == 0 || tail[i - 1] == rest[i];
      }
    }
    if GapBehind(current, rest, k, c) {
      forall i | 0 <= i < k - 1 && tail[i].IsEmpty() ensures c.Contains(tail[i].left.bound) {
        assert tail[i] == rest[i + 1];
      }
    }
  }

  /** Before the gap the sweep merges: the next member cannot stay apart. */
  lemma MustMerge(current: Interval, rest: seq<Interval>, k: nat, c: Interval)
    requires Inhabited(current) && 0 < k < |rest| && GapBehind(current, rest, k, c)
    requires Sorted(rest) && NoHalfOpenPoint(rest) && forall n :: n in rest ==> Follows(current, n)
    ensures TryUnion(current, rest[0]).Some?
  {
    var next := rest[0];
    assert next in rest;
    SortedFollows(rest);
    if next.IsEmpty() {
      var v := next.left.bound;
      assert c.Contains(v);
      if n :| n in rest[..k] && n.Contains(v) {
        var j :| 0 <= j < k && rest[j] == n;
        assert j > 0 && n in rest[1..];
        LaterStartsBehind(next, n);
      }
      EmptyMergesIff(current, next);
    } else if TryUnion(current, next).None? {
      SweepStep(current, next);
      var g, p := GapPoint(current, next), SomePoint(next);
      assert rest[..k][0] == next && In(rest[..k], p) && c.Contains(p) && c.Contains(g);
      assert false;
    }
  }

  lemma {:induction false} BridgesIff(current: Interval, rest: seq<Interval>)
    requires Inhabited(current) && Sorted(rest) && NoHalfOpenPoint(rest)
    requires forall n :: n in rest ==> Follows(current, n)
    ensures Bridges(current, rest) <==> exists k: nat, c: Interval | k < |rest| :: GapBehind(current, rest, k, c)
    decreases |rest|, 1
  {
    if rest != [] {
      var next, tail := rest[0], rest[1..];
      assert next in rest && rest == [next] + tail;
      SortedFollows(rest);
      if Wraps(current, next) && GapBefore(current, next) {
        assert GapBehind(current, rest, 0, current);
      } else {
        NoGapAtOnce(current, rest);
        match TryUnion(current, next)
        case Some(merged) => MergedBridgesIff(current, rest, merged);
        case None =>
          forall k: nat, c: Interval | k < |rest| ensures !GapBehind(current, rest, k, c) {
            if k > 0 && GapBehind(current, rest, k, c) {
              MustMerge(current, rest, k, c);
              assert false;
            }
          }
      }
    }
  }

  lemma NoGapAtOnce(current: Interval, rest: seq<Interval>)
    requires rest != [] && Inhabited(current) && !(Wraps(current, rest[0]) && GapBefore(current, rest[0]))
    ensures forall c: Interval :: !GapBehind(current, rest, 0, c)
  {
    forall c: Interval ensures !GapBehind(current, rest, 0, c) {
      if GapBehind(current, rest, 0, c) {
        assert forall x :: !In(rest[..0], x);
        SamePointsSameInterval(current, c);
        assert false;
      }
    }
  }

  lemma {:induction false} MergedBridgesIff(current: Interval, rest: seq<Interval>, merged: Interval)
    requires rest != [] && TryUnion(current, rest[0]) == Some(merged)
    requires !(Wraps(current, rest[0]) && GapBefore(current, rest[0]))
    requires Inhabited(current) && Sorted(rest) && NoHalfOpenPoint(rest)
    requires forall n :: n in rest ==> Follows(current, n)
    requires forall c: Interval :: !GapBehind(current, rest, 0, c)
    ensures Bridges(current, rest) <==> exists k: nat, c: Interval | k < |rest| :: GapBehind(current, rest, k, c)
    decreases |rest|, 0
  {
    hide GapBehind;
    var next, tail := rest[0], rest[1..];
    assert next in rest && !next.IsHalfOpenPoint();
    SortedFollows(rest);
    SweepStep(current, next);
    UnionIsExactIff(current, next);
    if next.IsEmpty() {
      EmptyMergesIff(current, next);
    }
    forall n | n in tail ensures Follows(merged, n) {
      assert n in rest;
    }
    BridgesIff(merged, tail);
    forall k: nat, c: Interval | 0 < k < |rest|
      ensures GapBehind(current, rest, k, c) <==> GapBehind(merged, tail, k - 1, c)
    {
      MergeMoves(current, rest, merged, k, c);
    }
    if k: nat, c: Interval :| k < |tail| && GapBehind(merged, tail, k, c) {
      assert GapBehind(current, rest, k + 1, c);
    }
  }

  /** Behind an empty first member no member reaches minus infinity. */
  lemma NoLeftUnbounded(s: seq<Interval>)
    requires Sorted(s) && NoHalfOpenPoint(s) && s != [] && s[0].IsEmpty()
    ensures !BridgesGap(s)
    ensures forall k: nat, c: Interval | k < |s| :: !GapAt(s, k, c)
  {
    SortedFollows(s);
    assert s[0] in s && forall n | n in s[1..] :: n in s;
    SweepMeaning(s[0], s[1..], []);
    forall k: nat, c: Interval | k < |s| ensures !GapAt(s, k, c) {
      if c.left.Infinite? && c.right.Finite? {
        var low := if s[0].left.bound < c.right.bound then s[0].left.bound else c.right.bound;
        assert c.Contains(low - 1.0);
        NothingBelow(s, k, low - 1.0);
      }
    }
  }

  lemma NothingBelow(s: seq<Interval>, k: nat, x: real)
    requires Sorted(s) && k <= |s| && s != [] && s[0].left.Finite? && x < s[0].left.bound
    ensures !In(s[..k], x)
  {
    forall n | n in s[..k] ensures !n.Contains(x) {
      var j :| 0 <= j < k && s[j] == n;
      assert j == 0 || s[0].Less(s[j]);
    }
  }

  lemma GapFromFirst(s: seq<Interval>, k: nat, c: Interval)
    requires k < |s| && !s[0].IsEmpty()
    ensures GapAt(s, k, c) <==> k > 0 && GapBehind(s[0], s[1..], k - 1, c)
  {
    if k == 0 {
      if c.left.Infinite? {
        assert c.Contains(SomePoint(c)) && !In(s[..0], SomePoint(c));
      }
    } else {
      var rest := s[1..];
      assert s[..k][1..] == rest[..k - 1];
      forall x ensures In(s[..k], x) <==> s[0].Contains(x) || In(rest[..k - 1], x) {
        InSplits(s[..k], x);
      }
      if GapAt(s, k, c) {
        forall i | 0 <= i < k - 1 && rest[i].IsEmpty() ensures c.Contains(rest[i].left.bound) {
          assert s[i + 1] == rest[i];
        }
      }
      if GapBehind(s[0], rest, k - 1, c) {
        forall i | 0 <= i < k && s[i].IsEmpty() ensures c.Contains(s[i].left.bound) {
          assert rest[i - 1] == s[i];
        }
      }
    }
  }

  /** simplify() bridges a gap if and only if the members before some right-unbounded member hold exactly the
      points of one left-unbounded interval that ends before it with a gap. */
  lemma BridgesGapIff(s: seq<Interval>)
    requires Sorted(s) && NoHalfOpenPoint(s)
    ensures BridgesGap(s) <==> exists k: nat, c: Interval | k < |s| :: GapAt(s, k, c)
  {
    if |s| > 0 {
      SortedFollows(s);
      var first := s[0];
      assert first in s;
      if first.IsEmpty() {
        NoLeftUnbounded(s);
      } else {
        BridgesIff(first, s[1..]);
        assert forall n | n in s[1..] :: n in s;
        forall k: nat, c: Interval | k < |s| ensures GapAt(s, k, c) <==> k > 0 && GapBehind(first, s[1..], k - 1, c) {
          GapFromFirst(s, k, c);
        }
        if k: nat, c: Interval :| k < |s| - 1 && GapBehind(first, s[1..], k, c) {
          assert GapAt(s, k + 1, c);
        }
      }
    }
  }
}
