/** What a generated WHERE clause selects, read with the precedence of SQL: AND binds tighter than OR. */
module WhereMeaning {
  import opened Options
  import opened Where
  import opened Sequences

  // ---------------------------------------------------------------- reading SQL

  datatype Expr =
    | Comparison(name: string, sign: Sign, value: int)
    | Conj(left: Expr, right: Expr)
    | Disj(left: Expr, right: Expr)

  /** An expression, and the text behind it. */
  type Reading = Option<(Expr, seq<Token>)>

  function ReadAtom(t: seq<Token>): (r: Reading)
    ensures r.Some? ==> |r.value.1| < |t|
    decreases |t|, 0
  {
    if |t| >= 1 && t[0] == OpenSign then
      var inner := ReadOr(t[1..]);
      if inner.None? || inner.value.1 == [] || inner.value.1[0] != CloseSign then None
      else Some((inner.value.0, inner.value.1[1..]))
    else if |t| >= 3 && t[0].Name? && t[1].Compare? && t[2].Number? then
      Some((Comparison(t[0].name, t[1].sign, t[2].value), t[3..]))
    else None
  }

  function ReadAnd(t: seq<Token>): (r: Reading)
    ensures r.Some? ==> |r.value.1| < |t|
    decreases |t|, 1
  {
    var first := ReadAtom(t);
    if first.None? || first.value.1 == [] || first.value.1[0] != AndSign then first
    else
      var second := ReadAnd(first.value.1[1..]);
      if second.None? then None else Some((Conj(first.value.0, second.value.0), second.value.1))
  }

  function ReadOr(t: seq<Token>): (r: Reading)
    ensures r.Some? ==> |r.value.1| < |t|
    decreases |t|, 2
  {
    var first := ReadAnd(t);
    if first.None? || first.value.1 == [] || first.value.1[0] != OrSign then first
    else
      var second := ReadOr(first.value.1[1..]);
      if second.None? then None else Some((Disj(first.value.0, second.value.0), second.value.1))
  }

  predicate Meets(x: int, sign: Sign, value: int) {
    match sign
    case Greater => x > value
    case GreaterOrEqual => x >= value
    case Less => x < value
    case LessOrEqual => x <= value
  }

  type Row = string -> int

  predicate Eval(e: Expr, row: Row) {
    match e
    case Comparison(name, sign, value) => Meets(row(name), sign, value)
    case Conj(left, right) => Eval(left, row) && Eval(right, row)
    case Disj(left, right) => Eval(left, row) || Eval(right, row)
  }

  // ---------------------------------------------------------------- what is intended

  predicate Contains(iv: Interval, x: int) {
    && (iv.left.Some? ==> if iv.left.value.isOpen then x > iv.left.value.value else x >= iv.left.value.value)
    && (iv.right.Some? ==> if iv.right.value.isOpen then x < iv.right.value.value else x <= iv.right.value.value)
  }

  /** The row's value is in the range of the condition. */
  predicate InRange(item: Item, row: Row) {
    exists k | 0 <= k < |item.Intervals()| :: Contains(item.Intervals()[k], row(item.column.name))
  }

  predicate Intended(items: seq<Item>, row: Row) {
    forall k | 0 <= k < |items| :: InRange(items[k], row)
  }

  /** At most one ORDER BY may follow the expression. */
  predicate IsOrder(rest: seq<Token>) {
    rest == [] || (|rest| == 1 && rest[0].OrderBy?)
  }

  /** The text reads as one expression with an order, if any, or there is no WHERE at all. */
  predicate IsReadable(text: seq<Token>) {
    text == [] || (ReadOr(text).Some? && IsOrder(ReadOr(text).value.1))
  }

  predicate Selects(text: seq<Token>, row: Row)
    requires IsReadable(text)
  {
    text == [] || Eval(ReadOr(text).value.0, row)
  }

  /** The order that is read behind the expression. */
  function OrderRead(text: seq<Token>): (r: seq<Token>)
    requires IsReadable(text)
    ensures IsOrder(r)
  {
    if text == [] then [] else ReadOr(text).value.1
  }

  ghost predicate IsSortedBy(rows: seq<Row>, column: string, descending: bool) {
    forall j, k | 0 <= j < k < |rows| ::
      if descending then rows[j](column) >= rows[k](column) else rows[j](column) <= rows[k](column)
  }

  /** The rows can come back in this order: an ORDER BY that is read sorts them. */
  ghost predicate CanComeBack(rows: seq<Row>, order: seq<Token>)
    requires IsOrder(order)
  {
    order == [] || IsSortedBy(rows, order[0].column, order[0].descending)
  }

  /** Every condition with an order has the rows sorted by its column, the largest first if it says so. */
  ghost predicate AreInOrder(rows: seq<Row>, items: seq<Item>) {
    forall k | 0 <= k < |items| && items[k].isDescending.Some? ::
      IsSortedBy(rows, items[k].column.name, items[k].isDescending.value)
  }

  /** The statement is accepted, selects exactly the rows that every condition's range contains, and
      returns them in the order that the conditions ask for. */
  ghost predicate IsRight(table: seq<Column>, items: seq<Item>) {
    var text := ClauseText(table, items, true);
    && IsReadable(text)
    && (forall row: Row :: Selects(text, row) <==> Intended(items, row))
    && (forall rows: seq<Row> :: CanComeBack(rows, OrderRead(text)) <==> AreInOrder(rows, items))
  }

  // ---------------------------------------------------------------- chains of intervals

  /** An interval in the text, joined to what is before it by AND or by OR. */
  datatype Link = Link(isAnd: bool, name: string, iv: Interval)

  function Group(l: Link): seq<Token> {
    var text := IntervalTokens(l.iv, l.name, true);
    if text.None? then [] else text.value
  }

  function Behind(links: seq<Link>, tail: seq<Token>): seq<Token> {
    if links == [] then tail
    else [if links[0].isAnd then AndSign else OrSign] + Group(links[0]) + Behind(links[1..], tail)
  }

  function Text(links: seq<Link>): seq<Token> {
    if links == [] then [] else Group(links[0]) + Behind(links[1..], [])
  }

  predicate Sat(l: Link, row: Row) {
    Contains(l.iv, row(l.name))
  }

  ghost predicate NoneWhole(links: seq<Link>) {
    forall k | 0 <= k < |links| :: !IsWhole(links[k].iv)
  }

  function LeftExpr(l: Link): Expr
    requires l.iv.left.Some?
  {
    Comparison(l.name, if l.iv.left.value.isOpen then Greater else GreaterOrEqual, l.iv.left.value.value)
  }

  function RightExpr(l: Link): Expr
    requires l.iv.right.Some?
  {
    Comparison(l.name, if l.iv.right.value.isOpen then Less else LessOrEqual, l.iv.right.value.value)
  }

  function GroupExpr(l: Link): Expr
    requires !IsWhole(l.iv)
  {
    if l.iv.right.None? then LeftExpr(l)
    else if l.iv.left.None? then RightExpr(l)
    else Conj(LeftExpr(l), RightExpr(l))
  }

  /** A comparison is read, whatever is behind it. */
  lemma ComparisonReads(name: string, sign: Sign, value: int, rest: seq<Token>)
    requires rest == [] || (rest[0] != AndSign && rest[0] != OrSign)
    ensures var text := [Name(name), Compare(sign), Number(value)] + rest;
            && ReadAtom(text) == Some((Comparison(name, sign, value), rest))
            && ReadAnd(text) == Some((Comparison(name, sign, value), rest))
            && ReadOr(text) == Some((Comparison(name, sign, value), rest))
  {
    var text := [Name(name), Compare(sign), Number(value)] + rest;
    assert text[3..] == rest;
  }

  lemma PairReads(left: Expr, right: Expr, rest: seq<Token>)
    requires left.Comparison? && right.Comparison? && rest != [] && rest[0] == CloseSign
    ensures var text := [Name(left.name), Compare(left.sign), Number(left.value)] + [AndSign]
                        + [Name(right.name), Compare(right.sign), Number(right.value)] + rest;
            ReadOr(text) == Some((Conj(left, right), rest))
  {
    var second := [Name(right.name), Compare(right.sign), Number(right.value)] + rest;
    var text := [Name(left.name), Compare(left.sign), Number(left.value)] + [AndSign]
                + [Name(right.name), Compare(right.sign), Number(right.value)] + rest;
    ComparisonReads(right.name, right.sign, right.value, rest);
    assert text[3..] == [AndSign] + second;
    assert text[3..][1..] == second;
    assert ReadAtom(text) == Some((left, text[3..]));
    assert ReadAnd(text) == Some((Conj(left, right), rest));
  }

  lemma {:induction false} ParenthesesRead(inner: seq<Token>, e: Expr, rest: seq<Token>)
    requires ReadOr(inner + ([CloseSign] + rest)) == Some((e, [CloseSign] + rest))
    ensures ReadAtom([OpenSign] + inner + [CloseSign] + rest) == Some((e, rest))
  {
    hide ReadOr;
    var text := [OpenSign] + inner + [CloseSign] + rest;
    assert text[1..] == inner + ([CloseSign] + rest);
    assert ([CloseSign] + rest)[1..] == rest;
  }

  lemma {:induction false} GroupReads(l: Link, rest: seq<Token>)
    requires !IsWhole(l.iv)
    ensures ReadAtom(Group(l) + rest) == Some((GroupExpr(l), rest))
  {
    hide ReadOr, ReadAnd, ReadAtom;
    var behind := [CloseSign] + rest;
    if l.iv.right.None? || l.iv.left.None? {
      var e := if l.iv.right.None? then LeftExpr(l) else RightExpr(l);
      ComparisonReads(e.name, e.sign, e.value, behind);
      ParenthesesRead([Name(e.name), Compare(e.sign), Number(e.value)], e, rest);
    } else {
      var e, f := LeftExpr(l), RightExpr(l);
      PairReads(e, f, behind);
      var left, right := [Name(e.name), Compare(e.sign), Number(e.value)],
        [Name(f.name), Compare(f.sign), Number(f.value)];
      ParenthesesRead(left + [AndSign] + right, GroupExpr(l), rest);
      assert Group(l) == [OpenSign] + (left + [AndSign] + right) + [CloseSign];
    }
  }

  /** The run of intervals joined by AND at the front, and what is behind it. */
  function Run(first: Link, links: seq<Link>): Expr
    requires !IsWhole(first.iv) && NoneWhole(links)
    decreases |links|
  {
    if links == [] || !links[0].isAnd then GroupExpr(first) else Conj(GroupExpr(first), Run(links[0], links[1..]))
  }

  function BehindRun(links: seq<Link>): (r: seq<Link>)
    ensures |r| <= |links| && (NoneWhole(links) ==> NoneWhole(r))
    ensures r != [] ==> !r[0].isAnd
  {
    if links == [] || !links[0].isAnd then links else BehindRun(links[1..])
  }

  function Tree(first: Link, links: seq<Link>): Expr
    requires !IsWhole(first.iv) && NoneWhole(links)
    decreases |links|
  {
    var rest := BehindRun(links);
    if rest == [] then Run(first, links) else Disj(Run(first, links), Tree(rest[0], rest[1..]))
  }

  /** An AND with nothing to read behind it. */
  predicate IsDangling(tail: seq<Token>) {
    tail != [] && tail[0] == AndSign && (|tail| == 1 || tail[1] == AndSign || tail[1].OrderBy?)
  }

  /** What can stand behind a chain: nothing, an order, or a dangling AND. */
  predicate IsTail(tail: seq<Token>) {
    tail == [] || tail[0].OrderBy? || IsDangling(tail)
  }

  lemma NothingReads(tail: seq<Token>)
    requires IsDangling(tail)
    ensures ReadAnd(tail[1..]) == None
  {
  }

  lemma {:induction false} SignAndGroup(links: seq<Link>, tail: seq<Token>)
    requires links != []
    ensures Behind(links, tail)[1..] == Group(links[0]) + Behind(links[1..], tail)
    ensures Behind(links, tail)[0] == if links[0].isAnd then AndSign else OrSign
  {
    hide Group;
    var sign, group, rest := if links[0].isAnd then AndSign else OrSign, Group(links[0]), Behind(links[1..], tail);
    assert ([sign] + group) + rest == [sign] + (group + rest);
  }

  /** The reader takes a run of ANDs, and fails when the run ends in a dangling AND. */
  lemma {:induction false} RunReads(first: Link, links: seq<Link>, tail: seq<Token>)
    requires !IsWhole(first.iv) && NoneWhole(links) && IsTail(tail)
    ensures ReadAnd(Group(first) + Behind(links, tail))
            == if BehindRun(links) == [] && IsDangling(tail) then None
               else Some((Run(first, links), Behind(BehindRun(links), tail)))
    decreases |links|
  {
    hide Group, GroupExpr;
    GroupReads(first, Behind(links, tail));
    if links == [] {
      if IsDangling(tail) {
        NothingReads(tail);
      }
    } else {
      SignAndGroup(links, tail);
      if links[0].isAnd {
        RunReads(links[0], links[1..], tail);
      }
    }
  }

  /** The reader finds a disjunction of such runs, and fails on a dangling AND. */
  lemma {:induction false} ChainReads(first: Link, links: seq<Link>, tail: seq<Token>)
    requires !IsWhole(first.iv) && NoneWhole(links) && IsTail(tail)
    ensures ReadOr(Group(first) + Behind(links, tail))
            == if IsDangling(tail) then None else Some((Tree(first, links), tail))
    decreases |links|
  {
    hide Group, GroupExpr, ReadAnd, Run;
    RunReads(first, links, tail);
    var rest := BehindRun(links);
    if rest != [] {
      SignAndGroup(rest, tail);
      ChainReads(rest[0], rest[1..], tail);
    }
  }

  // ---------------------------------------------------------------- the value of a chain

  /** Reading from the left: an AND continues the run, an OR starts a new one. */
  predicate Truth(run: bool, links: seq<Link>, row: Row)
    decreases |links|
  {
    if links == [] then run
    else if links[0].isAnd then Truth(run && Sat(links[0], row), links[1..], row)
    else run || Truth(Sat(links[0], row), links[1..], row)
  }

  predicate RunTruth(links: seq<Link>, row: Row) {
    links == [] || !links[0].isAnd || (Sat(links[0], row) && RunTruth(links[1..], row))
  }

  lemma GroupMeans(l: Link, row: Row)
    requires !IsWhole(l.iv)
    ensures Eval(GroupExpr(l), row) <==> Sat(l, row)
  {
  }

  lemma {:induction false} RunMeans(first: Link, links: seq<Link>, row: Row)
    requires !IsWhole(first.iv) && NoneWhole(links)
    ensures Eval(Run(first, links), row) <==> Sat(first, row) && RunTruth(links, row)
    decreases |links|
  {
    GroupMeans(first, row);
    if links != [] && links[0].isAnd {
      RunMeans(links[0], links[1..], row);
    }
  }

  lemma {:induction false} TruthSplits(run: bool, links: seq<Link>, row: Row)
    ensures var rest := BehindRun(links);
            Truth(run, links, row)
            <==> (run && RunTruth(links, row)) || (rest != [] && Truth(Sat(rest[0], row), rest[1..], row))
    decreases |links|
  {
    hide Sat;
    if links != [] && links[0].isAnd {
      TruthSplits(run && Sat(links[0], row), links[1..], row);
    }
  }

  lemma {:induction false} TreeMeans(first: Link, links: seq<Link>, row: Row)
    requires !IsWhole(first.iv) && NoneWhole(links)
    ensures Eval(Tree(first, links), row) <==> Truth(Sat(first, row), links, row)
    decreases |links|
  {
    hide Sat, Run, Truth;
    RunMeans(first, links, row);
    TruthSplits(Sat(first, row), links, row);
    var rest := BehindRun(links);
    if rest != [] {
      TreeMeans(rest[0], rest[1..], row);
    }
  }

  // ---------------------------------------------------------------- conditions as chains

  predicate IsSolid(item: Item) {
    item.Intervals() != [] && forall k | 0 <= k < |item.Intervals()| :: !IsWhole(item.Intervals()[k])
  }

  /** A condition that restricts nothing: its only interval is the whole line. */
  predicate IsFree(item: Item) {
    |item.Intervals()| == 1 && IsWhole(item.Intervals()[0])
  }

  /** A set condition, with or without an order, on an integer column of the table, whose intervals are those
      of a simplified range: the whole line only stands alone. */
  predicate IsPlain(item: Item, table: seq<Column>) {
    && item.isSet && item.column in table && item.column.dataType == IntegerType && item.condition.Some?
    && (item.Intervals() == [] || IsFree(item) || IsSolid(item))
  }

  predicate ArePlain(items: seq<Item>, table: seq<Column>) {
    forall k | 0 <= k < |items| :: IsPlain(items[k], table)
  }

  /** The conditions that leave a trace in the text. */
  function Solids(items: seq<Item>): (r: seq<Item>)
    ensures forall k | 0 <= k < |r| :: IsSolid(r[k])
  {
    if items == [] then []
    else Solids(items[..|items| - 1]) + (if IsSolid(items[|items| - 1]) then [items[|items| - 1]] else [])
  }

  /** The orders that are left in the text. */
  function OrderText(items: seq<Item>): seq<Token> {
    if items == [] then []
    else OrderText(items[..|items| - 1])
         + (if items[|items| - 1].Intervals() != [] then OrderTokens(items[|items| - 1]) else [])
  }

  /** Some condition is written where the text cannot take it: anything behind an order, and a free condition
      that has an order or comes behind a solid one. */
  predicate Spoils(items: seq<Item>) {
    items != []
    && var init, last := items[..|items| - 1], items[|items| - 1];
       || Spoils(init)
       || (last.Intervals() != []
           && (OrderText(init) != [] || (IsFree(last) && (last.isDescending.Some? || Solids(init) != []))))
  }

  function OrLinks(name: string, intervals: seq<Interval>): seq<Link> {
    seq(|intervals|, k requires 0 <= k < |intervals| => Link(false, name, intervals[k]))
  }

  function ItemLinks(item: Item): seq<Link> {
    if item.Intervals() == [] then []
    else [Link(true, item.column.name, item.Intervals()[0])] + OrLinks(item.column.name, item.Intervals()[1..])
  }

  function AllLinks(items: seq<Item>): seq<Link> {
    if items == [] then [] else ItemLinks(items[0]) + AllLinks(items[1..])
  }

  lemma {:induction false} AllLinksAppend(items: seq<Item>, item: Item)
    ensures AllLinks(items + [item]) == AllLinks(items) + ItemLinks(item)
  {
    hide ItemLinks;
    if items == [] {
      assert [item][1..] == [] && items + [item] == [item];
      assert AllLinks([item]) == ItemLinks(item) + AllLinks([]);
    } else {
      assert (items + [item])[1..] == items[1..] + [item];
      AllLinksAppend(items[1..], item);
      Regrouped(ItemLinks(items[0]), AllLinks(items[1..]), ItemLinks(item));
    }
  }

  lemma {:induction false} BehindAppend(a: seq<Link>, b: seq<Link>)
    ensures Behind(a + b, []) == Behind(a, []) + Behind(b, [])
  {
    hide Group;
    if a == [] {
      assert a + b == b;
    } else {
      assert (a + b)[1..] == a[1..] + b;
      BehindAppend(a[1..], b);
      Regrouped([if a[0].isAnd then AndSign else OrSign] + Group(a[0]), Behind(a[1..], []), Behind(b, []));
    }
  }

  lemma {:induction false} TextAppend(a: seq<Link>, b: seq<Link>)
    requires a != []
    ensures Text(a + b) == Text(a) + Behind(b, [])
  {
    hide Group, Behind;
    assert (a + b)[1..] == a[1..] + b;
    BehindAppend(a[1..], b);
    Regrouped(Group(a[0]), Behind(a[1..], []), Behind(b, []));
  }

  lemma {:induction false} OneInterval(name: string, iv: Interval)
    requires !IsWhole(iv)
    ensures RangeText([iv], name, true) == Text([Link(true, name, iv)]) != []
  {
    var l := Link(true, name, iv);
    assert [iv][..0] == [] && RangeText([], name, true) == [];
    assert AddInterval([], iv, name, true) == Group(l) != [] by {
      assert [] + Group(l) == Group(l);
    }
    hide IntervalTokens, Group, AddInterval;
    assert [l][1..] == [] && Behind([], []) == [];
    assert Group(l) + [] == Group(l);
  }

  lemma IntervalAdds(name: string, iv: Interval, front: seq<Link>)
    requires !IsWhole(iv) && Text(front) != []
    ensures AddInterval(Text(front), iv, name, true) == Text(front + [Link(false, name, iv)]) != []
  {
    var l := Link(false, name, iv);
    assert IntervalTokens(iv, name, true) == Some(Group(l));
    assert front != [];
    hide IntervalTokens, Text, Group;
    TextAppend(front, [l]);
    OneBehind(l);
    Regrouped(Text(front), [OrSign], Group(l));
  }

  /** The text of one condition is the chain of its intervals, joined by OR. */
  lemma {:induction false} RangeIsText(name: string, intervals: seq<Interval>)
    requires intervals != [] && forall k | 0 <= k < |intervals| :: !IsWhole(intervals[k])
    ensures RangeText(intervals, name, true)
            == Text([Link(true, name, intervals[0])] + OrLinks(name, intervals[1..])) != []
    decreases |intervals|
  {
    hide AddInterval, Text;
    var n := |intervals| - 1;
    var init := intervals[..n];
    if n == 0 {
      OneInterval(name, intervals[0]);
      assert intervals == [intervals[0]];
      assert [Link(true, name, intervals[0])] + OrLinks(name, intervals[1..]) == [Link(true, name, intervals[0])];
    } else {
      RangeIsText(name, init);
      var front := [Link(true, name, init[0])] + OrLinks(name, init[1..]);
      IntervalAdds(name, intervals[n], front);
      assert [Link(true, name, intervals[0])] + OrLinks(name, intervals[1..])
        == front + [Link(false, name, intervals[n])];
    }
  }

  lemma OneBehind(l: Link)
    ensures Behind([l], []) == [if l.isAnd then AndSign else OrSign] + Group(l)
  {
    hide Group;
    assert [l][1..] == [] && Behind([], []) == [];
    assert [if l.isAnd then AndSign else OrSign] + Group(l) + [] == [if l.isAnd then AndSign else OrSign] + Group(l);
  }

  lemma BehindIsText(item: Item)
    requires IsSolid(item)
    ensures Behind(ItemLinks(item), []) == [AndSign] + Text(ItemLinks(item))
    ensures ItemLinks(item) != [] && NoneWhole(ItemLinks(item)) && ItemLinks(item)[0].isAnd
  {
    hide Group;
    var links := ItemLinks(item);
    assert links[0].isAnd;
    assert ([AndSign] + Group(links[0])) + Behind(links[1..], [])
      == [AndSign] + (Group(links[0]) + Behind(links[1..], []));
  }

  lemma {:induction false} AllLinksAreSound(items: seq<Item>)
    requires forall k | 0 <= k < |items| :: IsSolid(items[k])
    ensures NoneWhole(AllLinks(items))
    ensures items != [] ==> AllLinks(items) != [] && AllLinks(items)[0].isAnd
  {
    if items != [] {
      BehindIsText(items[0]);
      AllLinksAreSound(items[1..]);
      hide ItemLinks;
      assert AllLinks(items) == ItemLinks(items[0]) + AllLinks(items[1..]);
    }
  }

  lemma TextIsNotEmpty(links: seq<Link>)
    requires links != [] && NoneWhole(links)
    ensures Text(links) != []
  {
    hide Behind;
    assert !IsWhole(links[0].iv);
    assert Group(links[0]) != [];
  }

  /** Unless it is spoilt, the text is the chain of all intervals of the solid conditions, and an order. */
  lemma {:induction false} ClauseIsText(table: seq<Column>, items: seq<Item>)
    requires ArePlain(items, table) && !Spoils(items)
    ensures ClauseText(table, items, true) == Text(AllLinks(Solids(items))) + OrderText(items)
    ensures IsOrder(OrderText(items)) && (Solids(items) == [] ==> OrderText(items) == [])
    decreases |items|
  {
    EmptyText();
    if items != [] {
      hide Text, AllLinks, ItemLinks, Group;
      var n := |items| - 1;
      var init, item := items[..n], items[n];
      ClauseIsText(table, init);
      if item.Intervals() != [] {
        assert OrderText(init) == [];
        assert Text(AllLinks(Solids(init))) + [] == Text(AllLinks(Solids(init)));
        LastItem(table, Solids(init), item, ClauseText(table, init, true));
        assert [] + OrderTokens(item) == OrderTokens(item);
      } else {
        assert Solids(init) + [] == Solids(init) && OrderText(init) + [] == OrderText(init);
      }
    }
  }

  lemma {:induction false} LastItem(table: seq<Column>, solids: seq<Item>, item: Item, text: seq<Token>)
    requires IsPlain(item, table) && text == Text(AllLinks(solids))
    requires forall k | 0 <= k < |solids| :: IsSolid(solids[k])
    requires item.Intervals() != [] && (IsFree(item) ==> solids == [] && item.isDescending.None?)
    ensures AddItem(text, item, table, true)
            == Text(AllLinks(solids + if IsSolid(item) then [item] else [])) + OrderTokens(item)
  {
    hide Text, AllLinks, ItemLinks, Group;
    assert solids + [] == solids;
    EmptyText();
    if IsSolid(item) {
      ItemAdds(table, solids, item, text);
    } else {
      FreeText(item);
      assert text + [] == text;
    }
  }

  lemma EmptyText()
    ensures AllLinks([]) == [] && Text([]) == []
  {
  }

  lemma {:induction false} LinksAdd(solids: seq<Item>, item: Item)
    requires IsSolid(item) && forall k | 0 <= k < |solids| :: IsSolid(solids[k])
    ensures var text := Text(AllLinks(solids));
            (if text == [] then [] else text + [AndSign]) + Text(ItemLinks(item)) == Text(AllLinks(solids + [item]))
  {
    hide Text, ItemLinks, Group;
    AllLinksAppend(solids, item);
    AllLinksAreSound(solids);
    if solids == [] {
      EmptyText();
      assert [] + ItemLinks(item) == ItemLinks(item);
    } else {
      hide AllLinks;
      TextIsNotEmpty(AllLinks(solids));
      TextAppend(AllLinks(solids), ItemLinks(item));
      BehindIsText(item);
      Regrouped(Text(AllLinks(solids)), [AndSign], Text(ItemLinks(item)));
    }
  }

  lemma {:induction false} ItemAdds(table: seq<Column>, solids: seq<Item>, item: Item, text: seq<Token>)
    requires IsPlain(item, table) && IsSolid(item)
    requires text == Text(AllLinks(solids)) && forall k | 0 <= k < |solids| :: IsSolid(solids[k])
    ensures AddItem(text, item, table, true) == Text(AllLinks(solids + [item])) + OrderTokens(item)
  {
    RangeIsText(item.column.name, item.Intervals());
    assert RangeText(item.Intervals(), item.column.name, true) == Text(ItemLinks(item));
    hide Text, ItemLinks, Group, RangeText, AllLinks;
    LinksAdd(solids, item);
  }

  // ---------------------------------------------------------------- spoilt texts

  /** A chain with something behind it that cannot stand there. */
  ghost predicate IsSpoilt(links: seq<Link>, tail: seq<Token>) {
    && NoneWhole(links) && tail != []
    && if links == [] then tail[0].OrderBy? else (tail[0].OrderBy? && |tail| > 1) || IsDangling(tail)
  }

  lemma SpoiltText(table: seq<Column>, items: seq<Item>) returns (links: seq<Link>, tail: seq<Token>)
    requires ArePlain(items, table) && Spoils(items)
    ensures IsSpoilt(links, tail) && ClauseText(table, items, true) == Text(links) + tail
    decreases |items|
  {
    hide Text, AllLinks, ItemLinks, RangeText;
    var n := |items| - 1;
    var init, item := items[..n], items[n];
    if Spoils(init) {
      links, tail := SpoiltText(table, init);
      tail := SpoiltStays(table, links, tail, item);
    } else {
      ClauseIsText(table, init);
      links := AllLinks(Solids(init));
      AllLinksAreSound(Solids(init));
      tail := SpoiltHere(table, Solids(init), OrderText(init), item);
    }
  }

  lemma FreeText(item: Item)
    requires IsFree(item)
    ensures RangeText(item.Intervals(), item.column.name, true) == []
  {
    assert item.Intervals()[..0] == [];
  }

  lemma SpoiltStays(table: seq<Column>, links: seq<Link>, tail: seq<Token>, item: Item) returns (more: seq<Token>)
    requires IsPlain(item, table) && IsSpoilt(links, tail)
    ensures IsSpoilt(links, more)
    ensures AddItem(Text(links) + tail, item, table, true) == Text(links) + more
  {
    hide Text, RangeText;
    more := tail;
    if item.Intervals() != [] {
      var text := RangeText(item.Intervals(), item.column.name, true);
      more := tail + ([AndSign] + text + OrderTokens(item));
      assert more[0] == tail[0] && (|tail| > 1 ==> more[1] == tail[1]) && (|tail| == 1 ==> more[1] == AndSign);
      assert Text(links) + tail + [AndSign] + text + OrderTokens(item) == Text(links) + more;
    }
  }

  /** The item that spoils the text: behind an order, or free and behind a solid one or with an order. */
  lemma SpoiltHere(table: seq<Column>, solids: seq<Item>, order: seq<Token>, item: Item) returns (tail: seq<Token>)
    requires IsPlain(item, table) && item.Intervals() != [] && IsOrder(order) && (solids == [] ==> order == [])
    requires forall k | 0 <= k < |solids| :: IsSolid(solids[k])
    requires order != [] || (IsFree(item) && (item.isDescending.Some? || solids != []))
    ensures var links := AllLinks(solids);
            IsSpoilt(links, tail) && AddItem(Text(links) + order, item, table, true) == Text(links) + tail
  {
    EmptyText();
    hide Text, AllLinks, ItemLinks, RangeText;
    var links := AllLinks(solids);
    AllLinksAreSound(solids);
    var text := RangeText(item.Intervals(), item.column.name, true);
    if solids == [] {
      FreeText(item);
      tail := OrderTokens(item);
      assert [] + [] + tail == [] + tail;
    } else {
      TextIsNotEmpty(links);
      if order == [] {
        FreeText(item);
      }
      tail := order + ([AndSign] + text + OrderTokens(item));
      assert Text(links) + order + [AndSign] + text + OrderTokens(item) == Text(links) + tail;
    }
  }

  lemma {:induction false} OrderReadsNothing(tail: seq<Token>)
    requires tail != [] && tail[0].OrderBy?
    ensures ReadOr(tail) == None
  {
    assert ReadAtom(tail) == None;
    assert ReadAnd(tail) == None;
  }

  lemma {:induction false} SpoiltIsUnreadable(table: seq<Column>, items: seq<Item>)
    requires ArePlain(items, table) && Spoils(items)
    ensures !IsReadable(ClauseText(table, items, true))
  {
    var links, tail := SpoiltText(table, items);
    if links == [] {
      EmptyText();
      assert Text(links) + tail == tail;
      OrderReadsNothing(tail);
    } else {
      ChainReads(links[0], links[1..], tail);
      assert Text(links) + tail == Group(links[0]) + Behind(links[1..], tail) by {
        hide Group;
        BehindTail(links[1..], tail);
        Regrouped(Group(links[0]), Behind(links[1..], []), tail);
      }
    }
  }

  lemma {:induction false} BehindTail(links: seq<Link>, tail: seq<Token>)
    ensures Behind(links, tail) == Behind(links, []) + tail
  {
    hide Group;
    if links != [] {
      BehindTail(links[1..], tail);
      Regrouped([if links[0].isAnd then AndSign else OrSign] + Group(links[0]), Behind(links[1..], []), tail);
    }
  }

  // ---------------------------------------------------------------- what the text selects

  /** A text that is not spoilt is readable, its value is that of the chain, and the order left is read. */
  lemma {:induction false} ClauseMeans(table: seq<Column>, items: seq<Item>, row: Row)
    requires ArePlain(items, table) && !Spoils(items)
    ensures var text := ClauseText(table, items, true);
            && IsReadable(text) && (Selects(text, row) <==> Truth(true, AllLinks(Solids(items)), row))
            && OrderRead(text) == OrderText(items)
  {
    hide Text, ItemLinks, Group, Tree, Sat, OrderText;
    var solids, order := Solids(items), OrderText(items);
    var links := AllLinks(solids);
    ClauseIsText(table, items);
    AllLinksAreSound(solids);
    if solids == [] {
      EmptyText();
      assert Text(links) + order == [];
    } else {
      TextIsNotEmpty(links);
      ChainReads(links[0], links[1..], order);
      TextSplits(links);
      BehindTail(links[1..], order);
      Regrouped(Group(links[0]), Behind(links[1..], []), order);
      TreeMeans(links[0], links[1..], row);
    }
  }

  lemma TextSplits(links: seq<Link>)
    requires links != []
    ensures Text(links) == Group(links[0]) + Behind(links[1..], [])
  {
  }

  // ---------------------------------------------------------------- conditions one by one

  predicate SatAt(item: Item, k: nat, row: Row)
    requires k < |item.Intervals()|
  {
    Contains(item.Intervals()[k], row(item.column.name))
  }

  lemma {:induction false} OrLinksTruth(run: bool, name: string, intervals: seq<Interval>, rest: seq<Link>, row: Row)
    requires intervals != []
    ensures run ==> Truth(run, OrLinks(name, intervals) + rest, row)
    ensures Truth(Contains(intervals[|intervals| - 1], row(name)), rest, row)
            ==> Truth(run, OrLinks(name, intervals) + rest, row)
    ensures rest == [] ==>
              (Truth(run, OrLinks(name, intervals) + rest, row)
               <==> run || exists k | 0 <= k < |intervals| :: Contains(intervals[k], row(name)))
    decreases |intervals|
  {
    hide Contains;
    var all := OrLinks(name, intervals) + rest;
    var x := Contains(intervals[0], row(name));
    assert all[1..] == OrLinks(name, intervals[1..]) + rest;
    assert Truth(run, all, row) == (run || Truth(x, all[1..], row));
    if |intervals| == 1 {
      assert all[1..] == rest;
    } else {
      OrLinksTruth(x, name, intervals[1..], rest, row);
      assert intervals[1..][|intervals| - 2] == intervals[|intervals| - 1];
      if k :| 0 <= k < |intervals| && Contains(intervals[k], row(name)) {
        assert k == 0 || intervals[1..][k - 1] == intervals[k];
      }
    }
  }

  /** How one condition at the front of a chain acts on the rest. */
  lemma {:induction false} ItemTruth(run: bool, item: Item, rest: seq<Link>, row: Row)
    requires IsSolid(item)
    ensures |item.Intervals()| == 1 ==>
              (Truth(run, ItemLinks(item) + rest, row) <==> Truth(run && SatAt(item, 0, row), rest, row))
    ensures |item.Intervals()| > 1 && run && SatAt(item, 0, row) ==> Truth(run, ItemLinks(item) + rest, row)
    ensures |item.Intervals()| > 1 && Truth(SatAt(item, |item.Intervals()| - 1, row), rest, row) ==>
              Truth(run, ItemLinks(item) + rest, row)
    ensures run && rest == [] ==> (Truth(run, ItemLinks(item) + rest, row) <==> InRange(item, row))
  {
    hide Contains;
    var name, tail := item.column.name, item.Intervals()[1..];
    var x := SatAt(item, 0, row);
    var all := ItemLinks(item) + rest;
    assert all[1..] == OrLinks(name, tail) + rest;
    assert Truth(run, all, row) == Truth(run && x, all[1..], row);
    if tail == [] {
      assert all[1..] == rest;
    } else {
      OrLinksTruth(run && x, name, tail, rest, row);
      assert tail[|tail| - 1] == item.Intervals()[|item.Intervals()| - 1];
    }
    if run && rest == [] {
      InRangeSplits(item, row);
    }
  }

  lemma InRangeSplits(item: Item, row: Row)
    requires item.Intervals() != []
    ensures var tail := item.Intervals()[1..];
            InRange(item, row)
            <==> SatAt(item, 0, row) || exists k | 0 <= k < |tail| :: Contains(tail[k], row(item.column.name))
  {
    hide Contains;
    var tail := item.Intervals()[1..];
    if k :| 0 <= k < |item.Intervals()| && Contains(item.Intervals()[k], row(item.column.name)) {
      assert k == 0 || tail[k - 1] == item.Intervals()[k];
    }
    if k :| 0 <= k < |tail| && Contains(tail[k], row(item.column.name)) {
      assert item.Intervals()[k + 1] == tail[k];
    }
  }

  ghost predicate AllSolid(items: seq<Item>) {
    forall k | 0 <= k < |items| :: IsSolid(items[k])
  }

  /** With one interval a condition, the chain is the conjunction. */
  lemma {:induction false} SinglesAreConjunction(run: bool, items: seq<Item>, row: Row)
    requires AllSolid(items) && forall k | 0 <= k < |items| :: |items[k].Intervals()| == 1
    ensures Truth(run, AllLinks(items), row) <==> run && Intended(items, row)
  {
    if items != [] {
      hide Contains, Truth, ItemLinks;
      var item := items[0];
      ItemTruth(run, item, AllLinks(items[1..]), row);
      SinglesAreConjunction(run && SatAt(item, 0, row), items[1..], row);
      assert InRange(item, row) <==> SatAt(item, 0, row);
      IntendedSplits(items, row);
    }
  }

  lemma IntendedSplits(items: seq<Item>, row: Row)
    requires items != []
    ensures Intended(items, row) <==> InRange(items[0], row) && Intended(items[1..], row)
  {
    hide InRange;
    assert forall k | 1 <= k < |items| :: items[1..][k - 1] == items[k];
    if InRange(items[0], row) && Intended(items[1..], row) {
      forall k | 0 <= k < |items| ensures InRange(items[k], row) {
        assert k == 0 || InRange(items[1..][k - 1], row);
      }
    }
    if Intended(items, row) {
      forall k | 0 <= k < |items| - 1 ensures InRange(items[1..][k], row) {
        assert InRange(items[k + 1], row);
      }
    }
  }

  // ---------------------------------------------------------------- rows that go wrong

  ghost predicate LastsHold(items: seq<Item>, n: nat, row: Row)
    requires AllSolid(items) && n <= |items|
  {
    forall k | 0 <= k < n :: SatAt(items[k], |items[k].Intervals()| - 1, row)
  }

  /** When the last interval of each of the first n conditions holds, the chain has at least the value of
      what is behind them. */
  lemma {:induction false} LastsCarry(items: seq<Item>, n: nat, row: Row)
    requires AllSolid(items) && n <= |items| && LastsHold(items, n, row)
    ensures Truth(true, AllLinks(items[n..]), row) ==> Truth(true, AllLinks(items), row)
    decreases n
  {
    if n == 0 {
      assert items[0..] == items;
    } else {
      hide Contains, Truth, ItemLinks;
      var rest := items[1..];
      assert items[n..] == rest[n - 1..];
      assert SatAt(items[0], |items[0].Intervals()| - 1, row);
      forall k | 0 <= k < n - 1 ensures SatAt(rest[k], |rest[k].Intervals()| - 1, row) {
        assert rest[k] == items[k + 1];
      }
      LastsCarry(rest, n - 1, row);
      ItemTruth(true, items[0], AllLinks(rest), row);
    }
  }

  /** A last condition with several intervals decides alone through its last interval. */
  lemma {:induction false} LastDecides(run: bool, items: seq<Item>, row: Row)
    requires AllSolid(items) && items != []
    requires var last := items[|items| - 1];
             |last.Intervals()| > 1 && SatAt(last, |last.Intervals()| - 1, row)
    ensures Truth(run, AllLinks(items), row)
    decreases |items|
  {
    hide Contains, ItemLinks;
    var rest := items[1..];
    var x := SatAt(items[0], |items[0].Intervals()| - 1, row);
    ItemTruth(run, items[0], AllLinks(rest), row);
    if |items| > 1 {
      LastDecides(if |items[0].Intervals()| > 1 then x else run && x, rest, row);
    }
  }

  /** The row with the given values in the columns of the conditions. */
  function RowOf(items: seq<Item>, values: seq<int>): Row
    requires |values| == |items|
  {
    if items == [] then _ => 0
    else
      var rest := RowOf(items[1..], values[1..]);
      name => if name == items[0].column.name then values[0] else rest(name)
  }

  ghost predicate HaveDistinctColumns(items: seq<Item>) {
    forall j, k | 0 <= j < k < |items| :: items[j].column.name != items[k].column.name
  }

  lemma {:induction false} RowOfAt(items: seq<Item>, values: seq<int>, k: nat)
    requires |values| == |items| && k < |items| && HaveDistinctColumns(items)
    ensures RowOf(items, values)(items[k].column.name) == values[k]
  {
    if k > 0 {
      assert items[1..][k - 1] == items[k];
      forall i, j | 0 <= i < j < |items| - 1 ensures items[1..][i].column.name != items[1..][j].column.name {
        assert items[i + 1].column.name != items[j + 1].column.name;
      }
      RowOfAt(items[1..], values[1..], k - 1);
      assert items[0].column.name != items[k].column.name;
    }
  }

  predicate Excludes(item: Item, x: int) {
    forall k | 0 <= k < |item.Intervals()| :: !Contains(item.Intervals()[k], x)
  }

  /** Conditions on different columns, each interval with an integer in it, each condition with one outside. */
  ghost predicate AreIndependent(items: seq<Item>) {
    && HaveDistinctColumns(items)
    && forall k | 0 <= k < |items| ::
         && (forall j | 0 <= j < |items[k].Intervals()| :: exists x :: Contains(items[k].Intervals()[j], x))
         && (exists x :: Excludes(items[k], x))
  }

  datatype Choice = First | Last | Outside

  ghost predicate Fits(item: Item, choice: Choice, x: int)
    requires IsSolid(item)
  {
    match choice
    case First => Contains(item.Intervals()[0], x)
    case Last => Contains(item.Intervals()[|item.Intervals()| - 1], x)
    case Outside => Excludes(item, x)
  }

  lemma RowFor(items: seq<Item>, choices: seq<Choice>) returns (row: Row)
    requires AllSolid(items) && AreIndependent(items) && |choices| == |items|
    ensures forall k | 0 <= k < |items| :: Fits(items[k], choices[k], row(items[k].column.name))
  {
    hide Contains, Excludes;
    forall k | 0 <= k < |items| ensures exists x :: Fits(items[k], choices[k], x) {
      var first :| Contains(items[k].Intervals()[0], first);
      var last :| Contains(items[k].Intervals()[|items[k].Intervals()| - 1], last);
      var outside :| Excludes(items[k], outside);
      var x := match choices[k] case First => first case Last => last case Outside => outside;
      assert Fits(items[k], choices[k], x);
    }
    hide Fits;
    var values := seq(|items|, k requires 0 <= k < |items| => Fitting(items[k], choices[k]));
    row := RowOf(items, values);
    forall k | 0 <= k < |items| ensures Fits(items[k], choices[k], row(items[k].column.name)) {
      RowOfAt(items, values, k);
    }
  }

  ghost function Fitting(item: Item, choice: Choice): (x: int)
    requires IsSolid(item) && exists x :: Fits(item, choice, x)
    ensures Fits(item, choice, x)
  {
    var x :| Fits(item, choice, x); x
  }

  /** Some row is selected. */
  lemma SomeRowIsSelected(items: seq<Item>) returns (row: Row)
    requires AllSolid(items) && AreIndependent(items)
    ensures Truth(true, AllLinks(items), row)
  {
    hide Contains, AreIndependent;
    row := RowFor(items, seq(|items|, _ => Last));
    assert LastsHold(items, |items|, row);
    assert items[|items|..] == [];
    LastsCarry(items, |items|, row);
  }

  /** With several conditions, one of them of several intervals, some row is selected that should not be. */
  lemma SomeRowGoesWrong(items: seq<Item>, i: nat) returns (row: Row)
    requires AllSolid(items) && AreIndependent(items) && |items| > 1 && i < |items| && |items[i].Intervals()| > 1
    ensures Truth(true, AllLinks(items), row) && !Intended(items, row)
  {
    hide Contains, AreIndependent, Truth, ItemLinks;
    var out := if i == |items| - 1 then i - 1 else i + 1;
    row := RowFor(items, seq(|items|, k requires 0 <= k < |items| =>
                               if k == out then Outside else if k == i && i < |items| - 1 then First else Last));
    assert Fits(items[out], Outside, row(items[out].column.name));
    assert Excludes(items[out], row(items[out].column.name));
    assert !InRange(items[out], row);
    if i == |items| - 1 {
      assert Fits(items[i], Last, row(items[i].column.name));
      LastDecides(true, items, row);
    } else {
      assert LastsHold(items, i, row) by {
        forall k | 0 <= k < i ensures SatAt(items[k], |items[k].Intervals()| - 1, row) {
          assert Fits(items[k], Last, row(items[k].column.name));
        }
      }
      LastsCarry(items, i, row);
      assert Fits(items[i], First, row(items[i].column.name));
      ItemTruth(true, items[i], AllLinks(items[i..][1..]), row);
      assert items[i..] != [] && items[i..][0] == items[i];
      AllLinksHead(items[i..]);
    }
  }

  lemma {:induction false} AllLinksHead(items: seq<Item>)
    requires items != []
    ensures AllLinks(items) == ItemLinks(items[0]) + AllLinks(items[1..])
  {
  }

  // ---------------------------------------------------------------- the main result

  /** What a caller can check: no condition has an empty range, nothing comes behind an order, no free
      condition comes behind a restricting one or with an order of its own behind one, and there is one
      restricting condition only or each has one interval. */
  predicate IsSafe(items: seq<Item>) {
    && (forall k | 0 <= k < |items| :: items[k].Intervals() != [])
    && !Spoils(items)
    && (|Solids(items)| <= 1 || forall k | 0 <= k < |Solids(items)| :: |Solids(items)[k].Intervals()| == 1)
  }

  /** The intended rows depend on the solid conditions only, unless some range is empty. */
  lemma {:induction false} IntendedIffSolids(table: seq<Column>, items: seq<Item>, row: Row)
    requires ArePlain(items, table) && forall k | 0 <= k < |items| :: items[k].Intervals() != []
    ensures Intended(items, row) <==> Intended(Solids(items), row)
    decreases |items|
  {
    if items != [] {
      hide Contains, InRange;
      var n := |items| - 1;
      var init, item := items[..n], items[n];
      IntendedIffSolids(table, init, row);
      IntendedAppend(init, item, row);
      assert init + [item] == items;
      if IsSolid(item) {
        IntendedAppend(Solids(init), item, row);
      } else {
        assert Solids(init) + [] == Solids(init);
        FreeIsInRange(item, row);
      }
    }
  }

  lemma IntendedAppend(items: seq<Item>, item: Item, row: Row)
    ensures Intended(items + [item], row) <==> Intended(items, row) && InRange(item, row)
  {
    hide InRange;
    var all := items + [item];
    assert all[|items|] == item;
    if Intended(all, row) {
      forall k | 0 <= k < |items| ensures InRange(items[k], row) {
        assert InRange(all[k], row);
      }
    }
  }

  lemma FreeIsInRange(item: Item, row: Row)
    requires IsFree(item)
    ensures InRange(item, row)
  {
    assert Contains(item.Intervals()[0], row(item.column.name));
  }

  lemma EmptyIsNeverInRange(items: seq<Item>, k: nat, row: Row)
    requires k < |items| && items[k].Intervals() == []
    ensures !Intended(items, row)
  {
    assert !InRange(items[k], row);
  }

  /** Orders are lost with the conditions that are skipped only: the orders in the text are those asked for. */
  lemma {:induction false} OrdersMean(items: seq<Item>, rows: seq<Row>)
    requires forall k | 0 <= k < |items| :: items[k].Intervals() != []
    ensures forall t | t in OrderText(items) :: t.OrderBy?
    ensures (forall t | t in OrderText(items) :: IsSortedBy(rows, t.column, t.descending)) <==> AreInOrder(rows, items)
  {
    if items != [] {
      hide IsSortedBy;
      var n := |items| - 1;
      var init, last := items[..n], items[n];
      OrdersMean(init, rows);
      InOrderAppend(init, last, rows);
      assert init + [last] == items;
      assert OrderText(items) == OrderText(init) + OrderTokens(last);
    }
  }

  lemma InOrderAppend(items: seq<Item>, item: Item, rows: seq<Row>)
    ensures AreInOrder(rows, items + [item])
            <==> && AreInOrder(rows, items)
                 && (item.isDescending.Some? ==> IsSortedBy(rows, item.column.name, item.isDescending.value))
  {
    hide IsSortedBy;
    var all := items + [item];
    assert all[|items|] == item;
    if AreInOrder(rows, all) {
      forall k | 0 <= k < |items| && items[k].isDescending.Some?
        ensures IsSortedBy(rows, items[k].column.name, items[k].isDescending.value)
      {
        assert IsSortedBy(rows, all[k].column.name, all[k].isDescending.value);
      }
    }
  }

  /** The one order that a readable text can have sorts the rows as asked. */
  lemma {:induction false} OrderIsAsAsked(items: seq<Item>, rows: seq<Row>)
    requires forall k | 0 <= k < |items| :: items[k].Intervals() != []
    requires IsOrder(OrderText(items))
    ensures CanComeBack(rows, OrderText(items)) <==> AreInOrder(rows, items)
  {
    hide IsSortedBy, AreInOrder;
    OrdersMean(items, rows);
    var order := OrderText(items);
    assert order != [] ==> order == [order[0]];
  }

  /** A safe list of conditions selects exactly the rows that are meant, in the order asked for, whatever
      the columns. */
  lemma SafeClauseIsRight(table: seq<Column>, items: seq<Item>)
    requires ArePlain(items, table) && IsSafe(items)
    ensures IsRight(table, items)
  {
    hide Contains, InRange, IsReadable, Selects, ClauseText, Truth, ItemLinks, Spoils;
    var solids, text := Solids(items), ClauseText(table, items, true);
    ClauseMeans(table, items, _ => 0);
    forall rows: seq<Row> ensures CanComeBack(rows, OrderRead(text)) <==> AreInOrder(rows, items) {
      OrderIsAsAsked(items, rows);
    }
    forall row: Row ensures Selects(text, row) <==> Intended(items, row) {
      ClauseMeans(table, items, row);
      IntendedIffSolids(table, items, row);
      if |solids| == 1 && |solids[0].Intervals()| != 1 {
        OneConditionIsExact(solids, row);
      } else {
        SinglesAreConjunction(true, solids, row);
      }
    }
  }

  lemma {:induction false} OneConditionIsExact(solids: seq<Item>, row: Row)
    requires |solids| == 1 && IsSolid(solids[0])
    ensures Truth(true, AllLinks(solids), row) <==> Intended(solids, row)
  {
    hide Contains, InRange, Truth, ItemLinks;
    ItemTruth(true, solids[0], [], row);
    assert solids[1..] == [] && AllLinks([]) == [];
    AllLinksHead(solids);
    IntendedSplits(solids, row);
  }

  /** The main result, for independent conditions: the statement is accepted and selects exactly the rows
      that are meant if and only if the list is safe. */
  lemma {:induction false} ClauseIsRightIff(table: seq<Column>, items: seq<Item>)
    requires ArePlain(items, table) && AreIndependent(Solids(items))
    ensures IsRight(table, items) <==> IsSafe(items)
  {
    hide Contains, InRange, AreIndependent, Selects, ClauseText, Truth, ItemLinks, Spoils, IsReadable;
    var solids, text := Solids(items), ClauseText(table, items, true);
    if IsSafe(items) {
      SafeClauseIsRight(table, items);
    } else if Spoils(items) {
      SpoiltIsUnreadable(table, items);
    } else if k :| 0 <= k < |items| && items[k].Intervals() == [] {
      var row := SomeRowIsSelected(solids);
      ClauseMeans(table, items, row);
      EmptyIsNeverInRange(items, k, row);
      assert Selects(text, row) && !Intended(items, row);
    } else {
      var i :| 0 <= i < |solids| && |solids[i].Intervals()| != 1;
      var row := SomeRowGoesWrong(solids, i);
      ClauseMeans(table, items, row);
      IntendedIffSolids(table, items, row);
      assert Selects(text, row) && !Intended(items, row);
    }
  }

  /** The first alternative of a condition selects a row whatever the next condition says. */
  lemma {:induction false} FirstAlternativeSelects(table: seq<Column>, first: Item, second: Item, row: Row)
    requires ArePlain([first, second], table) && IsSolid(first) && IsSolid(second)
    requires first.isDescending.None? && second.isDescending.None?
    requires |first.Intervals()| > 1 && SatAt(first, 0, row) && !InRange(second, row)
    ensures var items := [first, second];
            var text := ClauseText(table, items, true);
            IsReadable(text) && Selects(text, row) && !Intended(items, row)
  {
    hide ClauseText, IsReadable, Selects, Contains, InRange;
    var items := [first, second];
    assert items[..1] == [first] && items[..1][..0] == [] && Solids([]) == [] && Solids([first]) == [first];
    assert Solids(items) == items;
    assert OrderText([]) == [] && OrderText([first]) == [] && !Spoils([]) && !Spoils([first]) && !Spoils(items);
    hide Solids, Spoils, Truth, ItemLinks;
    ClauseMeans(table, items, row);
    AllLinksHead(items);
    ItemTruth(true, first, AllLinks(items[1..]), row);
    assert items[1] == second;
  }

  /** With a in {1, 2} and b = 5 the text joins both points of a by OR and then b by AND, without
      parentheses around the points: it also selects a = 1, b = 7. */
  lemma OrBindsLoosely()
    ensures var a, b := Column(0, "a", IntegerType), Column(1, "b", IntegerType);
            var one, two, five := Some(Bound(1, false)), Some(Bound(2, false)), Some(Bound(5, false));
            var items := [Item(true, a, Some([Interval(one, one), Interval(two, two)]), None),
                          Item(true, b, Some([Interval(five, five)]), None)];
            var row: Row := name => if name == "a" then 1 else 7;
            var text := ClauseText([a, b], items, true);
            IsReadable(text) && Selects(text, row) && !Intended(items, row)
  {
    hide ClauseText, IsReadable, Selects;
    var a, b := Column(0, "a", IntegerType), Column(1, "b", IntegerType);
    var one, two, five := Some(Bound(1, false)), Some(Bound(2, false)), Some(Bound(5, false));
    var first := Item(true, a, Some([Interval(one, one), Interval(two, two)]), None);
    var second := Item(true, b, Some([Interval(five, five)]), None);
    FirstAlternativeSelects([a, b], first, second, name => if name == "a" then 1 else 7);
  }
}
