/** The generated WHERE clause and the parameters bound to it
    (sqlite_stringify.cpp, sql_builder.cpp, sql_table_query.cpp). */
module Where {
  import opened Options
  import opened Sequences

  datatype Bound = Bound(value: int, isOpen: bool)

  /** An interval of integers; a missing bound is infinite. */
  datatype Interval = Interval(left: Option<Bound>, right: Option<Bound>)

  datatype DataType = IntegerType | TextType | OtherType

  datatype Column = Column(index: int, name: string, dataType: DataType)

  /** A condition item; the pointer to its condition may be null. */
  datatype Item = Item(isSet: bool, column: Column, condition: Option<seq<Interval>>, isDescending: Option<bool>)
  {
    function Intervals(): seq<Interval> {
      match condition
      case None => []
      case Some(intervals) => intervals
    }
  }

  datatype Sign = Greater | GreaterOrEqual | Less | LessOrEqual

  datatype Token =
    | Name(name: string)
    | Compare(sign: Sign)
    | Placeholder
    | Number(value: int)
    | AndSign
    | OrSign
    | OpenSign
    | CloseSign
    | OrderBy(column: string, descending: bool)

  predicate IsWhole(iv: Interval) {
    iv.left.None? && iv.right.None?
  }

  // ---------------------------------------------------------------- the text

  /** The program always writes a placeholder; the filled text has the value itself there, and is what
      the statement means once the right values are bound. */
  function Operand(value: int, filled: bool): Token {
    if filled then Number(value) else Placeholder
  }

  function LeftTokens(iv: Interval, name: string, filled: bool): seq<Token> {
    match iv.left
    case None => []
    case Some(b) => [Name(name), Compare(if b.isOpen then Greater else GreaterOrEqual), Operand(b.value, filled)]
  }

  function RightTokens(iv: Interval, name: string, filled: bool): seq<Token> {
    match iv.right
    case None => []
    case Some(b) => [Name(name), Compare(if b.isOpen then Less else LessOrEqual), Operand(b.value, filled)]
  }

  /** The parenthesised text of an interval; the whole line has none. */
  function IntervalTokens(iv: Interval, name: string, filled: bool): Option<seq<Token>> {
    var left, right := LeftTokens(iv, name, filled), RightTokens(iv, name, filled);
    if left == [] && right == [] then None
    else if left != [] && right != [] then Some([OpenSign] + left + [AndSign] + right + [CloseSign])
    else Some([OpenSign] + (if left == [] then right else left) + [CloseSign])
  }

  /** Adds one interval to the text of the intervals before it. */
  function AddInterval(text: seq<Token>, iv: Interval, name: string, filled: bool): seq<Token> {
    match IntervalTokens(iv, name, filled)
    case None => text
    case Some(group) => (if text == [] then [] else text + [OrSign]) + group
  }

  function RangeText(intervals: seq<Interval>, name: string, filled: bool): seq<Token> {
    if intervals == [] then []
    else AddInterval(RangeText(intervals[..|intervals| - 1], name, filled), intervals[|intervals| - 1], name, filled)
  }

  function ConditionTokens(item: Item, filled: bool): Option<seq<Token>> {
    if item.column.dataType != IntegerType || item.Intervals() == [] then None
    else Some(RangeText(item.Intervals(), item.column.name, filled))
  }

  function OrderTokens(item: Item): seq<Token> {
    match item.isDescending
    case None => []
    case Some(descending) => [OrderBy(item.column.name, descending)]
  }

  /** Adds one condition to the text of the conditions before it. */
  function AddItem(text: seq<Token>, item: Item, table: seq<Column>, filled: bool): seq<Token> {
    if !item.isSet || item.column !in table || ConditionTokens(item, filled).None? then text
    else (if text == [] then [] else text + [AndSign]) + ConditionTokens(item, filled).value + OrderTokens(item)
  }

  function ClauseText(table: seq<Column>, items: seq<Item>, filled: bool): seq<Token> {
    if items == [] then []
    else AddItem(ClauseText(table, items[..|items| - 1], filled), items[|items| - 1], table, filled)
  }

  /** The text behind WHERE, or none at all. */
  function Clause(table: seq<Column>, items: seq<Item>): Option<seq<Token>> {
    var text := ClauseText(table, items, false);
    if text == [] then None else Some(text)
  }

  // ---------------------------------------------------------------- the parameters

  function BoundValue(b: Option<Bound>): seq<int> {
    match b
    case None => []
    case Some(bound) => [bound.value]
  }

  function IntervalValues(iv: Interval): seq<int> {
    BoundValue(iv.left) + BoundValue(iv.right)
  }

  function RangeValues(intervals: seq<Interval>): seq<int> {
    if intervals == [] then []
    else RangeValues(intervals[..|intervals| - 1]) + IntervalValues(intervals[|intervals| - 1])
  }

  predicate HasName(table: seq<Column>, name: string) {
    exists k | 0 <= k < |table| :: table[k].name == name
  }

  function ItemValues(item: Item, table: seq<Column>): seq<int> {
    if item.isSet && HasName(table, item.column.name) && item.column.dataType == IntegerType then
      RangeValues(item.Intervals())
    else []
  }

  function Values(table: seq<Column>, items: seq<Item>): seq<int> {
    if items == [] then []
    else Values(table, items[..|items| - 1]) + ItemValues(items[|items| - 1], table)
  }

  // ---------------------------------------------------------------- the loops

  method FormatRange(intervals: seq<Interval>, name: string) returns (text: Option<seq<Token>>)
    ensures text == if intervals == [] then None else Some(RangeText(intervals, name, false))
  {
    if intervals == [] {
      return None;
    }
    var result := [];
    for i := 0 to |intervals|
      invariant result == RangeText(intervals[..i], name, false)
    {
      assert intervals[..i + 1][..i] == intervals[..i];
      var group := IntervalTokens(intervals[i], name, false);
      if group.None? {
        continue;
      }
      if result != [] {
        result := result + [OrSign];
      }
      result := result + group.value;
    }
    assert intervals[..|intervals|] == intervals;
    return Some(result);
  }

  /** The builder follows the pointer of every set condition on an integer column of the table. */
  predicate HasItsConditions(table: seq<Column>, items: seq<Item>) {
    forall k | 0 <= k < |items| ::
      items[k].isSet && items[k].column in table && items[k].column.dataType == IntegerType ==> items[k].condition.Some?
  }

  method BuildCondition(table: seq<Column>, items: seq<Item>) returns (text: Option<seq<Token>>)
    requires HasItsConditions(table, items)
    ensures text == Clause(table, items)
  {
    var result := [];
    for i := 0 to |items|
      invariant result == ClauseText(table, items[..i], false)
    {
      assert items[..i + 1][..i] == items[..i];
      var item := items[i];
      if !item.isSet || item.column !in table || item.column.dataType != IntegerType {
        continue;
      }
      var single := FormatRange(item.condition.value, item.column.name);
      if single.None? {
        continue;
      }
      if result != [] {
        result := result + [AndSign];
      }
      result := result + single.value;
      if item.isDescending.Some? {
        result := result + [OrderBy(item.column.name, item.isDescending.value)];
      }
    }
    assert items[..|items|] == items;
    return if result == [] then None else Some(result);
  }

  lemma RangeValuesNext(intervals: seq<Interval>, j: nat)
    requires j < |intervals|
    ensures RangeValues(intervals[..j + 1]) == RangeValues(intervals[..j]) + IntervalValues(intervals[j])
  {
    assert intervals[..j + 1][..j] == intervals[..j];
  }

  method BindRange(intervals: seq<Interval>, before: seq<int>) returns (values: seq<int>)
    ensures values == before + RangeValues(intervals)
  {
    values := before;
    assert before + RangeValues(intervals[..0]) == before;
    hide RangeValues;
    for j := 0 to |intervals|
      invariant values == before + RangeValues(intervals[..j])
    {
      RangeValuesNext(intervals, j);
      ghost var was := values;
      if intervals[j].left.Some? {
        values := values + [intervals[j].left.value.value];
      }
      if intervals[j].right.Some? {
        values := values + [intervals[j].right.value.value];
      }
      assert values == was + IntervalValues(intervals[j]);
      Regrouped(before, RangeValues(intervals[..j]), IntervalValues(intervals[j]));
    }
    assert intervals[..|intervals|] == intervals;
  }

  /** The same loops stand in update, remove, select and count. */
  method BindConditions(table: seq<Column>, items: seq<Item>) returns (values: seq<int>)
    ensures values == Values(table, items)
  {
    values := [];
    for i := 0 to |items|
      invariant values == Values(table, items[..i])
    {
      assert items[..i + 1][..i] == items[..i];
      var item := items[i];
      if !item.isSet || !HasName(table, item.column.name) {
        continue;
      }
      if item.condition.None? {
        continue;
      }
      if item.column.dataType == IntegerType {
        values := BindRange(item.condition.value, values);
      }
    }
    assert items[..|items|] == items;
  }

  // ---------------------------------------------------------------- text and parameters agree

  /** Puts the values in place of the placeholders, left to right; fails when the numbers differ. */
  function Bind(text: seq<Token>, values: seq<int>): Option<seq<Token>>
    decreases |text|
  {
    if text == [] then (if values == [] then Some([]) else None)
    else if text[0] != Placeholder then
      match Bind(text[1..], values)
      case None => None
      case Some(rest) => Some([text[0]] + rest)
    else if values == [] then None
    else
      match Bind(text[1..], values[1..])
      case None => None
      case Some(rest) => Some([Number(values[0])] + rest)
  }

  function Placeholders(text: seq<Token>): nat {
    if text == [] then 0 else (if text[0] == Placeholder then 1 else 0) + Placeholders(text[1..])
  }

  lemma ConsJoins<T>(x: T, p: seq<T>, q: seq<T>)
    ensures [x] + (p + q) == ([x] + p) + q
    ensures ([x] + p)[1..] == p
  {
  }

  lemma {:induction false} BindJoins(a: seq<Token>, b: seq<Token>, v: seq<int>, w: seq<int>)
    requires Bind(a, v).Some? && Bind(b, w).Some?
    ensures Bind(a + b, v + w) == Some(Bind(a, v).value + Bind(b, w).value)
    decreases |a|
  {
    if a == [] {
      assert a + b == b && v + w == w;
      assert [] + Bind(b, w).value == Bind(b, w).value;
    } else {
      assert (a + b)[1..] == a[1..] + b;
      var v1 := if a[0] == Placeholder then v[1..] else v;
      assert a[0] == Placeholder ==> (v + w)[1..] == v1 + w;
      BindJoins(a[1..], b, v1, w);
      ConsJoins(if a[0] == Placeholder then Number(v[0]) else a[0], Bind(a[1..], v1).value, Bind(b, w).value);
    }
  }

  lemma {:induction false} PlaceholdersJoin(a: seq<Token>, b: seq<Token>)
    ensures Placeholders(a + b) == Placeholders(a) + Placeholders(b)
  {
    if a == [] {
      assert a + b == b;
    } else {
      assert (a + b)[1..] == a[1..] + b;
      PlaceholdersJoin(a[1..], b);
    }
  }

  lemma {:induction false} BindCounts(text: seq<Token>, values: seq<int>)
    ensures Bind(text, values).Some? <==> Placeholders(text) == |values|
    decreases |text|
  {
    if text != [] {
      BindCounts(text[1..], if text[0] == Placeholder && values != [] then values[1..] else values);
    }
  }

  /** The text binds to the values, and becomes the filled text. */
  predicate Agrees(text: seq<Token>, values: seq<int>, filled: seq<Token>) {
    Bind(text, values) == Some(filled) && (text == [] <==> filled == [])
  }

  lemma AgreesJoin(a: seq<Token>, v: seq<int>, f: seq<Token>, b: seq<Token>, w: seq<int>, g: seq<Token>)
    requires Agrees(a, v, f) && Agrees(b, w, g)
    ensures Agrees(a + b, v + w, f + g)
  {
    BindJoins(a, b, v, w);
  }

  lemma AgreesPlain(t: Token)
    requires t != Placeholder
    ensures Agrees([t], [], [t])
  {
    assert [t][1..] == [] && Bind([], []) == Some([]) && [t] + [] == [t];
  }

  /** Puts a sign behind a text that is not empty. */
  lemma AgreesSign(a: seq<Token>, v: seq<int>, f: seq<Token>, t: Token)
    requires Agrees(a, v, f) && t != Placeholder
    ensures Agrees(if a == [] then [] else a + [t], v, if f == [] then [] else f + [t])
  {
    hide Agrees;
    AgreesPlain(t);
    AgreesJoin(a, v, f, [t], [], [t]);
    assert v + [] == v;
    SameEmptiness(a, v, f);
  }

  lemma SameEmptiness(a: seq<Token>, v: seq<int>, f: seq<Token>)
    requires Agrees(a, v, f)
    ensures (a == [] <==> f == []) && (a == [] ==> Agrees([], v, []))
  {
  }

  lemma BoundAgrees(name: string, sign: Sign, value: int)
    ensures Agrees([Name(name), Compare(sign), Placeholder], [value], [Name(name), Compare(sign), Number(value)])
  {
    assert [Placeholder][1..] == [] && [value][1..] == [] && Bind([], []) == Some([]);
    assert [Number(value)] + [] == [Number(value)];
    assert Agrees([Placeholder], [value], [Number(value)]);
    hide Agrees;
    AgreesPlain(Name(name));
    AgreesPlain(Compare(sign));
    AgreesJoin([Name(name)], [], [Name(name)], [Compare(sign)], [], [Compare(sign)]);
    var front := [Name(name)] + [Compare(sign)];
    AgreesJoin(front, [], front, [Placeholder], [value], [Number(value)]);
    assert [Name(name)] + [Compare(sign)] + [Placeholder] == [Name(name), Compare(sign), Placeholder];
    assert [Name(name)] + [Compare(sign)] + [Number(value)] == [Name(name), Compare(sign), Number(value)];
    assert [] + [value] == [value];
  }

  lemma SidesAgree(iv: Interval, name: string)
    ensures Agrees(LeftTokens(iv, name, false), BoundValue(iv.left), LeftTokens(iv, name, true))
    ensures Agrees(RightTokens(iv, name, false), BoundValue(iv.right), RightTokens(iv, name, true))
  {
    if iv.left.Some? {
      BoundAgrees(name, if iv.left.value.isOpen then Greater else GreaterOrEqual, iv.left.value.value);
    }
    if iv.right.Some? {
      BoundAgrees(name, if iv.right.value.isOpen then Less else LessOrEqual, iv.right.value.value);
    }
  }

  lemma IntervalAgrees(iv: Interval, name: string)
    ensures var text, filled := IntervalTokens(iv, name, false), IntervalTokens(iv, name, true);
            if text.None? then filled.None? && IntervalValues(iv) == []
            else filled.Some? && Agrees(text.value, IntervalValues(iv), filled.value)
  {
    hide Agrees;
    SidesAgree(iv, name);
    AgreesPlain(OpenSign);
    AgreesPlain(AndSign);
    AgreesPlain(CloseSign);
    var left, right := LeftTokens(iv, name, false), RightTokens(iv, name, false);
    var leftF, rightF := LeftTokens(iv, name, true), RightTokens(iv, name, true);
    var v, w := BoundValue(iv.left), BoundValue(iv.right);
    AgreesJoin([OpenSign], [], [OpenSign], left, v, leftF);
    AgreesJoin([OpenSign], [], [OpenSign], right, w, rightF);
    assert [] + v == v && [] + w == w && v + [] == v && w + [] == w && (v + w) + [] == v + w;
    AgreesJoin([OpenSign] + left, v, [OpenSign] + leftF, [CloseSign], [], [CloseSign]);
    AgreesJoin([OpenSign] + right, w, [OpenSign] + rightF, [CloseSign], [], [CloseSign]);
    AgreesJoin([OpenSign] + left, v, [OpenSign] + leftF, [AndSign], [], [AndSign]);
    AgreesJoin([OpenSign] + left + [AndSign], v, [OpenSign] + leftF + [AndSign], right, w, rightF);
    AgreesJoin([OpenSign] + left + [AndSign] + right, v + w, [OpenSign] + leftF + [AndSign] + rightF,
               [CloseSign], [], [CloseSign]);
  }

  lemma {:induction false} RangeAgrees(intervals: seq<Interval>, name: string)
    ensures Agrees(RangeText(intervals, name, false), RangeValues(intervals), RangeText(intervals, name, true))
  {
    if intervals != [] {
      hide Agrees, IntervalTokens, IntervalValues;
      var init, iv := intervals[..|intervals| - 1], intervals[|intervals| - 1];
      var text, filled, v := RangeText(init, name, false), RangeText(init, name, true), RangeValues(init);
      RangeAgrees(init, name);
      IntervalAgrees(iv, name);
      AgreesSign(text, v, filled, OrSign);
      if IntervalTokens(iv, name, false).Some? {
        AgreesJoin(if text == [] then [] else text + [OrSign], v, if filled == [] then [] else filled + [OrSign],
                   IntervalTokens(iv, name, false).value, IntervalValues(iv), IntervalTokens(iv, name, true).value);
      } else {
        assert v + [] == v;
      }
    }
  }

  /** The builder looks for the whole column in the table, the binder for its name only. */
  predicate IsKnownAlike(item: Item, table: seq<Column>) {
    item.isSet && item.column.dataType == IntegerType && HasName(table, item.column.name) ==>
      item.column in table || RangeValues(item.Intervals()) == []
  }

  predicate AreKnownAlike(items: seq<Item>, table: seq<Column>) {
    forall k | 0 <= k < |items| :: IsKnownAlike(items[k], table)
  }

  lemma AgreesAppend(text: seq<Token>, v: seq<int>, filled: seq<Token>, more: seq<Token>, w: seq<int>,
                     moreFilled: seq<Token>)
    requires Agrees(text, v, filled) && Agrees(more, w, moreFilled)
    ensures Agrees((if text == [] then [] else text + [AndSign]) + more, v + w,
                   (if filled == [] then [] else filled + [AndSign]) + moreFilled)
  {
    hide Agrees;
    AgreesSign(text, v, filled, AndSign);
    AgreesJoin(if text == [] then [] else text + [AndSign], v, if filled == [] then [] else filled + [AndSign],
               more, w, moreFilled);
  }

  lemma OrderAgrees(item: Item)
    ensures Agrees(OrderTokens(item), [], OrderTokens(item))
  {
    if item.isDescending.Some? {
      AgreesPlain(OrderBy(item.column.name, item.isDescending.value));
    }
  }

  /** For conditions on columns of the table, the bound values match the placeholders in number and in
      order: each one lands in the comparison that it belongs to. */
  lemma {:induction false} ParametersMatch(table: seq<Column>, items: seq<Item>)
    requires AreKnownAlike(items, table)
    ensures Agrees(ClauseText(table, items, false), Values(table, items), ClauseText(table, items, true))
  {
    if items != [] {
      hide Agrees;
      var init, item := items[..|items| - 1], items[|items| - 1];
      var text, filled, v := ClauseText(table, init, false), ClauseText(table, init, true), Values(table, init);
      ParametersMatch(table, init);
      assert v + [] == v;
      if item.isSet && item.column in table && ConditionTokens(item, false).Some? {
        var name := item.column.name;
        var range, order := RangeText(item.Intervals(), name, false), OrderTokens(item);
        var w := RangeValues(item.Intervals());
        RangeAgrees(item.Intervals(), name);
        OrderAgrees(item);
        AgreesAppend(text, v, filled, range, w, RangeText(item.Intervals(), name, true));
        assert (v + w) + [] == v + w;
        AgreesJoin((if text == [] then [] else text + [AndSign]) + range, v + w,
                   (if filled == [] then [] else filled + [AndSign]) + RangeText(item.Intervals(), name, true),
                   order, [], order);
      }
    }
  }

  lemma {:induction false} AddedPlaceholders(text: seq<Token>, item: Item, table: seq<Column>)
    ensures Placeholders(AddItem(text, item, table, false))
            == Placeholders(text)
               + (if item.isSet && item.column in table && item.column.dataType == IntegerType
                  then |RangeValues(item.Intervals())| else 0)
  {
    if item.isSet && item.column in table && ConditionTokens(item, false).Some? {
      var range := RangeText(item.Intervals(), item.column.name, false);
      RangeAgrees(item.Intervals(), item.column.name);
      BindCounts(range, RangeValues(item.Intervals()));
      OrderAgrees(item);
      BindCounts(OrderTokens(item), []);
      AgreesPlain(AndSign);
      BindCounts([AndSign], []);
      hide Agrees, Placeholders, RangeText, RangeValues;
      PlaceholdersJoin(text, [AndSign]);
      var front := if text == [] then [] else text + [AndSign];
      assert Placeholders(front) == Placeholders(text);
      PlaceholdersJoin(front, range);
      PlaceholdersJoin(front + range, OrderTokens(item));
    }
  }

  lemma AlikeLast(items: seq<Item>, table: seq<Column>)
    requires items != []
    ensures AreKnownAlike(items, table)
            <==> AreKnownAlike(items[..|items| - 1], table) && IsKnownAlike(items[|items| - 1], table)
  {
    hide IsKnownAlike;
    var init := items[..|items| - 1];
    assert forall k | 0 <= k < |init| :: init[k] == items[k];
  }

  /** The placeholders one condition adds are at most its values, and as many when it is known alike. */
  lemma {:induction false} AddedAtMost(text: seq<Token>, item: Item, table: seq<Column>)
    ensures var added := Placeholders(AddItem(text, item, table, false)) - Placeholders(text);
            && added <= |ItemValues(item, table)|
            && (added == |ItemValues(item, table)| <==> IsKnownAlike(item, table))
  {
    AddedPlaceholders(text, item, table);
    InTableHasName(item.column, table);
    hide AddItem, Placeholders, RangeValues, HasName;
  }

  lemma {:induction false} PlaceholdersAtMost(table: seq<Column>, items: seq<Item>)
    ensures Placeholders(ClauseText(table, items, false)) <= |Values(table, items)|
    ensures Placeholders(ClauseText(table, items, false)) == |Values(table, items)| <==> AreKnownAlike(items, table)
  {
    if items != [] {
      hide AddItem, Placeholders, ItemValues, IsKnownAlike, AreKnownAlike;
      var init, item := items[..|items| - 1], items[|items| - 1];
      PlaceholdersAtMost(table, init);
      AddedAtMost(ClauseText(table, init, false), item, table);
      AlikeLast(items, table);
    }
  }

  lemma InTableHasName(column: Column, table: seq<Column>)
    ensures column in table ==> HasName(table, column.name)
  {
  }

  /** The statement can be executed with its parameters if and only if builder and binder agree on which
      columns are in the table; the builder compares index, name and type, the binder the name. */
  lemma {:induction false} BindsIff(table: seq<Column>, items: seq<Item>)
    ensures Bind(ClauseText(table, items, false), Values(table, items)).Some?
            <==> AreKnownAlike(items, table)
  {
    BindCounts(ClauseText(table, items, false), Values(table, items));
    PlaceholdersAtMost(table, items);
  }

  // ---------------------------------------------------------------- whether there is a clause

  /** A condition that is written: its range is not the whole line alone, or it has an order. */
  predicate LeavesText(item: Item, table: seq<Column>) {
    && item.isSet && item.column in table && item.column.dataType == IntegerType && item.Intervals() != []
    && (item.isDescending.Some? || exists k | 0 <= k < |item.Intervals()| :: !IsWhole(item.Intervals()[k]))
  }

  lemma {:induction false} RangeIsWrittenIff(intervals: seq<Interval>, name: string)
    ensures RangeText(intervals, name, false) == [] <==> forall k | 0 <= k < |intervals| :: IsWhole(intervals[k])
  {
    if intervals != [] {
      RangeIsWrittenIff(intervals[..|intervals| - 1], name);
    }
  }

  lemma {:induction false} TextIsWrittenIff(table: seq<Column>, items: seq<Item>)
    ensures ClauseText(table, items, false) == [] <==> forall k | 0 <= k < |items| :: !LeavesText(items[k], table)
  {
    if items != [] {
      var init, item := items[..|items| - 1], items[|items| - 1];
      TextIsWrittenIff(table, init);
      RangeIsWrittenIff(item.Intervals(), item.column.name);
      hide RangeText;
    }
  }

  /** There is no WHERE if and only if no condition is written; the text that there is takes the bound values. */
  lemma {:induction false} NoClauseIff(table: seq<Column>, items: seq<Item>)
    ensures Clause(table, items).None? <==> forall k | 0 <= k < |items| :: !LeavesText(items[k], table)
    ensures Clause(table, items).Some? && AreKnownAlike(items, table) ==>
              Bind(Clause(table, items).value, Values(table, items)) == Some(ClauseText(table, items, true))
  {
    hide LeavesText, ClauseText, Bind;
    TextIsWrittenIff(table, items);
    if AreKnownAlike(items, table) {
      ParametersMatch(table, items);
    }
  }
}
