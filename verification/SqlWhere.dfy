/** What a WHERE clause keeps, said without the evaluator: the rows that stay are those whose values stand in
    the relation the condition names. */
module SqlWhere {
  import opened Common
  import opened JsonDecoding
  import opened JsonText
  import opened Numerals
  import opened RowStore
  import opened SqlAst
  import opened SqlEval
  import opened TableSchemas
  import StableSort
  import Utf8

  // --- one value below another ---

  /** Numbers: negative infinity, the reals, positive infinity; NaN is neither below nor above anything. */
  predicate NumberBelow(a: Float, b: Float) {
    || (a.NegInf? && (b.Fin? || b.PosInf?))
    || (a.Fin? && b.Fin? && a.value < b.value)
    || (a.Fin? && b.PosInf?)
  }

  /** The texts with a space between them. */
  function Spaced(parts: seq<Bytes>): Bytes {
    if parts == [] then []
    else if |parts| == 1 then parts[0]
    else Spaced(parts[..|parts| - 1]) + Utf8.Encode(" ") + parts[|parts| - 1]
  }

  /** What a value is shown as: scalars by themselves, arrays and objects between brackets. */
  ghost predicate IsShownAs(v: Value, t: Bytes) {
    match v
    case Null => t == Utf8.Encode("<nil>")
    case Bool(b) => t == Utf8.Encode(if b then "true" else "false")
    case Number(text) => t == text
    case Str(s) => t == s
    case Array(items) =>
      exists parts: seq<Bytes> :: |parts| == |items| && (forall i :: 0 <= i < |items| ==> IsShownAs(items[i], parts[i]))
        && t == Utf8.Encode("[") + Spaced(parts) + Utf8.Encode("]")
    case Object(members) =>
      exists parts: seq<Bytes> :: |parts| == |members|
        && (forall i :: 0 <= i < |members| ==> IsShownAs(members[i].value, parts[i]))
        && t == Utf8.Encode("map[") + Spaced(Named(members, parts)) + Utf8.Encode("]")
  }

  /** A name, a colon and the text of its value. */
  function Named(members: seq<Member>, parts: seq<Bytes>): (r: seq<Bytes>)
    requires |parts| == |members|
    ensures |r| == |members|
  {
    seq(|members|, i requires 0 <= i < |members| => members[i].key + Utf8.Encode(":") + parts[i])
  }

  /** Two numerals compare as numbers, anything else as the texts the values are shown with. */
  ghost predicate Below(d: Decoder, a: Bytes, b: Bytes) {
    if RawFloat(d, a).Some? && RawFloat(d, b).Some? then NumberBelow(RawFloat(d, a).value, RawFloat(d, b).value)
    else exists s, t :: IsShownAs(ForResponse(d, a), s) && IsShownAs(ForResponse(d, b), t) && TextBelow(s, t)
  }

  /** The relation a comparison operator names. */
  ghost predicate Related(d: Decoder, op: ComparisonOp, a: Bytes, b: Bytes) {
    match op
    case Eq => !Below(d, a, b) && !Below(d, b, a)
    case NotEq => Below(d, a, b) || Below(d, b, a)
    case Gt => Below(d, b, a)
    case Ge => !Below(d, a, b)
    case Lt => Below(d, a, b)
    case Le => !Below(d, b, a)
  }

  /** The relation on reals. */
  predicate RealsRelated(op: ComparisonOp, x: real, y: real) {
    match op
    case Eq => x == y
    case NotEq => x != y
    case Gt => x > y
    case Ge => x >= y
    case Lt => x < y
    case Le => x <= y
  }

  lemma EncodedSigns()
    ensures Utf8.Encode("[") == [91] && Utf8.Encode("]") == [93] && Utf8.Encode(" ") == [32] && Utf8.Encode(":") == [58]
    ensures Utf8.Encode("map[") == [109, 97, 112, 91] && Utf8.Encode("<nil>") == [60, 110, 105, 108, 62]
    ensures Utf8.Encode("true") == [116, 114, 117, 101] && Utf8.Encode("false") == [102, 97, 108, 115, 101]
  {
    hide *;
    Letters("[", [91]);
    Letters("]", [93]);
    Letters(" ", [32]);
    Letters(":", [58]);
    Letters("map[", [109, 97, 112, 91]);
    Letters("<nil>", [60, 110, 105, 108, 62]);
    Letters("true", [116, 114, 117, 101]);
    Letters("false", [102, 97, 108, 115, 101]);
  }

  lemma {:induction false} Letters(s: string, t: Bytes)
    requires |s| == |t| && forall i :: 0 <= i < |s| ==> s[i] < 128 as char && s[i] as int == t[i]
    ensures Utf8.Encode(s) == t
  {
    if s != "" {
      Letters(s[1..], t[1..]);
      assert t == [t[0]] + t[1..];
    }
  }

  lemma {:induction false} SpacedIsJoined(parts: seq<Bytes>)
    ensures Spaced(parts) == JoinBytes(parts)
    decreases |parts|
  {
    EncodedSigns();
    hide Utf8.Encode;
    if |parts| > 1 {
      var (init, last) := (parts[..|parts| - 1], parts[|parts| - 1]);
      SpacedIsJoined(init);
      JoinedToLast(init, last);
      assert parts == init + [last];
    }
  }

  lemma {:induction false} JoinedToLast(init: seq<Bytes>, last: Bytes)
    requires init != []
    ensures JoinBytes(init + [last]) == JoinBytes(init) + [32] + last
  {
    assert (init + [last])[1..] == init[1..] + [last];
    if |init| > 1 {
      JoinedToLast(init[1..], last);
      var rest := JoinBytes(init[1..]);
      assert init[0] + [32] + (rest + [32] + last) == init[0] + [32] + rest + [32] + last;
    } else {
      assert JoinBytes([last]) == last;
    }
  }

  lemma {:induction false} ShownIsSprint(v: Value, t: Bytes)
    ensures IsShownAs(v, t) <==> t == Sprint(v)
  {
    match v
    case Array(items) =>
      forall i, p | 0 <= i < |items| ensures IsShownAs(items[i], p) <==> p == Sprint(items[i]) {
        ShownIsSprint(items[i], p);
      }
      ArrayIsShown(items, t);
    case Object(members) =>
      var items := ValuesOf(members);
      forall i, p | 0 <= i < |items| ensures IsShownAs(items[i], p) <==> p == Sprint(items[i]) {
        ShownIsSprint(items[i], p);
      }
      ObjectIsShown(members, t);
    case _ =>
      EncodedSigns();
      hide Utf8.Encode;
  }

  /** The texts of the elements. */
  function Sprints(items: seq<Value>): (r: seq<Bytes>)
    ensures |r| == |items| && forall i :: 0 <= i < |r| ==> r[i] == Sprint(items[i])
  {
    seq(|items|, i requires 0 <= i < |items| => Sprint(items[i]))
  }

  ghost predicate AreShownAs(items: seq<Value>, parts: seq<Bytes>) {
    |parts| == |items| && forall i :: 0 <= i < |items| ==> IsShownAs(items[i], parts[i])
  }

  lemma OnlySprints(items: seq<Value>, parts: seq<Bytes>)
    requires forall i, p :: 0 <= i < |items| ==> (IsShownAs(items[i], p) <==> p == Sprint(items[i]))
    ensures AreShownAs(items, parts) <==> parts == Sprints(items)
  {
    hide IsShownAs, Sprint;
  }

  lemma ArrayUnfolds(items: seq<Value>, t: Bytes)
    ensures IsShownAs(Array(items), t)
            <==> exists parts :: AreShownAs(items, parts) && t == Utf8.Encode("[") + Spaced(parts) + Utf8.Encode("]")
    ensures Sprint(Array(items)) == [91] + JoinBytes(Sprints(items)) + [93]
  {
    hide Utf8.Encode, Spaced, JoinBytes;
    assert Sprints(items) == seq(|items|, i requires 0 <= i < |items| => Sprint(items[i]));
    if IsShownAs(Array(items), t) {
      var parts: seq<Bytes> :|
        |parts| == |items| && (forall i :: 0 <= i < |items| ==> IsShownAs(items[i], parts[i]))
        && t == Utf8.Encode("[") + Spaced(parts) + Utf8.Encode("]");
      assert AreShownAs(items, parts);
    }
  }

  lemma ArrayIsShown(items: seq<Value>, t: Bytes)
    requires forall i, p :: 0 <= i < |items| ==> (IsShownAs(items[i], p) <==> p == Sprint(items[i]))
    ensures IsShownAs(Array(items), t) <==> t == Sprint(Array(items))
  {
    EncodedSigns();
    ArrayUnfolds(items, t);
    SpacedIsJoined(Sprints(items));
    hide *;
    forall parts ensures AreShownAs(items, parts) <==> parts == Sprints(items) { OnlySprints(items, parts); }
  }

  function ValuesOf(members: seq<Member>): (r: seq<Value>)
    ensures |r| == |members| && forall i :: 0 <= i < |r| ==> r[i] == members[i].value
  {
    seq(|members|, i requires 0 <= i < |members| => members[i].value)
  }

  lemma ObjectUnfolds(members: seq<Member>, t: Bytes)
    ensures IsShownAs(Object(members), t)
            <==> exists parts :: AreShownAs(ValuesOf(members), parts)
                   && t == Utf8.Encode("map[") + Spaced(Named(members, parts)) + Utf8.Encode("]")
    ensures Sprint(Object(members)) == [109, 97, 112, 91] + JoinBytes(Named(members, Sprints(ValuesOf(members)))) + [93]
  {
    EncodedSigns();
    hide Utf8.Encode, Spaced, JoinBytes;
    assert Named(members, Sprints(ValuesOf(members)))
           == seq(|members|, i requires 0 <= i < |members| => members[i].key + [58] + Sprint(members[i].value));
  }

  lemma ObjectIsShown(members: seq<Member>, t: Bytes)
    requires var items := ValuesOf(members);
             forall i, p :: 0 <= i < |items| ==> (IsShownAs(items[i], p) <==> p == Sprint(items[i]))
    ensures IsShownAs(Object(members), t) <==> t == Sprint(Object(members))
  {
    var items := ValuesOf(members);
    EncodedSigns();
    ObjectUnfolds(members, t);
    SpacedIsJoined(Named(members, Sprints(items)));
    hide *;
    forall parts ensures AreShownAs(items, parts) <==> parts == Sprints(items) { OnlySprints(items, parts); }
  }

  // --- which rows stay ---

  predicate IsFirst(cells: seq<Cell>, i: int, name: string) {
    forall j :: 0 <= j < i < |cells| ==> cells[j].key != name
  }

  /** The row's first cell of that name is this text. */
  ghost predicate HasCell(row: Row, name: string, raw: Bytes) {
    exists i :: 0 <= i < |row.cells| && row.cells[i] == Cell(name, raw) && IsFirst(row.cells, i, name)
  }

  /** A row without a value in the column stays under no condition, negated or not; NOT is the complement on
      the others. */
  ghost predicate StaysUnder(d: Decoder, row: Row, c: Condition) {
    exists raw :: HasCell(row, c.field, raw) && !IsJsonNull(raw)
      && (if c.negated then !Related(d, c.op, raw, Utf8.Encode(c.literal))
          else Related(d, c.op, raw, Utf8.Encode(c.literal)))
  }

  /** The groups are alternatives, and each asks for all its conditions. */
  ghost predicate Stays(d: Decoder, row: Row, groups: seq<seq<Condition>>) {
    groups == [] || exists g :: g in groups && forall c :: c in g ==> StaysUnder(d, row, c)
  }

  /** Positions below `n`, in increasing order. */
  predicate IsSelection(at: seq<nat>, n: nat) {
    && (forall k :: 0 <= k < |at| ==> at[k] < n)
    && (forall k, l :: 0 <= k < l < |at| ==> at[k] < at[l])
  }

  /** Exactly the positions of the rows that stay. */
  ghost predicate AreThoseThatStay(d: Decoder, rows: seq<Row>, groups: seq<seq<Condition>>, at: seq<nat>) {
    forall i: nat :: i < |rows| ==> (i in at <==> Stays(d, rows[i], groups))
  }

  function Picked<T>(s: seq<T>, at: seq<nat>): (r: seq<T>)
    requires IsSelection(at, |s|)
    ensures |r| == |at| && forall k :: 0 <= k < |r| ==> r[k] == s[at[k]]
  {
    seq(|at|, k requires 0 <= k < |at| => s[at[k]])
  }

  // --- comparing is being below ---

  lemma FloatsCompare(a: Float, b: Float)
    ensures CompareFloats(a, b) == Less <==> NumberBelow(a, b)
    ensures CompareFloats(a, b) == Greater <==> NumberBelow(b, a)
  {
  }

  lemma {:induction false} TextsCompare(a: Bytes, b: Bytes)
    ensures CompareBytes(a, b) == Less <==> TextBelow(a, b)
    ensures CompareBytes(a, b) == Greater <==> TextBelow(b, a)
  {
    hide TextBelow;
    TextBelowStep(a, b);
    TextBelowStep(b, a);
    if a != [] && b != [] { TextsCompare(a[1..], b[1..]); }
  }

  lemma ValuesCompare(d: Decoder, a: Bytes, b: Bytes)
    ensures CompareRaw(d, a, b) == Less <==> Below(d, a, b)
    ensures CompareRaw(d, a, b) == Greater <==> Below(d, b, a)
  {
    hide RawFloat, Sprint, IsShownAs, ForResponse, CompareFloats, CompareBytes, NumberBelow, TextBelow;
    if RawFloat(d, a).Some? && RawFloat(d, b).Some? {
      FloatsCompare(RawFloat(d, a).value, RawFloat(d, b).value);
    } else {
      TextsCompare(Sprint(ForResponse(d, a)), Sprint(ForResponse(d, b)));
      forall t
        ensures IsShownAs(ForResponse(d, a), t) <==> t == Sprint(ForResponse(d, a))
        ensures IsShownAs(ForResponse(d, b), t) <==> t == Sprint(ForResponse(d, b))
      {
        ShownIsSprint(ForResponse(d, a), t);
        ShownIsSprint(ForResponse(d, b), t);
      }
    }
  }

  lemma HoldsIsRelated(d: Decoder, op: ComparisonOp, a: Bytes, b: Bytes)
    ensures Holds(op, CompareRaw(d, a, b)) <==> Related(d, op, a, b)
  {
    hide CompareRaw, Below;
    ValuesCompare(d, a, b);
  }

  lemma {:induction false} GetIsCell(cells: seq<Cell>, name: string) returns (i: nat)
    ensures if Get(cells, name).None? then forall j :: 0 <= j < |cells| ==> cells[j].key != name
            else i < |cells| && cells[i] == Cell(name, Get(cells, name).value)
                 && forall j :: 0 <= j < i ==> cells[j].key != name
  {
    i := 0;
    if cells != [] && cells[0].key != name {
      var k := GetIsCell(cells[1..], name);
      assert forall j :: 0 < j < |cells| ==> cells[j] == cells[1..][j - 1];
      i := k + 1;
    }
  }

  lemma GetIsHasCell(row: Row, name: string, raw: Bytes)
    ensures HasCell(row, name, raw) <==> Get(row.cells, name) == Some(raw)
  {
    var i := GetIsCell(row.cells, name);
    if HasCell(row, name, raw) {
      var k :| 0 <= k < |row.cells| && row.cells[k] == Cell(name, raw) && IsFirst(row.cells, k, name);
      assert Get(row.cells, name).Some? ==> !(i < k) && !(k < i);
    }
  }

  lemma ConditionIsStays(d: Decoder, row: Row, c: Condition)
    ensures MatchesCondition(d, row, c) <==> StaysUnder(d, row, c)
  {
    hide Get, HasCell, IsJsonNull, CompareRaw, Related, Holds;
    forall raw ensures HasCell(row, c.field, raw) <==> Get(row.cells, c.field) == Some(raw) {
      GetIsHasCell(row, c.field, raw);
    }
    var cell := Get(row.cells, c.field);
    if cell.Some? { HoldsIsRelated(d, c.op, cell.value, Utf8.Encode(c.literal)); }
  }

  lemma MatchesIsStays(d: Decoder, row: Row, q: Query)
    ensures Matches(d, row, q) <==> Stays(d, row, q.groups)
  {
    hide MatchesCondition, StaysUnder;
    forall c ensures MatchesCondition(d, row, c) <==> StaysUnder(d, row, c) {
      ConditionIsStays(d, row, c);
    }
    if Matches(d, row, q) && q.groups != [] {
      var i :| 0 <= i < |q.groups| && MatchesAll(d, row, q.groups[i]);
      assert q.groups[i] in q.groups;
    }
    if Stays(d, row, q.groups) && q.groups != [] {
      var g :| g in q.groups && forall c :: c in g ==> StaysUnder(d, row, c);
      var i :| 0 <= i < |q.groups| && q.groups[i] == g;
      assert MatchesAll(d, row, q.groups[i]);
    }
  }

  // --- the rows that stay ---

  lemma {:induction false} FilteredIsPicked(d: Decoder, rows: seq<Row>, q: Query) returns (at: seq<nat>)
    ensures IsSelection(at, |rows|) && AreThoseThatStay(d, rows, q.groups, at)
    ensures Filtered(d, rows, q) == Picked(rows, at)
  {
    hide Matches, Stays, IsSelection, Picked, AreThoseThatStay;
    at := [];
    NothingPicked(d, rows, q.groups);
    if rows != [] {
      var n := |rows| - 1;
      var before := FilteredIsPicked(d, rows[..n], q);
      MatchesIsStays(d, rows[n], q);
      PickMore(rows, before);
      at := if Matches(d, rows[n], q) then before + [n] else before;
      OneRowMore(d, rows, q.groups, before);
    }
  }

  lemma NothingPicked(d: Decoder, rows: seq<Row>, groups: seq<seq<Condition>>)
    ensures IsSelection([], |rows|) && Picked(rows, []) == [] && (rows == [] ==> AreThoseThatStay(d, rows, groups, []))
  {
  }

  lemma OneRowMore(d: Decoder, rows: seq<Row>, groups: seq<seq<Condition>>, before: seq<nat>)
    requires rows != [] && IsSelection(before, |rows| - 1)
    requires AreThoseThatStay(d, rows[..|rows| - 1], groups, before)
    ensures var n := |rows| - 1;
            AreThoseThatStay(d, rows, groups, if Stays(d, rows[n], groups) then before + [n] else before)
  {
    hide Stays;
    assert forall i: nat :: i < |rows| - 1 ==> rows[..|rows| - 1][i] == rows[i];
  }

  /** The last position added to a selection, or not. */
  lemma PickMore<T>(s: seq<T>, at: seq<nat>)
    requires s != [] && IsSelection(at, |s| - 1)
    ensures IsSelection(at, |s|) && IsSelection(at + [|s| - 1], |s|)
    ensures Picked(s, at) == Picked(s[..|s| - 1], at)
    ensures Picked(s, at + [|s| - 1]) == Picked(s[..|s| - 1], at) + [s[|s| - 1]]
  {
    assert IsSelection(at, |s|);
  }

  lemma {:induction false} NoConditionKeepsAll(d: Decoder, rows: seq<Row>, q: Query)
    requires q.groups == []
    ensures Filtered(d, rows, q) == rows
  {
    if rows != [] {
      NoConditionKeepsAll(d, rows[..|rows| - 1], q);
      assert rows == rows[..|rows| - 1] + [rows[|rows| - 1]];
    }
  }

  // --- main results ---

  /** A query with a WHERE clause is the query without it on exactly the rows that stay, in their order and as
      often as they are there: selection, order, window, aggregates and groups alike. */
  lemma WhereKeepsExactly(d: Decoder, schema: seq<Field>, rows: seq<Row>, q: Query) returns (at: seq<nat>)
    ensures IsSelection(at, |rows|) && AreThoseThatStay(d, rows, q.groups, at)
    ensures Evaluate(d, schema, rows, q) == Evaluate(d, schema, Picked(rows, at), q.(groups := []))
  {
    hide Stays, Filtered, SelectedFields, AggregateResult, FormatRows, GroupRows, GroupedFields, StableSort.Sort;
    at := FilteredIsPicked(d, rows, q);
    NoConditionKeepsAll(d, Picked(rows, at), q.(groups := []));
  }

  /** Where cell and literal are integers the six operators are those of the numbers they are read as. */
  lemma IntegersAreCompared(d: Decoder, row: Row, c: Condition, raw: Bytes)
    requires Lawful(d) && HasCell(row, c.field, raw) && !IsJsonNull(raw)
    requires RawInt(d, raw).Some? && RawInt(d, Utf8.Encode(c.literal)).Some?
    ensures var (m, k) := (RawInt(d, raw).value, RawInt(d, Utf8.Encode(c.literal)).value);
            StaysUnder(d, row, c) <==> (RealsRelated(c.op, d.nearest(m), d.nearest(k)) <==> !c.negated)
  {
    IntegersAreNumbers(d, raw);
    IntegersAreNumbers(d, Utf8.Encode(c.literal));
    hide RawInt, RawFloat, HasCell, IsJsonNull, Lawful;
    forall other | HasCell(row, c.field, other) ensures other == raw {
      GetIsHasCell(row, c.field, other);
      GetIsHasCell(row, c.field, raw);
    }
  }

  lemma IntegersAreNumbers(d: Decoder, raw: Bytes)
    requires Lawful(d) && RawInt(d, raw).Some?
    ensures RawFloat(d, raw) == Some(Fin(d.nearest(RawInt(d, raw).value)))
  {
    hide ParseI64, IsJsonNull, WellFormed;
  }

  /** Where both are strings and not both numerals, they are compared byte by byte. */
  lemma StringsAreCompared(d: Decoder, op: ComparisonOp, a: Bytes, b: Bytes)
    requires Lawful(d) && d.asString(a).Some? && d.asString(b).Some?
    requires RawFloat(d, a).None? || RawFloat(d, b).None?
    ensures var (s, t) := (d.asString(a).value, d.asString(b).value);
            && Related(d, Lt, a, b) == TextBelow(s, t) && Related(d, Gt, a, b) == TextBelow(t, s)
            && Related(d, Eq, a, b) == (s == t) && Related(d, NotEq, a, b) == (s != t)
            && Related(d, Ge, a, b) == (s == t || TextBelow(t, s))
                && Related(d, Le, a, b) == (s == t || TextBelow(s, t))
  {
    hide RawFloat, IsJsonNull, WellFormed, TextBelow;
    var (s, t) := (d.asString(a).value, d.asString(b).value);
    assert Sprint(ForResponse(d, a)) == s && Sprint(ForResponse(d, b)) == t;
    TextsCompare(s, t);
    EqualTexts(s, t);
  }

  lemma {:induction false} EqualTexts(s: Bytes, t: Bytes)
    ensures CompareBytes(s, t) == Equal <==> s == t
  {
    if s != [] && t != [] {
      EqualTexts(s[1..], t[1..]);
      assert s == [s[0]] + s[1..] && t == [t[0]] + t[1..];
    }
  }

  /** NOT keeps, of the rows with a value in the column, exactly the others; of those without, none. */
  lemma NotIsTheComplement(d: Decoder, row: Row, c: Condition)
    ensures StaysUnder(d, row, c) && StaysUnder(d, row, c.(negated := !c.negated)) ==> false
    ensures StaysUnder(d, row, c) || StaysUnder(d, row, c.(negated := !c.negated))
            <==> exists raw :: HasCell(row, c.field, raw) && !IsJsonNull(raw)
  {
    hide HasCell, IsJsonNull, Related;
    forall a, b | HasCell(row, c.field, a) && HasCell(row, c.field, b) ensures a == b {
      GetIsHasCell(row, c.field, a);
      GetIsHasCell(row, c.field, b);
    }
  }
}
