/** Conditions, written and parsed. */
module SqlRoundTripWhere {
  import opened Common
  import opened JsonDecoding
  import opened RustStr
  import opened SqlAst
  import opened SqlParser
  import opened SqlPrinter
  import opened Words
  import L = SqlRoundTripList

  // --- operators ---

  lemma ShortOccurrence(t: string, n: string, j: nat)
    requires |t| <= |n|
    ensures OccursAt(t, n, j) ==> t == n
  {
    if OccursAt(t, n, j) { assert t[j..j + |n|] == t; }
  }

  lemma AbsentByLength(t: string, n: string)
    requires |t| <= |n| && t != n
    ensures Find(t, n) == None
  {
    forall j: nat ensures OccursAt(t, n, j) ==> t == n {
      ShortOccurrence(t, n, j);
    }
  }

  lemma PresentWhole(t: string)
    ensures Find(t, t) == Some(0)
  {
    assert t[0..0 + |t|] == t;
    FindIs(t, t, 0);
  }

  lemma OperatorAt(t: string, k: nat)
    requires k < 6
    ensures FirstOperator(t, OPERATORS[k..])
            == if Find(t, OPERATORS[k].0).Some? then
                 Some((Find(t, OPERATORS[k].0).value, OPERATORS[k].0, OPERATORS[k].1))
               else FirstOperator(t, OPERATORS[k + 1..])
  {
    hide Find;
    assert OPERATORS[k..][1..] == OPERATORS[k + 1..];
  }

  /** An operator's text is read as that operator. */
  lemma OperatorAlone(op: ComparisonOp)
    ensures FirstOperator(OperatorText(op), OPERATORS) == Some((0, OperatorText(op), op))
  {
    hide Find, FirstOperator;
    var t := OperatorText(op);
    assert OPERATORS == OPERATORS[0..];
    PresentWhole(t);
    OperatorAt(t, 0);
    if op != Ge {
      AbsentByLength(t, ">=");
      OperatorAt(t, 1);
      if op != Le {
        AbsentByLength(t, "<=");
        OperatorAt(t, 2);
        if op != NotEq {
          AbsentByLength(t, "!=");
          OperatorAt(t, 3);
          if op != Eq {
            AbsentByLength(t, "=");
            OperatorAt(t, 4);
            if op != Gt {
              AbsentByLength(t, ">");
              OperatorAt(t, 5);
            }
          }
        }
      }
    }
  }

  predicate NoOperator(s: string) {
    forall i :: 0 <= i < |s| ==> !OperatorChar(s[i])
  }

  predicate AllOperator(s: string) {
    s != "" && forall i :: 0 <= i < |s| ==> OperatorChar(s[i])
  }

  lemma OccursInOperator(a: string, op: string, b: string, needle: string, j: nat)
    requires NoOperator(a) && NoOperator(b) && AllOperator(needle)
    ensures OccursAt(a + op + b, needle, j) <==> j >= |a| && OccursAt(op, needle, j - |a|)
  {
    var t := a + op + b;
    if OccursAt(t, needle, j) {
      assert t[j..j + |needle|][0] == t[j] && t[j..j + |needle|][|needle| - 1] == t[j + |needle| - 1];
      assert j >= |a|;
      assert j + |needle| <= |a| + |op|;
      assert t[j..j + |needle|] == op[j - |a|..j - |a| + |needle|];
    }
    if j >= |a| && OccursAt(op, needle, j - |a|) {
      assert t[j..j + |needle|] == op[j - |a|..j - |a| + |needle|];
    }
  }

  lemma FindInOperator(a: string, op: string, b: string, needle: string)
    requires NoOperator(a) && NoOperator(b) && AllOperator(needle)
    ensures Find(a + op + b, needle) == if Find(op, needle).None? then None else Some(|a| + Find(op, needle).value)
  {
    hide NoOperator, AllOperator, OccursAt;
    var (t, f) := (a + op + b, Find(op, needle));
    forall j: nat ensures OccursAt(t, needle, j) <==> j >= |a| && OccursAt(op, needle, j - |a|) {
      OccursInOperator(a, op, b, needle, j);
    }
    if f.Some? {
      assert |a| + f.value - |a| == f.value;
      FindIs(t, needle, |a| + f.value);
    } else {
      FoundOccurs(t, needle);
    }
  }

  lemma FoundOccurs(t: string, needle: string)
    ensures Find(t, needle).Some? ==> OccursAt(t, needle, Find(t, needle).value)
  {
  }

  lemma {:induction false} OperatorInside(a: string, op: string, b: string, ops: seq<(string, ComparisonOp)>)
    requires NoOperator(a) && NoOperator(b) && forall i :: 0 <= i < |ops| ==> AllOperator(ops[i].0)
    ensures var r := FirstOperator(op, ops);
            FirstOperator(a + op + b, ops) == if r.None? then None else Some((|a| + r.value.0, r.value.1, r.value.2))
  {
    hide NoOperator, AllOperator, Find;
    if ops != [] {
      FindInOperator(a, op, b, ops[0].0);
      OperatorInside(a, op, b, ops[1..]);
    }
  }

  // --- one condition ---

  lemma LiteralIsWord(d: Decoder, s: string)
    requires IsLiteral(d, s)
    ensures IsWord(s) && Tight(s) && Trim(s) == s && Trim(" " + s) == s && NoOperator(s)
  {
    TrimTight(s);
  }

  lemma NameThenSpace(s: string)
    requires IsName(s)
    ensures Trim(s + " ") == s && NoOperator(s)
  {
    L.NameIsWord(s);
    assert (s + " ")[..|s|] == s;
    TrimEndDropsSpace(s);
  }

  lemma TrimEndDropsSpace(s: string)
    requires Tight(s)
    ensures Trim(s + " ") == s
  {
    var t := s + " ";
    assert TrimStart(t) == t;
    assert t[..|t| - 1] == s;
    assert TrimEnd(t) == TrimEnd(s);
    TrimOfTight(s);
  }

  lemma OperatorIsFound(c: Condition)
    requires NoOperator(c.field + " ") && NoOperator(" " + c.literal)
    ensures FirstOperator(PrintComparison(c), OPERATORS) == Some((|c.field| + 1, OperatorText(c.op), c.op))
  {
    hide NoOperator, FirstOperator, AllOperator;
    var (a, op, b) := (c.field + " ", OperatorText(c.op), " " + c.literal);
    assert PrintComparison(c) == a + op + b;
    OperatorAlone(c.op);
    OperatorsAreOperators();
    OperatorInside(a, op, b, OPERATORS);
  }

  lemma CutAtOperator(c: Condition)
    ensures PrintComparison(c)[..|c.field| + 1] == c.field + " "
    ensures PrintComparison(c)[|c.field| + 1 + |OperatorText(c.op)|..] == " " + c.literal
  {
    hide OperatorText;
    var (a, op, b) := (c.field + " ", OperatorText(c.op), " " + c.literal);
    assert PrintComparison(c) == a + op + b;
  }

  lemma NoOperatorAround(d: Decoder, c: Condition)
    requires CleanCondition(d, c)
    ensures NoOperator(c.field + " ") && NoOperator(" " + c.literal)
  {
    NameThenSpace(c.field);
    LiteralIsWord(d, c.literal);
  }

  lemma ComparisonIsReadBack(d: Decoder, c: Condition)
    requires CleanCondition(d, c)
    ensures Comparison(d, PrintComparison(c), c.negated) == Ok(MeantCondition(d, c))
  {
    hide IsName, Trim, TrimMatches, Literal, FirstOperator, PrintComparison, OperatorText, NoOperator;
    NameThenSpace(c.field);
    L.NameIsWord(c.field);
    LiteralIsWord(d, c.literal);
    NoOperatorAround(d, c);
    OperatorIsFound(c);
    CutAtOperator(c);
  }

  lemma OperatorsAreOperators()
    ensures forall i :: 0 <= i < |OPERATORS| ==> AllOperator(OPERATORS[i].0)
  {
  }

  lemma ComparedIsTight(d: Decoder, c: Condition)
    requires CleanCondition(d, c)
    ensures Tight(PrintComparison(c))
  {
    hide IsName, IsLiteral, OperatorText;
    L.NameIsWord(c.field);
    LiteralIsWord(d, c.literal);
    var s := PrintComparison(c);
    assert s[0] == c.field[0] && s[|s| - 1] == c.literal[|c.literal| - 1];
  }

  lemma ConditionText(d: Decoder, c: Condition)
    requires CleanCondition(d, c)
    ensures Tight(PrintComparison(c)) && Tight(PrintCondition(c))
    ensures "NOT " <= Upper(PrintCondition(c)) <==> c.negated
  {
    hide CleanCondition, PrintComparison, Tight, Upper;
    ComparedIsTight(d, c);
    if c.negated { NotIsUpper(PrintComparison(c)); } else { FieldIsNotNot(d, c); }
  }

  lemma NotIsUpper(s: string)
    requires Tight(s)
    ensures "NOT " <= Upper("NOT " + s) && Tight("NOT " + s)
  {
    UpperConcat("NOT ", s);
    assert Upper("NOT ") == "NOT ";
  }

  lemma FirstWordDecides(w: string, x: string, kw: string)
    requires IsWord(w) && IsWord(kw)
    ensures kw + " " <= Upper(w + " " + x) ==> Upper(w) == kw
  {
    hide Upper;
    assert w + " " + x == w + (" " + x);
    UpperWord(w);
    UpperConcat(w, " " + x);
    UpperConcat(" ", x);
    SpaceIsUpper();
    WordEndsAtSpace(Upper(w), kw, Upper(" " + x));
  }

  lemma FieldIsNotNot(d: Decoder, c: Condition)
    requires CleanCondition(d, c)
    ensures !("NOT " <= Upper(PrintComparison(c)))
  {
    L.NameIsWord(c.field);
    NamesAreNoKeywords(d, c);
    NotIsReserved();
    hide IsName, IsLiteral, IsReserved, OperatorText, Upper, PrintComparison, Trim, TrimMatches, Tight;
    SpaceIsUpper();
    var rest := ComparisonStarts(c);
    FirstWordDecides(c.field, rest, "NOT");
    assert "NOT" + " " == "NOT ";
  }

  lemma NotIsReserved()
    ensures IsReserved("NOT")
  {
  }

  lemma ComparisonStarts(c: Condition) returns (rest: string)
    ensures PrintComparison(c) == c.field + " " + rest
  {
    hide OperatorText;
    rest := OperatorText(c.op) + " " + c.literal;
  }

  lemma SpaceIsUpper()
    ensures Upper(" ") == " " && IsWord("NOT")
  {
  }

  lemma ConditionIsReadBack(d: Decoder, c: Condition)
    requires CleanCondition(d, c)
    ensures ParseCondition(d, PrintCondition(c)) == Ok(MeantCondition(d, c))
  {
    hide CleanCondition, Comparison, PrintComparison, Trim, Upper, PrintCondition;
    ConditionText(d, c);
    TrimTight(PrintCondition(c));
    TrimTight(PrintComparison(c));
    ComparisonIsReadBack(d, c);
    ConditionParts(c);
  }

  lemma ConditionParts(c: Condition)
    ensures !c.negated ==> PrintCondition(c) == PrintComparison(c)
    ensures c.negated ==> |PrintCondition(c)| >= 4 && PrintCondition(c)[4..] == PrintComparison(c)
  {
    hide PrintComparison;
  }

  // --- words of conditions ---

  function ConditionWords(c: Condition): (r: seq<string>)
    ensures r != []
  {
    (if c.negated then ["NOT"] else []) + [c.field, OperatorText(c.op), c.literal]
  }

  function GroupWords(g: seq<Condition>): seq<string> {
    if g == [] then []
    else if |g| == 1 then ConditionWords(g[0])
    else ConditionWords(g[0]) + (["AND"] + GroupWords(g[1..]))
  }

  function GroupsWords(groups: seq<seq<Condition>>): seq<string> {
    if groups == [] then [] else if |groups| == 1 then GroupWords(groups[0])
    else GroupWords(groups[0]) + (["OR"] + GroupsWords(groups[1..]))
  }

  /** No word of the list is this keyword, in whatever case. */
  predicate Lacks(words: seq<string>, keyword: string) {
    forall i :: 0 <= i < |words| ==> Upper(words[i]) != keyword
  }

  /** The words that are keywords are among `but`. */
  predicate OnlyReserved(words: seq<string>, but: set<string>) {
    forall i :: 0 <= i < |words| && IsKeyword(words[i]) ==> words[i] in but
  }

  lemma OnlyReservedLacks(words: seq<string>, but: set<string>, k: string)
    requires OnlyReserved(words, but) && IsReserved(k) && k !in but && forall w :: w in but ==> Upper(w) == w
    ensures Lacks(words, k)
  {
    hide IsReserved, Upper;
  }

  lemma ConditionHasWords(d: Decoder, c: Condition)
    requires CleanCondition(d, c)
    ensures AllWords(ConditionWords(c)) && Join(ConditionWords(c), " ") == PrintCondition(c)
    ensures OnlyReserved(ConditionWords(c), {"NOT"})
  {
    hide IsName, IsLiteral, Upper, CleanCondition, IsReserved;
    ConditionJoins(c);
    FieldsAreWords(d, c);
    NamesAreNoKeywords(d, c);
    OperatorIsNoKeyword(c.op);
  }

  lemma FieldsAreWords(d: Decoder, c: Condition)
    requires CleanCondition(d, c)
    ensures AllWords(ConditionWords(c))
  {
    hide IsName, IsLiteral, OperatorText;
    L.NameIsWord(c.field);
    LiteralIsWord(d, c.literal);
    OperatorIsWord(c.op);
    SpaceIsUpper();
  }

  lemma OperatorIsWord(op: ComparisonOp)
    ensures IsWord(OperatorText(op))
  {
  }

  lemma NamesAreNoKeywords(d: Decoder, c: Condition)
    requires CleanCondition(d, c)
    ensures !IsKeyword(c.field) && !IsKeyword(c.literal)
  {
  }

  lemma OperatorIsNoKeyword(op: ComparisonOp)
    ensures !IsKeyword(OperatorText(op))
  {
    ReservedIsLetters(Upper(OperatorText(op)));
  }

  lemma ReservedIsLetters(u: string)
    ensures IsReserved(u) ==> u != "" && 'A' <= u[0] <= 'Z'
  {
  }

  lemma ConditionJoins(c: Condition)
    ensures Join(ConditionWords(c), " ") == PrintCondition(c)
  {
    var three := [c.field, OperatorText(c.op), c.literal];
    assert three[1..] == [OperatorText(c.op), c.literal] && three[1..][1..] == [c.literal];
    assert Join(three[1..][1..], " ") == c.literal;
    assert Join(three[1..], " ") == OperatorText(c.op) + " " + c.literal;
    assert Join(three, " ") == c.field + " " + (OperatorText(c.op) + " " + c.literal);
    if c.negated {
      assert ConditionWords(c) == ["NOT"] + three;
      JoinConcat(["NOT"], three, " ");
    } else {
      assert ConditionWords(c) == three;
    }
  }

  lemma {:induction false} SegmentsSkip(a: seq<string>, b: seq<string>, keyword: string)
    requires Lacks(a, keyword) && Upper(keyword) == keyword
    ensures Segments(a + b, keyword) == Prepend(a, Segments(b, keyword))
  {
    hide Upper;
    if a == [] {
      assert a + b == b;
      PrependNothing(Segments(b, keyword));
    } else {
      assert (a + b)[1..] == a[1..] + b;
      SegmentsSkip(a[1..], b, keyword);
      assert [a[0]] + (a[1..] + Segments(b, keyword)[0]) == a + Segments(b, keyword)[0];
    }
  }

  lemma NextSegment(a: seq<string>, b: seq<string>, keyword: string)
    requires Lacks(a, keyword) && Upper(keyword) == keyword
    ensures Segments(a + ([keyword] + b), keyword) == [a] + Segments(b, keyword)
    ensures Segments(a, keyword) == [a]
  {
    hide Upper;
    SegmentsSkip(a, [keyword] + b, keyword);
    assert ([keyword] + b)[1..] == b;
    assert a + [] == a;
    SegmentsSkip(a, [], keyword);
  }

  lemma OnlyReservedConcat(a: seq<string>, k: string, b: seq<string>, x: set<string>, y: set<string>)
    requires OnlyReserved(a, x) && OnlyReserved(b, y) && x <= y && k in y
    ensures OnlyReserved(a + ([k] + b), y)
  {
    hide IsKeyword;
  }

  /** The words of each condition. */
  function EachCondition(g: seq<Condition>): (r: seq<seq<string>>)
    ensures |r| == |g| && forall i :: 0 <= i < |r| ==> r[i] == ConditionWords(g[i])
  {
    seq(|g|, i requires 0 <= i < |g| => ConditionWords(g[i]))
  }

  /** The words of each alternative. */
  function EachGroup(groups: seq<seq<Condition>>): (r: seq<seq<string>>)
    ensures |r| == |groups| && forall i :: 0 <= i < |r| ==> r[i] == GroupWords(groups[i])
  {
    seq(|groups|, i requires 0 <= i < |groups| => GroupWords(groups[i]))
  }

  lemma OnlyReservedGrows(words: seq<string>, x: set<string>, y: set<string>)
    requires OnlyReserved(words, x) && x <= y
    ensures OnlyReserved(words, y)
  {
    hide IsKeyword;
  }

  lemma AndIsUpper()
    ensures Upper("AND") == "AND" && Upper("OR") == "OR" && IsReserved("AND") && IsReserved("OR")
    ensures IsWord("AND") && IsWord("OR") && Upper("NOT") == "NOT"
  {
  }

  /** The words of a list of conditions, and how AND cuts them. */
  lemma {:induction false} GroupHasWords(d: Decoder, g: seq<Condition>)
    requires CleanGroup(d, g)
    ensures GroupWords(g) != [] && AllWords(GroupWords(g)) && Join(GroupWords(g), " ") == PrintGroup(g)
    ensures OnlyReserved(GroupWords(g), {"NOT", "AND"})
    ensures Segments(GroupWords(g), "AND") == EachCondition(g)
  {
    hide CleanCondition, ConditionWords, PrintCondition, Upper, Segments, Lacks, OnlyReserved, IsWord, IsReserved;
    ConditionHasWords(d, g[0]);
    AndIsUpper();
    var first := ConditionWords(g[0]);
    OnlyReservedLacks(first, {"NOT"}, "AND");
    if |g| == 1 {
      NextSegment(first, [], "AND");
      OnlyReservedGrows(first, {"NOT"}, {"NOT", "AND"});
    } else {
      GroupHasWords(d, g[1..]);
      var rest := GroupWords(g[1..]);
      NextSegment(first, rest, "AND");
      OnlyReservedConcat(first, "AND", rest, {"NOT"}, {"NOT", "AND"});
      JoinMore(first, "AND", rest);
      JoinedByAnd(g);
      assert EachCondition(g) == [first] + EachCondition(g[1..]);
    }
  }

  lemma JoinMore(first: seq<string>, k: string, rest: seq<string>)
    requires first != [] && rest != []
    ensures Join(first + ([k] + rest), " ") == Join(first, " ") + " " + (k + " " + Join(rest, " "))
  {
    JoinConcat([k], rest, " ");
    JoinConcat(first, [k] + rest, " ");
  }

  lemma JoinedByAnd(g: seq<Condition>)
    requires |g| > 1
    ensures PrintGroup(g) == PrintCondition(g[0]) + " " + ("AND" + " " + PrintGroup(g[1..]))
  {
    hide PrintCondition;
    AndBetween(PrintCondition(g[0]), PrintGroup(g[1..]));
  }

  lemma {:induction false} ConditionsAreReadBack(d: Decoder, g: seq<Condition>, parts: seq<string>)
    requires |parts| == |g| && forall i :: 0 <= i < |g| ==> CleanCondition(d, g[i]) && parts[i] == PrintCondition(g[i])
    ensures ParseEach(d, parts) == Ok(MeantGroup(d, g))
  {
    hide CleanCondition, PrintCondition, ParseCondition, MeantCondition;
    if g != [] {
      ConditionIsReadBack(d, g[0]);
      ConditionsAreReadBack(d, g[1..], parts[1..]);
      assert [MeantCondition(d, g[0])] + MeantGroup(d, g[1..]) == MeantGroup(d, g);
    }
  }

  lemma GroupIsReadBack(d: Decoder, g: seq<Condition>)
    requires CleanGroup(d, g)
    ensures ParseConditions(d, PrintGroup(g)) == Ok(MeantGroup(d, g))
  {
    hide CleanCondition, PrintGroup, GroupWords, ConditionWords, Segments, ParseEach, OnlyReserved;
    GroupHasWords(d, g);
    SplitOfJoin(GroupWords(g));
    var segments := Segments(GroupWords(g), "AND");
    var parts := JoinEach(segments);
    forall i | 0 <= i < |g| ensures parts[i] == PrintCondition(g[i]) {
      ConditionHasWords(d, g[i]);
    }
    ConditionsAreReadBack(d, g, parts);
  }

  // --- alternatives ---

  /** The words of the alternatives, and how OR cuts them. */
  lemma {:induction false} GroupsHaveWords(d: Decoder, groups: seq<seq<Condition>>)
    requires groups != [] && forall i :: 0 <= i < |groups| ==> CleanGroup(d, groups[i])
    ensures GroupsWords(groups) != [] && AllWords(GroupsWords(groups))
            && Join(GroupsWords(groups), " ") == PrintGroups(groups)
    ensures OnlyReserved(GroupsWords(groups), {"NOT", "AND", "OR"})
    ensures Segments(GroupsWords(groups), "OR") == EachGroup(groups)
  {
    hide CleanGroup, GroupWords, PrintGroup, Upper, Segments, Lacks, OnlyReserved, IsWord, IsReserved;
    GroupHasWords(d, groups[0]);
    AndIsUpper();
    var first := GroupWords(groups[0]);
    OnlyReservedLacks(first, {"NOT", "AND"}, "OR");
    if |groups| == 1 {
      NextSegment(first, [], "OR");
      OnlyReservedGrows(first, {"NOT", "AND"}, {"NOT", "AND", "OR"});
    } else {
      GroupsHaveWords(d, groups[1..]);
      var rest := GroupsWords(groups[1..]);
      NextSegment(first, rest, "OR");
      OnlyReservedConcat(first, "OR", rest, {"NOT", "AND"}, {"NOT", "AND", "OR"});
      JoinMore(first, "OR", rest);
      JoinedByOr(groups);
      assert EachGroup(groups) == [first] + EachGroup(groups[1..]);
    }
  }

  lemma JoinedByOr(groups: seq<seq<Condition>>)
    requires |groups| > 1
    ensures PrintGroups(groups) == PrintGroup(groups[0]) + " " + ("OR" + " " + PrintGroups(groups[1..]))
  {
    hide PrintGroup;
    OrBetween(PrintGroup(groups[0]), PrintGroups(groups[1..]));
  }

  lemma OrBetween(a: string, b: string)
    ensures a + " OR " + b == a + " " + ("OR" + " " + b)
  {
    assert " " + ("OR" + " " + b) == " OR " + b;
    assert a + " " + ("OR" + " " + b) == a + (" " + ("OR" + " " + b));
  }

  lemma AndBetween(a: string, b: string)
    ensures a + " AND " + b == a + " " + ("AND" + " " + b)
  {
    assert " " + ("AND" + " " + b) == " AND " + b;
    assert a + " " + ("AND" + " " + b) == a + (" " + ("AND" + " " + b));
  }

  lemma {:induction false} EachGroupIsReadBack(d: Decoder, groups: seq<seq<Condition>>, parts: seq<string>)
    requires |parts| == |groups|
    requires forall i :: 0 <= i < |groups| ==> CleanGroup(d, groups[i]) && parts[i] == PrintGroup(groups[i])
    ensures ParseGroups(d, parts) == Ok(MeantGroups(d, groups))
  {
    hide CleanGroup, PrintGroup, ParseConditions, MeantGroup;
    if groups != [] {
      GroupIsReadBack(d, groups[0]);
      EachGroupIsReadBack(d, groups[1..], parts[1..]);
      assert [MeantGroup(d, groups[0])] + MeantGroups(d, groups[1..]) == MeantGroups(d, groups);
    }
  }

  lemma GroupsAreCut(d: Decoder, groups: seq<seq<Condition>>)
    requires groups != [] && forall i :: 0 <= i < |groups| ==> CleanGroup(d, groups[i])
    ensures var parts := SplitOnKeyword(PrintGroups(groups), "OR");
            |parts| == |groups| && forall i :: 0 <= i < |groups| ==> parts[i] == PrintGroup(groups[i])
  {
    hide CleanGroup, PrintGroups, GroupsWords, GroupWords, PrintGroup, Segments, OnlyReserved, Join, SplitWhitespace;
    GroupsHaveWords(d, groups);
    SplitOfJoin(GroupsWords(groups));
    forall i | 0 <= i < |groups|
      ensures Join(GroupWords(groups[i]), " ") == PrintGroup(groups[i]) && GroupWords(groups[i]) != []
    {
      GroupHasWords(d, groups[i]);
    }
  }

  /** A WHERE condition is read back: alternatives, conjunctions, negations, operators and literals. */
  lemma WhereIsReadBack(d: Decoder, groups: seq<seq<Condition>>)
    requires groups != [] && forall i :: 0 <= i < |groups| ==> CleanGroup(d, groups[i])
    ensures ParseWhere(d, PrintGroups(groups)) == Ok(MeantGroups(d, groups))
    ensures Tight(PrintGroups(groups)) && Trim(PrintGroups(groups)) == PrintGroups(groups)
  {
    hide CleanGroup, PrintGroups, GroupsWords, PrintGroup, ParseGroups, OnlyReserved, SplitOnKeyword, Segments, Tight;
    GroupsHaveWords(d, groups);
    JoinIsTight(GroupsWords(groups));
    TrimTight(PrintGroups(groups));
    GroupsAreCut(d, groups);
    EachGroupIsReadBack(d, groups, SplitOnKeyword(PrintGroups(groups), "OR"));
  }

  /** No word of the alternatives is a keyword other than NOT, AND, OR. */
  lemma GroupsLack(d: Decoder, groups: seq<seq<Condition>>, k: string)
    requires groups != [] && forall i :: 0 <= i < |groups| ==> CleanGroup(d, groups[i])
    requires IsReserved(k) && k !in {"NOT", "AND", "OR"}
    ensures Lacks(GroupsWords(groups), k)
  {
    hide *;
    GroupsHaveWords(d, groups);
    AndIsUpper();
    OnlyReservedLacks(GroupsWords(groups), {"NOT", "AND", "OR"}, k);
  }
}
