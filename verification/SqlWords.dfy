/** What the words of the SQL subset mean, each spelled out, in any letter case. */
module SqlWords {
  import opened Common
  import opened JsonDecoding
  import opened Numerals
  import opened RustStr
  import opened SqlAst
  import opened SqlParser
  import opened SqlPrinter
  import opened Words
  import L = SqlRoundTripList
  import R = SqlRoundTrip
  import Text
  import Utf8
  import W = SqlRoundTripWhere

  /** A column's name as it stands, or any text without a backquote between backquotes. */
  predicate NameText(t: string, name: string) {
    || (IsName(name) && t == name)
    || (name != "" && (forall i :: 0 <= i < |name| ==> name[i] != '`') && t == "`" + name + "`")
  }

  // --- clauses ---

  lemma NameIsTaken(k: string, t: string, name: string, tail: string)
    requires NameText(t, name) && IsTail(tail)
    ensures var s := k + (t + tail);
            && s[|k|..] == t + tail && Trim(t + tail) == t + tail && t != ""
            && NextToken(t + tail) == (t, AfterSpace(tail)) && Trim(AfterSpace(tail)) == AfterSpace(tail)
            && TrimMatches(t, '`') == name
  {
    hide NextToken, Trim, TrimMatches, IsTail, AfterSpace;
    if IsName(name) && t == name {
      L.NameIsWord(name);
      R.NameStart(name);
      R.TokenAfter(k, name, tail);
    } else {
      R.QuotesAreTrimmed(name);
      R.QuotedIsTaken(name, tail);
      TrimTight(t + tail);
      TrimTail(tail);
    }
  }

  lemma Begins(k: string, keyword: string, x: string)
    requires Spells(k, keyword) && InCapitals(keyword)
    ensures keyword <= Upper(k + x)
  {
    SpelledIsUpper(k, keyword);
    UpperConcat(k, x);
  }

  lemma KeywordsAreInCapitals()
    ensures InCapitals("WHERE ") && InCapitals("GROUP BY ") && InCapitals("ORDER BY ")
    ensures InCapitals("LIMIT ") && InCapitals("OFFSET ") && InCapitals("ASC") && InCapitals("DESC")
  {
  }

  /** GROUP BY and a column. */
  lemma GroupByMeans(d: Decoder, k: string, t: string, name: string, tail: string, q: Query)
    requires Spells(k, "GROUP BY ") && NameText(t, name) && IsTail(tail)
    ensures Clause(d, Parsing(k + (t + tail), q)) == Ok(Parsing(AfterSpace(tail), q.(groupBy := name)))
  {
    hide NameText, Clause, NextToken, Trim, TrimMatches, Upper, IsTail, AfterSpace;
    KeywordsAreInCapitals();
    Begins(k, "GROUP BY ", t + tail);
    NameIsTaken(k, t, name, tail);
    R.Dispatch(d, Parsing(k + (t + tail), q));
  }

  /** ORDER BY and a column with a direction, or without. */
  lemma OrderByMeans(d: Decoder, k: string, t: string, name: string, direction: string, tail: string, q: Query)
    requires Spells(k, "ORDER BY ") && NameText(t, name) && IsTail(tail)
    requires Spells(direction, "ASC") || Spells(direction, "DESC")
    ensures Clause(d, Parsing(k + (t + (" " + direction + tail)), q))
            == if q.aggregate.Some? && q.groupBy == "" then Err(OrderByWithAggregate)
               else if Spells(direction, "DESC") then
                 Ok(Parsing(AfterSpace(tail), q.(orderBy := name, orderDesc := true)))
               else Ok(Parsing(AfterSpace(tail), q.(orderBy := name)))
  {
    hide NameText, Clause, NextToken, Trim, TrimMatches, Upper, Direction, IsTail, AfterSpace, Spells;
    KeywordsAreInCapitals();
    var more := " " + direction + tail;
    DirectionTail(direction, tail);
    Begins(k, "ORDER BY ", t + more);
    NameIsTaken(k, t, name, more);
    R.Dispatch(d, Parsing(k + (t + more), q));
    DirectionMeans(direction, tail, q.(orderBy := name));
    SpelledLength(k, "ORDER BY ");
  }

  lemma SpelledLength(k: string, keyword: string)
    requires Spells(k, keyword)
    ensures |k| == |keyword|
  {
  }

  lemma DirectionTail(direction: string, tail: string)
    requires Spells(direction, "ASC") || Spells(direction, "DESC")
    requires IsTail(tail)
    ensures IsTail(" " + direction + tail) && AfterSpace(" " + direction + tail) == direction + tail
    ensures IsWord(direction) && direction[0] != '`'
  {
    DirectionIsWord(direction);
    hide Spells, IsTail, IsWhitespace;
    R.WordIsTight(direction);
    TightWithTail(direction, tail);
    assert (" " + direction + tail)[1..] == direction + tail;
  }

  lemma DirectionIsWord(direction: string)
    requires Spells(direction, "ASC") || Spells(direction, "DESC")
    ensures IsWord(direction) && direction[0] != '`'
  {
    forall i | 0 <= i < |direction| ensures !IsWhitespace(direction[i]) && direction[i] != '`' {
      assert 'A' <= direction[i] <= 'z' && direction[i] != '`';
    }
  }

  lemma DirectionMeans(direction: string, tail: string, q: Query)
    requires Spells(direction, "ASC") || Spells(direction, "DESC")
    requires IsTail(tail)
    ensures Direction(Parsing(direction + tail, q))
            == Parsing(AfterSpace(tail), if Spells(direction, "DESC") then q.(orderDesc := true) else q)
  {
    hide NextToken, Trim, Upper, IsTail, AfterSpace, Spells;
    KeywordsAreInCapitals();
    SpelledIsUpper(direction, "ASC");
    SpelledIsUpper(direction, "DESC");
    DirectionTail(direction, tail);
    R.TokenAfter("", direction, tail);
    assert "" + (direction + tail) == direction + tail;
  }

  /** The token after a column's name that is no direction is left for the next clause. */
  lemma OrderByAloneMeans(d: Decoder, k: string, t: string, name: string, tail: string, q: Query)
    requires Spells(k, "ORDER BY ") && NameText(t, name) && IsTail(tail)
    requires var next := NextToken(AfterSpace(tail)).0; !Spells(next, "ASC") && !Spells(next, "DESC")
    ensures Clause(d, Parsing(k + (t + tail), q))
            == if q.aggregate.Some? && q.groupBy == "" then Err(OrderByWithAggregate)
               else Ok(Parsing(AfterSpace(tail), q.(orderBy := name)))
  {
    hide NameText, Clause, NextToken, Trim, TrimMatches, Upper, IsTail, AfterSpace, Spells;
    KeywordsAreInCapitals();
    SpelledLength(k, "ORDER BY ");
    Begins(k, "ORDER BY ", t + tail);
    NameIsTaken(k, t, name, tail);
    R.Dispatch(d, Parsing(k + (t + tail), q));
    SpelledIsUpper(NextToken(AfterSpace(tail)).0, "ASC");
    SpelledIsUpper(NextToken(AfterSpace(tail)).0, "DESC");
  }

  /** LIMIT and OFFSET take the decimal text of an integer of 64 bits that is not negative, and nothing else. */
  lemma CountsMean(d: Decoder, k: string, w: string, tail: string, q: Query)
    requires IsWord(w) && w[0] != '`' && IsTail(tail)
    requires Spells(k, "LIMIT ") || Spells(k, "OFFSET ")
    ensures forall n :: 0 <= n && IsDecimalText(Utf8.Encode(w), n) && IsI64(n) ==>
              Clause(d, Parsing(k + (w + tail), q))
              == Ok(Parsing(AfterSpace(tail), if Spells(k, "LIMIT ") then q.(limit := n) else q.(offset := n)))
    ensures (forall n :: 0 <= n && IsI64(n) ==> !IsDecimalText(Utf8.Encode(w), n)) ==>
              Clause(d, Parsing(k + (w + tail), q)) == Err(if Spells(k, "LIMIT ") then BadLimit else BadOffset)
  {
    CountIsTaken(d, k, w, tail, q);
    forall n ensures ParseI64(Utf8.Encode(w)) == Some(n) <==> IsDecimalText(Utf8.Encode(w), n) && IsI64(n) {
      ParseIsDecimal(Utf8.Encode(w), n);
    }
    hide *;
    hide ParseI64, Clause, IsDecimalText;
    assert ParseCount(w) == var n := ParseI64(Utf8.Encode(w)); if n.Some? && n.value >= 0 then n else None;
  }

  lemma CountIsTaken(d: Decoder, k: string, w: string, tail: string, q: Query)
    requires IsWord(w) && w[0] != '`' && IsTail(tail)
    requires Spells(k, "LIMIT ") || Spells(k, "OFFSET ")
    ensures Clause(d, Parsing(k + (w + tail), q))
            == if Spells(k, "LIMIT ") then
                 if ParseCount(w).None? then Err(BadLimit)
                 else Ok(Parsing(AfterSpace(tail), q.(limit := ParseCount(w).value)))
               else
                 if ParseCount(w).None? then Err(BadOffset)
                 else Ok(Parsing(AfterSpace(tail), q.(offset := ParseCount(w).value)))
  {
    hide Clause, NextToken, Trim, Upper, IsTail, ParseCount, AfterSpace, Spells;
    KeywordsAreInCapitals();
    if Spells(k, "LIMIT ") {
      SpelledLength(k, "LIMIT ");
      Begins(k, "LIMIT ", w + tail);
    } else {
      SpelledLength(k, "OFFSET ");
      Begins(k, "OFFSET ", w + tail);
    }
    R.TokenAfter(k, w, tail);
    R.Dispatch(d, Parsing(k + (w + tail), q));
  }

  // --- aggregates ---

  /** The five functions by name. */
  predicate IsFunction(name: string, fn: AggregateFunction) {
    (name, fn) in {("COUNT", Count), ("SUM", Sum), ("AVG", Avg), ("MIN", Min), ("MAX", Max)}
  }

  /** A function's name and a column between parentheses; `*` is for COUNT alone. */
  lemma FunctionsMean(f: string, name: string, fn: AggregateFunction, t: string, field: string, alias: string)
    requires IsFunction(name, fn) && Spells(f, name)
    requires IsName(field) && (t == field || t == "`" + field + "`")
    ensures AggregateCall(f + "(" + t + ")", alias)
            == if field == "*" && fn != Count then Err(NeedsField(fn)) else Ok(Some(Aggregate(fn, field, alias)))
  {
    var s := f + "(" + t + ")";
    FunctionIsRead(f, name, fn, t + ")");
    ArgumentIsTrimmed(t, field);
    assert f + "(" + (t + ")") == s;
    hide FunctionOf, Trim, TrimMatches, Upper, IsName;
    assert s[|name| + 1..|s| - 1] == t;
    assert s[|s| - 1..] == ")";
  }

  lemma FunctionIsRead(f: string, name: string, fn: AggregateFunction, rest: string)
    requires IsFunction(name, fn) && Spells(f, name)
    ensures FunctionOf(Upper(f + "(" + rest)) == Some(fn) && |FunctionName(fn)| == |name| == |f|
  {
    SpelledIsUpper(f, name);
    UpperConcat(f + "(", rest);
    UpperConcat(f, "(");
    assert Upper("(") == "(";
    var u := name + "(" + Upper(rest);
    assert u[0] == name[0] && u[1] == name[1];
    assert name + "(" <= u;
  }

  lemma ArgumentIsTrimmed(t: string, field: string)
    requires IsName(field) && (t == field || t == "`" + field + "`")
    ensures Trim(t) == t && TrimMatches(t, '`') == field && field != ""
  {
    L.NameIsWord(field);
    NoBackquotes(field);
    hide Trim, TrimMatches, IsName;
    R.QuotesAreTrimmed(field);
  }

  lemma NoBackquotes(field: string)
    requires IsName(field)
    ensures field != "" && forall i :: 0 <= i < |field| ==> field[i] != '`'
  {
  }

  /** A name after ` AS ` or ` as `, as it stands or between backquotes. */
  lemma AliasMeans(call: string, marker: string, t: string, alias: string)
    requires IsWord(call) && marker in {" AS ", " as "} && IsName(alias) && (t == alias || t == "`" + alias + "`")
    ensures WithoutAlias(call + marker + t) == Ok((call, alias))
  {
    var s := call + marker + t;
    ArgumentIsTrimmed(t, alias);
    TrimTight(call);
    NoSpaces(call, t, alias);
    assert s[|call| + 4..] == t && s[..|call|] == call;
    MarkerIsFound(call, marker, t);
    hide Trim, TrimMatches, Find, IsName;
  }

  lemma NoSpaces(call: string, t: string, alias: string)
    requires IsWord(call) && IsName(alias) && (t == alias || t == "`" + alias + "`")
    ensures ' ' !in call && ' ' !in t
  {
    assert IsWhitespace(' ');
  }

  lemma MarkerIsFound(call: string, marker: string, t: string)
    requires ' ' !in call && ' ' !in t && marker in {" AS ", " as "}
    ensures var s := call + marker + t;
            && Find(s, marker) == Some(|call|)
            && (marker == " as " ==> Find(s, " AS ") == None)
  {
    var s := call + marker + t;
    assert s[|call|..|call| + 4] == marker;
    forall j: nat, m | j != |call| && m in {" AS ", " as "} ensures !OccursAt(s, m, j) {
      if OccursAt(s, m, j) { TwoSpaces(call, marker, t, m, j); }
    }
    assert !OccursAt(s, " AS ", |call|) || marker == " AS ";
    FindIs(s, marker, |call|);
    if Find(s, " AS ").Some? { assert OccursAt(s, " AS ", Find(s, " AS ").value); }
  }

  lemma SpacesOfMarker(call: string, marker: string, t: string)
    requires ' ' !in call && ' ' !in t && marker in {" AS ", " as "}
    ensures var s := call + marker + t;
            forall j :: 0 <= j < |s| && s[j] == ' ' ==> j == |call| || j == |call| + 3
  {
    var s := call + marker + t;
    forall j | 0 <= j < |s| && j != |call| && j != |call| + 3 ensures s[j] != ' ' {
      if j < |call| {
        assert s[j] == call[j];
      } else if j < |call| + 4 {
        assert s[j] == marker[j - |call|];
      } else {
        assert s[j] == t[j - |call| - 4];
      }
    }
  }

  lemma TwoSpaces(call: string, marker: string, t: string, m: string, j: nat)
    requires ' ' !in call && ' ' !in t && marker in {" AS ", " as "} && m in {" AS ", " as "}
    requires OccursAt(call + marker + t, m, j)
    ensures j == |call|
  {
    var s := call + marker + t;
    assert s[j] == s[j..j + 4][0] == ' ' && s[j + 3] == s[j..j + 4][3] == ' ';
    SpacesOfMarker(call, marker, t);
  }

  /** A column and an aggregate: the list is the same in either order. */
  lemma OrderOfListIsFree(g: string, a: Aggregate)
    requires IsName(g) && CleanAggregate(a)
    ensures SelectList(g + ", " + PrintAggregate(a)) == Ok(([g], Some(a)))
    ensures SelectList(PrintAggregate(a) + ", " + g) == Ok(([g], Some(a)))
  {
    hide CleanAggregate, PrintAggregate, IsName, Split, GroupedSelection, FieldList, WithoutAlias, AggregateCall, Trim;
    L.GroupedList(g, a);
    var (t, s) := (PrintAggregate(a), PrintAggregate(a) + ", " + g);
    L.AggregateText(a);
    AggregateFirst(t, g);
    PairIsGrouped(g, t, a);
    PairHasNames(s, g, t);
  }

  lemma AggregateFirst(t: string, g: string)
    requires IsName(g) && ',' !in t && Tight(t)
    ensures var s := t + ", " + g; Split(s, ',') == [t, " " + g] && ',' in s && Trim(s) == s
  {
    hide Split;
    L.NameIsWord(g);
    hide IsName, Trim;
    var s := t + ", " + g;
    assert s == t + [','] + (" " + g);
    SplitFirst(t, ',', " " + g);
    SplitWithout(" " + g, ',');
    CommaBetween(t, g);
    TrimTight(s);
  }

  lemma CommaBetween(t: string, g: string)
    requires Tight(t) && Tight(g)
    ensures Tight(t + ", " + g) && ',' in t + ", " + g
  {
    hide IsWhitespace;
    var s := t + ", " + g;
    assert s[|t|] == ',';
    assert s[0] == t[0] && s[|s| - 1] == g[|g| - 1];
  }

  lemma PairIsGrouped(g: string, t: string, a: Aggregate)
    requires IsName(g) && Tight(t) && AggregateSelection(t) == Ok(Some(a))
    requires Split(t + ", " + g, ',') == [t, " " + g]
    ensures GroupedSelection(t + ", " + g) == Ok(Some((g, a)))
  {
    hide IsName, Split, Trim, TrimMatches, AggregateSelection, HasParenthesis;
    L.NameIsWord(g);
    TrimTight(t);
    L.NameIsNoAggregate(g);
    L.NameIsSome(g);
  }

  lemma PairHasNames(s: string, g: string, t: string)
    requires IsName(g) && Split(s, ',') == [t, " " + g] && ',' in s && Trim(s) == s
    ensures FieldList(s) != []
  {
    hide IsName, Split, Trim, TrimMatches;
    L.NameIsWord(g);
    L.NameIsSome(g);
    var parts := [t, " " + g];
    assert parts[1..] == [" " + g] && parts[1..][1..] == [];
    assert NonEmptyNames(parts[1..]) == [g] + NonEmptyNames([]);
    assert ',' !in "*";
  }

  // --- conditions ---

  /** The six operators. */
  predicate IsOperator(o: string, op: ComparisonOp) {
    (o, op) in {("=", Eq), ("!=", NotEq), (">", Gt), (">=", Ge), ("<", Lt), ("<=", Le)}
  }

  /** A column, an operator and a literal, with a space on either side of the operator or none, and before them NOT
      or nothing. */
  lemma ConditionsMean(d: Decoder, not: string, t: string, field: string, u: string, o: string, op: ComparisonOp,
      v: string, literal: string)
    requires (not == "" || Spells(not, "NOT ")) && (u == "" || u == " ") && (v == "" || v == " ")
    requires IsOperator(o, op) && IsName(field) && (t == field || t == "`" + field + "`") && IsLiteral(d, literal)
    ensures ParseCondition(d, not + (t + u + o + (v + literal)))
            == Ok(Condition(field, op, not != "", Literal(d, literal).value))
  {
    hide Comparison, Trim, TrimMatches, Upper, Tight, Literal, Spells, IsLiteral, IsName, IsOperator;
    var s := t + u + o + (v + literal);
    ComparisonMeans(d, t, field, u, o, op, v, literal, not != "");
    TightAround(d, t, field, u, o, v, literal);
    TrimTight(s);
    if not == "" {
      assert not + s == s;
      FieldIsNotNot(t, field, u, o, op, v + literal);
    } else {
      NotIsRead(not, s);
    }
  }

  lemma ComparisonMeans(d: Decoder, t: string, field: string, u: string, o: string, op: ComparisonOp,
      v: string, literal: string, negated: bool)
    requires (u == "" || u == " ") && (v == "" || v == " ") && IsOperator(o, op)
    requires IsName(field) && (t == field || t == "`" + field + "`") && IsLiteral(d, literal)
    ensures Comparison(d, t + u + o + (v + literal), negated)
            == Ok(Condition(field, op, negated, Literal(d, literal).value))
  {
    assert IsLiteral(d, literal) ==> Literal(d, literal).Ok? && literal != "" by {
      hide Literal, IsKeyword, IsWhitespace;
    }
    hide *;
    ArgumentIsTrimmed(t, field);
    TightAround(d, t, field, u, o, v, literal);
    TrimsTo(t, u);
    LiteralIsTrimmed(d, v, literal);
    OperatorIsAt(d, t, field, u, o, op, v, literal);
    ComparisonUnfolds(d, t + u, field, o, op, v + literal, literal, negated);
  }

  lemma LiteralIsTrimmed(d: Decoder, v: string, literal: string)
    requires IsLiteral(d, literal) && (v == "" || v == " ")
    ensures Trim(v + literal) == literal
  {
    hide IsLiteral, Trim;
    W.LiteralIsWord(d, literal);
    assert v + literal == literal || v + literal == " " + literal;
  }

  lemma ComparisonUnfolds(d: Decoder, a: string, field: string, o: string, op: ComparisonOp, b: string,
      literal: string, negated: bool)
    requires FirstOperator(a + o + b, OPERATORS) == Some((|a|, o, op))
    requires TrimMatches(Trim(a), '`') == field && field != ""
    requires Trim(b) == literal && literal != "" && Literal(d, literal).Ok?
    ensures Comparison(d, a + o + b, negated) == Ok(Condition(field, op, negated, Literal(d, literal).value))
  {
    hide FirstOperator, TrimMatches, Trim, Literal;
    var s := a + o + b;
    assert s[..|a|] == a && s[|a| + |o|..] == b;
  }

  lemma OperatorIsAt(d: Decoder, t: string, field: string, u: string, o: string, op: ComparisonOp, v: string,
      literal: string)
    requires (u == "" || u == " ") && (v == "" || v == " ") && IsOperator(o, op)
    requires IsName(field) && (t == field || t == "`" + field + "`") && IsLiteral(d, literal)
    ensures FirstOperator(t + u + o + (v + literal), OPERATORS) == Some((|t + u|, o, op))
  {
    NoOperators(d, field, literal);
    hide *;
    OperatorIsAlone(o, op);
    SidesHaveNone(t, field, u);
    SidesHaveNone(literal, literal, v);
    OperatorIsBetween(t + u, o, op, v + literal);
  }

  lemma OperatorIsBetween(a: string, o: string, op: ComparisonOp, b: string)
    requires W.NoOperator(a) && W.NoOperator(b) && FirstOperator(o, OPERATORS) == Some((0, o, op))
    ensures FirstOperator(a + o + b, OPERATORS) == Some((|a|, o, op))
  {
    hide *;
    W.OperatorsAreOperators();
    W.OperatorInside(a, o, b, OPERATORS);
  }

  lemma NoOperators(d: Decoder, field: string, literal: string)
    requires IsName(field) && IsLiteral(d, literal)
    ensures forall i :: 0 <= i < |field| ==> !OperatorChar(field[i])
    ensures forall i :: 0 <= i < |literal| ==> !OperatorChar(literal[i])
  {
    hide IsKeyword, IsWhitespace, Literal;
  }

  lemma OperatorIsAlone(o: string, op: ComparisonOp)
    requires IsOperator(o, op)
    ensures FirstOperator(o, OPERATORS) == Some((0, o, op))
  {
    hide FirstOperator;
    W.OperatorAlone(op);
  }

  lemma SidesHaveNone(t: string, field: string, u: string)
    requires u == "" || u == " "
    requires t == field || t == "`" + field + "`"
    requires forall i :: 0 <= i < |field| ==> !OperatorChar(field[i])
    ensures W.NoOperator(t + u) && W.NoOperator(u + t)
  {
  }

  lemma TrimsTo(t: string, u: string)
    requires (u == "" || u == " ") && Tight(t)
    ensures Trim(t + u) == t
  {
    hide Trim;
    TrimTight(t);
    W.TrimEndDropsSpace(t);
    if u == "" { assert t + u == t; }
  }

  lemma TightAround(d: Decoder, t: string, field: string, u: string, o: string, v: string, literal: string)
    requires IsName(field) && (t == field || t == "`" + field + "`") && IsLiteral(d, literal)
    ensures Tight(t + u + o + (v + literal)) && Tight(t)
  {
    hide *;
    L.NameIsWord(field);
    W.LiteralIsWord(d, literal);
    NoBackquotes(field);
    R.QuotesAreTrimmed(field);
    TightEnds(t, u + o + v, literal);
    Regrouped(t, u, o, v, literal);
  }

  lemma Regrouped(t: string, u: string, o: string, v: string, literal: string)
    ensures t + (u + o + v) + literal == t + u + o + (v + literal)
  {
  }

  lemma TightEnds(a: string, b: string, c: string)
    requires Tight(a) && Tight(c)
    ensures Tight(a + b + c)
  {
    hide IsWhitespace;
    var s := a + b + c;
    assert s[0] == a[0] && s[|s| - 1] == c[|c| - 1];
  }

  lemma FieldIsNotNot(t: string, field: string, u: string, o: string, op: ComparisonOp, rest: string)
    requires IsName(field) && (t == field || t == "`" + field + "`") && (u == "" || u == " ") && IsOperator(o, op)
    ensures !("NOT " <= Upper(t + u + o + rest))
  {
    L.NameIsWord(field);
    NotANot(field);
    FirstCharacter(u, o, op, rest);
    assert t == field || t[0] == '`';
    hide *;
    NotIsNoStart(t, u + o + rest);
    Regroup(t, u, o, rest);
  }

  lemma FirstCharacter(u: string, o: string, op: ComparisonOp, rest: string)
    requires (u == "" || u == " ") && IsOperator(o, op)
    ensures u + o + rest != "" && (u + o + rest)[0] in {' ', '=', '!', '<', '>'}
  {
  }

  lemma Regroup(t: string, u: string, o: string, rest: string)
    ensures t + u + o + rest == t + (u + o + rest)
  {
  }

  lemma StartsWithNot(s: string)
    ensures "NOT " <= Upper(s) <==>
              |s| >= 4 && UpperChar(s[0]) == 'N' && UpperChar(s[1]) == 'O' && UpperChar(s[2]) == 'T' && s[3] == ' '
    ensures Upper(s) == "NOT" <==>
              |s| == 3 && UpperChar(s[0]) == 'N' && UpperChar(s[1]) == 'O' && UpperChar(s[2]) == 'T'
  {
    assert |s| >= 4 ==> Upper(s)[..4] == [UpperChar(s[0]), UpperChar(s[1]), UpperChar(s[2]), UpperChar(s[3])];
    assert |s| == 3 ==> Upper(s) == [UpperChar(s[0]), UpperChar(s[1]), UpperChar(s[2])];
  }

  lemma NotIsNoStart(t: string, more: string)
    requires t != "" && (t[0] == '`' || (' ' !in t && Upper(t) != "NOT"))
    requires more != "" && more[0] in {' ', '=', '!', '<', '>'}
    ensures !("NOT " <= Upper(t + more))
  {
    hide Upper;
    var s := t + more;
    StartsWithNot(s);
    StartsWithNot(t);
    assert s[0] == t[0];
    assert s[|t|] == more[0];
    if |t| > 3 { assert s[3] == t[3]; }
  }

  lemma NotANot(field: string)
    requires IsName(field)
    ensures Upper(field) != "NOT"
  {
    W.NotIsReserved();
  }

  lemma NotIsRead(not: string, s: string)
    requires Spells(not, "NOT ") && Tight(s)
    ensures "NOT " <= Upper(not + s) && Trim(not + s) == not + s && (not + s)[4..] == s
  {
    Begins(not, "NOT ", s);
    assert !IsWhitespace(not[0]);
    TrimTight(not + s);
  }

  // --- tables ---

  lemma {:induction false} PiecesAreSplit(parts: seq<string>)
    requires parts != [] && forall i :: 0 <= i < |parts| ==> IsTablePart(parts[i])
    ensures Split(Join(parts, "."), '.') == parts
    ensures forall c :: c in Join(parts, ".") ==> !IsWhitespace(c) && c != '`'
  {
    hide Split, IsWhitespace;
    assert !IsWhitespace('.') by { PointIsNoSpace(); }
    if |parts| == 1 {
      SplitWithout(parts[0], '.');
      assert parts == [parts[0]];
    } else {
      var rest := Join(parts[1..], ".");
      PiecesAreSplit(parts[1..]);
      SplitFirst(parts[0], '.', rest);
      assert Join(parts, ".") == parts[0] + ['.'] + rest;
      assert parts == [parts[0]] + parts[1..];
    }
  }

  lemma PointIsNoSpace()
    ensures !IsWhitespace('.')
  {
  }

  /** A name of one part, or of four or more, names no table. */
  lemma OtherNamesAreRefused(parts: seq<string>, project: string)
    requires parts != [] && |parts| !in {2, 3} && forall i :: 0 <= i < |parts| ==> IsTablePart(parts[i])
    ensures TableIdentifier(Join(parts, "."), project) == Err(BadTableName)
  {
    hide Split, Join, IsTablePart, Trim, TrimMatches, IsWhitespace;
    var name := Join(parts, ".");
    PiecesAreSplit(parts);
    if name == "" { NothingIsTrimmed(); } else { NameIsTrimmed(name); }
  }

  lemma NothingIsTrimmed()
    ensures Trim("") == "" && TrimMatches("", '`') == ""
  {
  }

  lemma NameIsTrimmed(name: string)
    requires name != "" && forall c :: c in name ==> !IsWhitespace(c) && c != '`'
    ensures Trim(name) == name && TrimMatches(name, '`') == name
  {
    TrimOfTight(name);
    assert forall i :: 0 <= i < |name| ==> name[i] in name;
    R.NothingToTrim(name);
  }

  // --- whatever is parsed ---

  predicate HasBounds(q: Query) {
    -1 <= q.limit && IsI64(q.limit) && 0 <= q.offset && IsI64(q.offset)
  }

  lemma ClauseKeepsBounds(d: Decoder, p: Parsing)
    requires HasBounds(p.query)
    ensures var r := Clause(d, p); r.Ok? ==> HasBounds(r.value.query)
  {
    hide NextToken, Trim, Upper, TrimMatches, ParseWhere, FirstMarker, ParseInt;
  }

  lemma {:induction false} ClausesKeepBounds(d: Decoder, p: Parsing)
    requires HasBounds(p.query)
    ensures Clauses(d, p).Ok? ==> HasBounds(Clauses(d, p).value)
    decreases |p.rest|
  {
    hide Clause, HasBounds;
    ClauseKeepsBounds(d, p);
    if p.rest != "" && Clause(d, p).Ok? { ClausesKeepBounds(d, Clause(d, p).value); }
  }

  /** Whatever text is parsed, a group is the one selected column beside an aggregate, and the window is one of
      64-bit integers that are not negative. */
  lemma ParsedQueriesAreSound(d: Decoder, text: string, project: string)
    requires ParseSelect(d, text, project).Ok?
    ensures var q := ParseSelect(d, text, project).value;
            && (q.groupBy != "" ==> q.aggregate.Some? && q.selected == [q.groupBy])
            && -1 <= q.limit <= 0x7fff_ffff_ffff_ffff && 0 <= q.offset <= 0x7fff_ffff_ffff_ffff
  {
    var head := Head(Trim(WithoutSemicolon(text)), project);
    assert HasBounds(head.value.query) by {
      hide Upper, Find, Trim, NextToken, TableIdentifier, SelectList;
    }
    hide Head, Clauses, Trim, WithoutSemicolon;
    ClausesKeepBounds(d, head.value);
  }

  // --- one of everything ---

  /** The text of a query with every clause. */
  function FullText(g: string, x: string, s: string, t: TableRef, a: Condition, b: Condition, c: Condition,
      limit: nat, offset: nat): string {
    "SELECT " + (g + ", " + ("SUM(" + x + ")" + (" AS " + s)))
    + " FROM " + ((t.project + "." + t.dataset + "." + t.table)
                  + (" WHERE " + FullCondition(a, b, c)
                     + (" GROUP BY " + g + (" ORDER BY " + g + " DESC" + (" LIMIT " + Text.Decimal(limit)
                                                                          + (" OFFSET " + Text.Decimal(offset)))))))
  }

  function FullCondition(a: Condition, b: Condition, c: Condition): string {
    (("NOT " + (a.field + " " + ">=" + " " + a.literal)) + " AND " + (b.field + " " + "<" + " " + b.literal))
    + " OR " + (c.field + " " + "!=" + " " + c.literal)
  }

  lemma FullGroups(a: Condition, b: Condition, c: Condition)
    requires a.negated && !b.negated && !c.negated && a.op == Ge && b.op == Lt && c.op == NotEq
    ensures PrintGroups([[a, b], [c]]) == FullCondition(a, b, c)
  {
    var groups := [[a, b], [c]];
    assert groups[1..] == [[c]] && [a, b][1..] == [b];
    assert PrintGroup([c]) == c.field + " " + "!=" + " " + c.literal;
    assert PrintGroup([b]) == b.field + " " + "<" + " " + b.literal;
    assert PrintGroup([a, b]) == PrintCondition(a) + " AND " + PrintGroup([b]);
    assert PrintGroups([[c]]) == PrintGroup([c]);
    assert PrintGroups(groups) == PrintGroup([a, b]) + " OR " + PrintGroups([[c]]);
  }

  /** The text with every clause is the query it looks like. */
  lemma EveryClause(d: Decoder, q: Query, x: string, s: string, a: Condition, b: Condition, c: Condition,
      project: string)
    requires a.negated && !b.negated && !c.negated && a.op == Ge && b.op == Lt && c.op == NotEq
    requires s != "" && q.offset > 0 && q.limit >= 0 && q.groupBy != ""
    requires Clean(d, q) && q == Query(q.source, [q.groupBy], Some(Aggregate(Sum, x, s)), [[a, b], [c]], q.groupBy,
                                       q.groupBy, true, q.limit, q.offset)
    ensures ParseSelect(d, FullText(q.groupBy, x, s, q.source, a, b, c, q.limit, q.offset) + ";", project)
            == Ok(Meant(d, q))
  {
    FullGroups(a, b, c);
    FullIsPrinted(q, x, s, a, b, c);
    hide *;
    R.PrintThenParse(d, q, project);
  }

  lemma FullIsPrinted(q: Query, x: string, s: string, a: Condition, b: Condition, c: Condition)
    requires s != "" && q.offset > 0 && q.limit >= 0 && q.groupBy != ""
    requires q == Query(q.source, [q.groupBy], Some(Aggregate(Sum, x, s)), [[a, b], [c]], q.groupBy, q.groupBy, true,
                        q.limit, q.offset)
    requires PrintGroups([[a, b], [c]]) == FullCondition(a, b, c)
    ensures Print(q) == FullText(q.groupBy, x, s, q.source, a, b, c, q.limit, q.offset)
  {
    hide PrintGroups, FullCondition, Text.Decimal;
    R.PrintIs(q);
    assert PrintList(q) == q.groupBy + ", " + ("SUM(" + x + ")" + (" AS " + s)) by {
      assert "SUM(" == "SUM" + "(";
    }
    R.WhereTailUnfolds(q);
    assert OffsetTail(q) == " OFFSET " + Text.Decimal(q.offset);
    assert LimitTail(q) == " LIMIT " + Text.Decimal(q.limit) + OffsetTail(q);
    assert OrderByTail(q) == " ORDER BY " + q.orderBy + " DESC" + LimitTail(q);
    assert GroupByTail(q) == " GROUP BY " + q.groupBy + OrderByTail(q);
    hide *;
  }
}
