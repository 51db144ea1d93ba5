/** A query whose text ends in a semicolon of its own: parsed as it is, it loses that semicolon.  The parser
    puts no semicolon into a query that its text does not hold, so nothing else can make up for the loss. */
module SqlSemicolons {
  import opened Common
  import opened JsonDecoding
  import opened RustStr
  import opened SqlAst
  import opened SqlParser
  import opened SqlPrinter
  import opened SqlRoundTrip
  import opened Words
  import P = SqlParserPanics
  import Text

  /** How many semicolons a text holds. */
  function Semis(s: string): nat {
    multiset(s)[';']
  }

  function SemisOfAll(parts: seq<string>): nat {
    if parts == [] then 0 else Semis(parts[0]) + SemisOfAll(parts[1..])
  }

  function SemisOfGroup(g: seq<Condition>): nat {
    if g == [] then 0 else Semis(g[0].field) + Semis(g[0].literal) + SemisOfGroup(g[1..])
  }

  function SemisOfGroups(groups: seq<seq<Condition>>): nat {
    if groups == [] then 0 else SemisOfGroup(groups[0]) + SemisOfGroups(groups[1..])
  }

  /** Those in what the clauses of a query set. */
  function SemisOfClauses(q: Query): nat {
    SemisOfGroups(q.groups) + Semis(q.groupBy) + Semis(q.orderBy)
  }

  // --- parts of a text ---

  lemma SemisConcat(a: string, b: string)
    ensures Semis(a + b) == Semis(a) + Semis(b)
  {
  }

  lemma SemisOfPart(s: string, i: nat, j: nat)
    requires i <= j <= |s|
    ensures Semis(s[..i]) + Semis(s[i..j]) + Semis(s[j..]) == Semis(s)
  {
    assert s == s[..i] + s[i..j] + s[j..];
  }

  lemma TrimAddsNone(s: string)
    ensures Semis(Trim(s)) <= Semis(s)
  {
    hide Trim;
    var i, j := P.TrimIs(s);
    SemisOfPart(s, i, j);
  }

  lemma {:induction false} TrimMatchesAddsNone(s: string, c: char)
    ensures Semis(TrimMatches(s, c)) <= Semis(s)
  {
    if s != "" && s[0] == c {
      TrimMatchesAddsNone(s[1..], c);
      assert s == [s[0]] + s[1..];
    } else if s != "" && s[|s| - 1] == c {
      TrimMatchesAddsNone(s[..|s| - 1], c);
      assert s == s[..|s| - 1] + [s[|s| - 1]];
    }
  }

  /** A token and what follows it are two parts of the text. */
  lemma TokenAddsNone(s: string)
    ensures Semis(NextToken(s).0) + Semis(NextToken(s).1) <= Semis(s)
  {
    hide Trim, TokenEnd;
    var t := Trim(s);
    TrimAddsNone(s);
    var n := |NextToken(s).0|;
    SemisOfPart(t, n, |t|);
    TrimAddsNone(t[n..]);
    assert t[n..|t|] == t[n..];
  }

  // --- words ---

  lemma {:induction false} WordsHoldAll(s: string)
    ensures SemisOfAll(SplitWhitespace(s)) <= Semis(s)
  {
    if s != "" {
      WordsHoldAll(s[1..]);
      SemisOfPart(s, 1, |s|);
      assert s == [s[0]] + s[1..];
    }
  }

  function SemisOfSegments(segments: seq<seq<string>>): nat {
    if segments == [] then 0 else SemisOfAll(segments[0]) + SemisOfSegments(segments[1..])
  }

  lemma {:induction false} SegmentsAddNone(words: seq<string>, keyword: string)
    ensures SemisOfSegments(Segments(words, keyword)) <= SemisOfAll(words)
  {
    hide Upper;
    if words != [] {
      SegmentsAddNone(words[1..], keyword);
      var rest := Segments(words[1..], keyword);
      assert ([[]] + rest)[1..] == rest;
      assert ([[words[0]] + rest[0]] + rest[1..])[1..] == rest[1..];
      assert ([words[0]] + rest[0])[1..] == rest[0];
    }
  }

  lemma {:induction false} JoinAddsNone(words: seq<string>)
    ensures Semis(Join(words, " ")) <= SemisOfAll(words)
  {
    if |words| > 1 { JoinAddsNone(words[1..]); }
  }

  lemma {:induction false} JoinsAddNone(segments: seq<seq<string>>)
    ensures SemisOfAll(JoinEach(segments)) <= SemisOfSegments(segments)
  {
    if segments != [] {
      JoinAddsNone(segments[0]);
      JoinsAddNone(segments[1..]);
      assert JoinEach(segments)[1..] == JoinEach(segments[1..]);
    }
  }

  lemma SplitAddsNone(text: string, keyword: string)
    ensures SemisOfAll(SplitOnKeyword(text, keyword)) <= Semis(text)
  {
    hide Segments, SplitWhitespace, JoinEach, Semis;
    var words := SplitWhitespace(text);
    WordsHoldAll(text);
    SegmentsAddNone(words, keyword);
    JoinsAddNone(Segments(words, keyword));
  }

  // --- conditions ---

  lemma {:induction false} QuotingAddsNone(s: string)
    ensures Semis(QuoteBody(s)) <= Semis(s)
  {
    if s != "" {
      QuotingAddsNone(s[1..]);
      QuotedChar(s[0]);
      assert s == [s[0]] + s[1..];
    }
  }

  lemma QuotedChar(c: char)
    ensures Semis(QuoteChar(c)) <= Semis([c])
  {
    hide Semis;
    if c == ';' {
      assert QuoteChar(c) == [c];
    } else {
      QuotedOther(c);
      HasNone(QuoteChar(c));
    }
  }

  lemma HasNone(s: string)
    requires ';' !in s
    ensures Semis(s) == 0
  {
  }

  lemma QuotedOther(c: char)
    requires c != ';'
    ensures ';' !in QuoteChar(c)
  {
    if c as int < 32 || c == '<' || c == '>' || c == '&' {
      HexIsNoSemicolon(c as int / 16);
      HexIsNoSemicolon(c as int % 16);
    }
  }

  lemma HexIsNoSemicolon(n: nat)
    requires n < 16
    ensures HexDigit(n) != ';'
  {
  }

  lemma QuoteAddsNone(s: string)
    ensures Semis(Quote(s)) <= Semis(s)
  {
    hide QuoteBody, Semis;
    QuotingAddsNone(s);
    HasNone("\"");
    SemisConcat("\"", QuoteBody(s));
    SemisConcat("\"" + QuoteBody(s), "\"");
  }

  lemma LiteralAddsNone(d: Decoder, value: string)
    ensures Literal(d, value).Ok? ==> Semis(Literal(d, value).value) <= Semis(value)
  {
    hide Trim, TrimMatches, Quote, Upper, Semis;
    var t := Trim(value);
    TrimAddsNone(value);
    TrimMatchesAddsNone(t, '\'');
    QuoteAddsNone(TrimMatches(t, '\''));
    HasNone("true");
    HasNone("false");
    HasNone("null");
  }

  lemma ComparisonAddsNone(d: Decoder, text: string, negated: bool)
    ensures var c := Comparison(d, text, negated);
            c.Ok? ==> Semis(c.value.field) + Semis(c.value.literal) <= Semis(text)
  {
    hide Trim, TrimMatches, Literal, FirstOperator, Semis;
    var found := FirstOperator(text, OPERATORS);
    FirstOperatorOccurs(text, OPERATORS);
    if found.Some? {
      var (at, end) := (found.value.0, found.value.0 + |found.value.1|);
      SemisOfPart(text, at, end);
      TrimAddsNone(text[..at]);
      TrimMatchesAddsNone(Trim(text[..at]), '`');
      TrimAddsNone(text[end..]);
      LiteralAddsNone(d, Trim(text[end..]));
    }
  }

  lemma ConditionAddsNone(d: Decoder, text: string)
    ensures var c := ParseCondition(d, text);
            c.Ok? ==> Semis(c.value.field) + Semis(c.value.literal) <= Semis(text)
  {
    hide Trim, Upper, Comparison, Semis;
    var t := Trim(text);
    TrimAddsNone(text);
    if "NOT " <= Upper(t) {
      SemisOfPart(t, 4, |t|);
      assert t[4..|t|] == t[4..];
      TrimAddsNone(t[4..]);
      ComparisonAddsNone(d, Trim(t[4..]), true);
    } else {
      ComparisonAddsNone(d, t, false);
    }
  }

  lemma {:induction false} EachAddsNone(d: Decoder, parts: seq<string>)
    ensures ParseEach(d, parts).Ok? ==> SemisOfGroup(ParseEach(d, parts).value) <= SemisOfAll(parts)
  {
    hide ParseCondition, Semis;
    if parts != [] {
      ConditionAddsNone(d, parts[0]);
      EachAddsNone(d, parts[1..]);
    }
  }

  lemma ConditionsAddNone(d: Decoder, group: string)
    ensures ParseConditions(d, group).Ok? ==> SemisOfGroup(ParseConditions(d, group).value) <= Semis(group)
  {
    hide ParseEach, Semis, SplitOnKeyword;
    SplitAddsNone(group, "AND");
    EachAddsNone(d, SplitOnKeyword(group, "AND"));
  }

  lemma {:induction false} GroupsAddNone(d: Decoder, groups: seq<string>)
    ensures ParseGroups(d, groups).Ok? ==> SemisOfGroups(ParseGroups(d, groups).value) <= SemisOfAll(groups)
  {
    hide ParseConditions, Semis, SemisOfGroup;
    if groups != [] {
      ConditionsAddNone(d, groups[0]);
      GroupsAddNone(d, groups[1..]);
    }
  }

  lemma WhereAddsNone(d: Decoder, condition: string)
    ensures ParseWhere(d, condition).Ok? ==> SemisOfGroups(ParseWhere(d, condition).value) <= Semis(condition)
  {
    hide ParseGroups, Semis, SplitOnKeyword;
    SplitAddsNone(condition, "OR");
    GroupsAddNone(d, SplitOnKeyword(condition, "OR"));
  }

  // --- clauses ---

  /** The name and the rest that GROUP BY and ORDER BY take from a text. */
  lemma NameAddsNone(s: string, n: nat)
    requires n <= |s|
    ensures var (field, suffix) := NextToken(Trim(s[n..]));
            Semis(TrimMatches(field, '`')) + Semis(Trim(suffix)) <= Semis(s)
  {
    hide Trim, TrimMatches, NextToken, Semis;
    SemisOfPart(s, n, |s|);
    assert s[n..|s|] == s[n..];
    TrimAddsNone(s[n..]);
    var (field, suffix) := NextToken(Trim(s[n..]));
    TokenAddsNone(Trim(s[n..]));
    TrimMatchesAddsNone(field, '`');
    TrimAddsNone(suffix);
  }

  lemma DirectionAddsNone(p: Parsing)
    ensures Semis(Direction(p).rest) <= Semis(p.rest)
    ensures SemisOfClauses(Direction(p).query) == SemisOfClauses(p.query)
  {
    hide Trim, NextToken, Semis, Upper;
    TokenAddsNone(p.rest);
    TrimAddsNone(NextToken(p.rest).1);
  }

  lemma WhereClauseAddsNone(d: Decoder, p: Parsing)
    requires "WHERE " <= Upper(p.rest) && WhereClause(d, p).Ok?
    ensures var r := WhereClause(d, p).value;
            SemisOfClauses(r.query) + Semis(r.rest) <= SemisOfClauses(p.query) + Semis(p.rest)
  {
    hide Trim, ParseWhere, FirstMarker, Semis, Upper;
    var end := FirstMarker(Upper(p.rest), MARKERS);
    SemisOfPart(p.rest, 6, end);
    TrimAddsNone(p.rest[6..end]);
    TrimAddsNone(p.rest[end..]);
    WhereAddsNone(d, Trim(p.rest[6..end]));
  }

  lemma OrderByAddsNone(p: Parsing)
    requires "ORDER BY " <= Upper(p.rest) && OrderByClause(p).Ok?
    ensures var r := OrderByClause(p).value;
            SemisOfClauses(r.query) + Semis(r.rest) <= SemisOfClauses(p.query) + Semis(p.rest)
  {
    hide Trim, TrimMatches, NextToken, Semis, Upper, Direction;
    NameAddsNone(p.rest, 9);
    var (field, suffix) := NextToken(Trim(p.rest[9..]));
    DirectionAddsNone(Parsing(Trim(suffix), p.query.(orderBy := TrimMatches(field, '`'))));
  }

  lemma ClauseAddsNone(d: Decoder, p: Parsing)
    ensures var r := Clause(d, p);
            r.Ok? ==> SemisOfClauses(r.value.query) + Semis(r.value.rest) <= SemisOfClauses(p.query) + Semis(p.rest)
  {
    hide Trim, TrimMatches, NextToken, Semis, Upper, WhereClause, OrderByClause, ParseCount;
    var upper := Upper(p.rest);
    if Clause(d, p).Err? {
    } else if "WHERE " <= upper {
      WhereClauseAddsNone(d, p);
    } else if "GROUP BY " <= upper {
      NameAddsNone(p.rest, 9);
    } else if "ORDER BY " <= upper {
      OrderByAddsNone(p);
    } else if "LIMIT " <= upper {
      NameAddsNone(p.rest, 6);
    } else {
      NameAddsNone(p.rest, 7);
    }
  }

  /** The clauses put no semicolon into a query that their text does not hold. */
  lemma {:induction false} ClausesAddNone(d: Decoder, p: Parsing)
    ensures Clauses(d, p).Ok? ==>
              SemisOfClauses(Clauses(d, p).value) <= SemisOfClauses(p.query) + Semis(p.rest)
    decreases |p.rest|
  {
    hide Clause, SemisOfClauses, Semis;
    if p.rest != "" {
      ClauseAddsNone(d, p);
      if Clause(d, p).Ok? { ClausesAddNone(d, Clause(d, p).value); }
    }
  }

  // --- printing ---

  lemma {:induction false} DecimalHasNone(n: nat)
    ensures Semis(Text.Decimal(n)) == 0
  {
    if n >= 10 { DecimalHasNone(n / 10); }
  }

  lemma PrintedComparison(c: Condition)
    ensures Semis(PrintComparison(c)) == Semis(c.field) + Semis(c.literal)
  {
    hide Semis;
    var op := OperatorText(c.op);
    HasNone(op);
    HasNone(" ");
    SemisConcat(c.field, " ");
    SemisConcat(c.field + " ", op);
    SemisConcat(c.field + " " + op, " ");
    SemisConcat(c.field + " " + op + " ", c.literal);
  }

  lemma PrintedCondition(c: Condition)
    ensures Semis(PrintCondition(c)) == Semis(c.field) + Semis(c.literal)
  {
    hide Semis, PrintComparison;
    PrintedComparison(c);
    HasNone("NOT ");
    SemisConcat("NOT ", PrintComparison(c));
  }

  lemma {:induction false} PrintedGroup(g: seq<Condition>)
    ensures Semis(PrintGroup(g)) == SemisOfGroup(g)
  {
    hide PrintCondition;
    if g != [] {
      PrintedCondition(g[0]);
      PrintedGroup(g[1..]);
    }
  }

  lemma {:induction false} PrintedGroups(groups: seq<seq<Condition>>)
    ensures Semis(PrintGroups(groups)) == SemisOfGroups(groups)
  {
    hide PrintGroup;
    if groups != [] {
      PrintedGroup(groups[0]);
      PrintedGroups(groups[1..]);
    }
  }

  /** A keyword, if the clause is there, what it says, and the clauses after it. */
  lemma PrintedClause(keyword: string, value: string, tail: string)
    requires ';' !in keyword
    ensures Semis(keyword + value + tail) == Semis(value) + Semis(tail)
    ensures Semis(keyword + value) == Semis(value) && Semis("") == 0
    ensures "" + tail == tail
  {
    hide Semis;
    HasNone(keyword);
    HasNone("");
    SemisConcat(keyword, value);
    SemisConcat(keyword + value, tail);
  }

  lemma PrintedLimit(q: Query)
    ensures Semis(LimitTail(q)) == 0
  {
    hide Text.Decimal, Semis;
    if q.offset > 0 { DecimalHasNone(q.offset); }
    if q.limit >= 0 { DecimalHasNone(q.limit); }
    PrintedClause(" OFFSET ", if q.offset > 0 then Text.Decimal(q.offset) else "", "");
    PrintedClause(" LIMIT ", if q.limit >= 0 then Text.Decimal(q.limit) else "", OffsetTail(q));
  }

  lemma PrintedOrderBy(q: Query)
    ensures Semis(OrderByTail(q)) == Semis(q.orderBy)
  {
    hide LimitTail, Semis;
    PrintedLimit(q);
    var direction := if q.orderDesc then " DESC" else "";
    HasNone(direction);
    var text := " ORDER BY " + q.orderBy;
    SemisConcat(text, direction);
    SemisConcat(text + direction, LimitTail(q));
    PrintedClause(" ORDER BY ", q.orderBy, LimitTail(q));
    assert q.orderBy != "" ==> OrderByTail(q) == text + direction + LimitTail(q);
  }

  lemma PrintedGroupBy(q: Query)
    ensures Semis(GroupByTail(q)) == Semis(q.groupBy) + Semis(q.orderBy)
  {
    hide OrderByTail, Semis;
    PrintedOrderBy(q);
    PrintedClause(" GROUP BY ", q.groupBy, OrderByTail(q));
  }

  lemma PrintedTail(q: Query)
    ensures Semis(WhereTail(q)) == SemisOfClauses(q)
  {
    hide PrintGroups, GroupByTail, Semis;
    PrintedGroups(q.groups);
    PrintedGroupBy(q);
    PrintedClause(" WHERE ", PrintGroups(q.groups), GroupByTail(q));
  }

  // --- the theorem ---

  /** A tail without its last character and the white space before it. */
  function WithoutEnd(tail: string): string {
    if tail == "" then "" else TrimEnd(tail[..|tail| - 1])
  }

  lemma SemisOfPrefix(a: string, b: string)
    requires a <= b
    ensures Semis(a) <= Semis(b)
  {
    assert b == a + b[|a|..];
  }

  lemma SemisAfterSpace(tail: string)
    ensures Semis(AfterSpace(tail)) <= Semis(tail)
  {
    if tail != "" { assert tail == [tail[0]] + tail[1..]; }
  }

  lemma CutTail(tail: string)
    requires IsTail(tail) && EndsInSemicolon(tail)
    ensures IsTail(WithoutEnd(tail)) && Semis(AfterSpace(WithoutEnd(tail))) < Semis(tail)
  {
    hide Semis, TrimEnd, AfterSpace, IsTail;
    var cut := tail[..|tail| - 1];
    TrimmedTail(tail, |tail| - 1);
    TrimEndEnds(cut);
    assert tail == cut + ";";
    SemisConcat(cut, ";");
    assert Semis(";") == 1 by { OneSemi(); }
    SemisOfPrefix(TrimEnd(cut), cut);
    SemisAfterSpace(TrimEnd(cut));
  }

  lemma OneSemi()
    ensures Semis(";") == 1
  {
  }

  lemma TextWithoutEnd(list: string, table: string, tail: string)
    requires Tight("SELECT " + list + " FROM " + (table + "")) && EndsInSemicolon(tail)
    ensures Trim(WithoutSemicolon("SELECT " + list + " FROM " + (table + tail)))
            == "SELECT " + list + " FROM " + (table + WithoutEnd(tail))
  {
    hide Trim, TrimEnd, Tight;
    var (s, head) := ("SELECT " + list + " FROM " + (table + tail), "SELECT " + list + " FROM " + table);
    var cut := tail[..|tail| - 1];
    assert "SELECT " + list + " FROM " + (table + "") == head;
    assert s == head + tail && s[..|s| - 1] == head + cut;
    TrimAfter(head, cut);
    assert head + TrimEnd(cut) == "SELECT " + list + " FROM " + (table + TrimEnd(cut));
  }

  /** What is parsed of a query whose last clause ends in a semicolon. */
  lemma ParsedWithoutEnd(d: Decoder, q: Query, project: string)
    requires Clean(d, q) && EndsInSemicolon(WhereTail(q))
    ensures var p := Parsing(AfterSpace(WithoutEnd(WhereTail(q))), Started(q));
            ParseSelect(d, Print(q), project)
            == if Clauses(d, p).Err? then Clauses(d, p) else CheckGrouping(Clauses(d, p).value)
  {
    assert CleanRest(d, q) && CleanShape(q) && IsTablePart(q.source.project) && IsTablePart(q.source.dataset)
           && IsTablePart(q.source.table);
    hide *;
    var tail := WhereTail(q);
    WhereTailText(d, q);
    CutTail(tail);
    EmptyIsTail();
    HeadWithTail(q, "", project);
    HeadWithTail(q, WithoutEnd(tail), project);
    PrintIs(q);
    TextWithoutEnd(PrintList(q), PrintTable(q.source), tail);
    ParseSelectUnfolds(d, Print(q), project);
  }

  lemma EmptyIsTail()
    ensures IsTail("")
  {
  }

  lemma TailLosesSemicolon(d: Decoder, q: Query, project: string)
    requires Clean(d, q) && EndsInSemicolon(WhereTail(q))
    ensures ParseSelect(d, Print(q), project) != Ok(Meant(d, q))
  {
    assert CleanRest(d, q) && forall i :: 0 <= i < |q.groups| ==> CleanGroup(d, q.groups[i]);
    MeantClauses(d, q);
    hide *;
    WhereTailText(d, q);
    CutTail(WhereTail(q));
    PrintedTail(q);
    ParsedWithoutEnd(d, q, project);
    var p := Parsing(AfterSpace(WithoutEnd(WhereTail(q))), Started(q));
    ClausesAddNone(d, p);
    NoneAtFirst(q);
    if Clauses(d, p).Ok? { GroupingKeeps(Clauses(d, p).value); }
  }

  // --- a literal holds as many as its JSON text ---

  lemma {:induction false} TrimMatchesKeeps(s: string, c: char)
    requires c != ';'
    ensures Semis(TrimMatches(s, c)) == Semis(s)
  {
    if s != "" && s[0] == c {
      TrimMatchesKeeps(s[1..], c);
      assert s == [s[0]] + s[1..];
    } else if s != "" && s[|s| - 1] == c {
      TrimMatchesKeeps(s[..|s| - 1], c);
      assert s == s[..|s| - 1] + [s[|s| - 1]];
    }
  }

  lemma QuotedCharKeeps(c: char)
    ensures Semis(QuoteChar(c)) == Semis([c])
  {
    hide Semis;
    if c == ';' {
      assert QuoteChar(c) == [c];
    } else {
      QuotedOther(c);
      HasNone(QuoteChar(c));
      HasNone([c]);
    }
  }

  lemma {:induction false} QuotingKeeps(s: string)
    ensures Semis(Quote(s)) == Semis(s)
  {
    BodyKeeps(s);
    hide QuoteBody, Semis;
    HasNone("\"");
    SemisConcat("\"", QuoteBody(s));
    SemisConcat("\"" + QuoteBody(s), "\"");
  }

  lemma {:induction false} BodyKeeps(s: string)
    ensures Semis(QuoteBody(s)) == Semis(s)
  {
    if s != "" {
      BodyKeeps(s[1..]);
      QuotedCharKeeps(s[0]);
      assert s == [s[0]] + s[1..];
    }
  }

  lemma WordHasNone(s: string, word: string)
    requires Upper(s) == word && ';' !in word
    ensures Semis(s) == 0
  {
    hide Semis;
    assert forall i :: 0 <= i < |s| ==> UpperChar(s[i]) == word[i];
    HasNone(s);
  }

  lemma LiteralKeeps(d: Decoder, s: string)
    requires Literal(d, s).Ok? && Trim(s) == s
    ensures Semis(Literal(d, s).value) == Semis(s)
  {
    hide Trim, TrimMatches, Quote, Upper, Semis;
    TrimMatchesKeeps(s, '\'');
    QuotingKeeps(TrimMatches(s, '\''));
    HasNone("true");
    HasNone("false");
    HasNone("null");
    if Upper(s) == "TRUE" { WordHasNone(s, "TRUE"); }
    if Upper(s) == "FALSE" { WordHasNone(s, "FALSE"); }
    if Upper(s) == "NULL" { WordHasNone(s, "NULL"); }
  }

  lemma MeantKeeps(d: Decoder, c: Condition)
    requires CleanCondition(d, c)
    ensures MeantCondition(d, c).field == c.field && Semis(MeantCondition(d, c).literal) == Semis(c.literal)
  {
    hide Literal, Semis;
    TrimOfTight(c.literal);
    LiteralKeeps(d, c.literal);
  }

  lemma {:induction false} MeantGroupKeeps(d: Decoder, g: seq<Condition>)
    requires forall i :: 0 <= i < |g| ==> CleanCondition(d, g[i])
    ensures SemisOfGroup(MeantGroup(d, g)) == SemisOfGroup(g)
  {
    hide CleanCondition, MeantCondition, Semis;
    if g != [] {
      MeantKeeps(d, g[0]);
      MeantGroupKeeps(d, g[1..]);
      assert MeantGroup(d, g)[1..] == MeantGroup(d, g[1..]);
    }
  }

  lemma {:induction false} MeantGroupsKeep(d: Decoder, groups: seq<seq<Condition>>)
    requires forall i :: 0 <= i < |groups| ==> CleanGroup(d, groups[i])
    ensures SemisOfGroups(MeantGroups(d, groups)) == SemisOfGroups(groups)
  {
    hide CleanCondition, MeantGroup, SemisOfGroup;
    if groups != [] {
      MeantGroupKeeps(d, groups[0]);
      MeantGroupsKeep(d, groups[1..]);
      assert MeantGroups(d, groups)[1..] == MeantGroups(d, groups[1..]);
    }
  }

  lemma MeantClauses(d: Decoder, q: Query)
    requires forall i :: 0 <= i < |q.groups| ==> CleanGroup(d, q.groups[i])
    ensures SemisOfClauses(Meant(d, q)) == SemisOfClauses(q)
  {
    hide CleanGroup, MeantGroups, SemisOfGroups;
    MeantGroupsKeep(d, q.groups);
  }

  lemma NoneAtFirst(q: Query)
    ensures SemisOfClauses(Started(q)) == 0
  {
  }

  lemma GroupingKeeps(q: Query)
    ensures CheckGrouping(q).Ok? ==> CheckGrouping(q) == Ok(q)
  {
  }

  /** The same query on the table without the last character of its name. */
  function WithTable(q: Query, table: string): Query {
    q.(source := q.source.(table := table))
  }

  lemma TableLosesSemicolon(d: Decoder, q: Query, project: string)
    requires Clean(d, q) && WhereTail(q) == "" && EndsInSemicolon(Print(q))
    ensures q.source.table != ""
    ensures ParseSelect(d, Print(q), project) == Ok(WithTable(q, q.source.table[..|q.source.table| - 1]))
  {
    TableEndsText(q);
    var p := WithTable(q, q.source.table[..|q.source.table| - 1]);
    TableIsClean(d, q, q.source.table[..|q.source.table| - 1]);
    SameShape(q, q.source.table[..|q.source.table| - 1]);
    NoGroups(d, p);
    hide *;
    PrintThenParse(d, p, project);
  }

  lemma NoGroups(d: Decoder, q: Query)
    requires WhereTail(q) == ""
    ensures Meant(d, q) == q
  {
    assert q.groups != [] ==> |WhereTail(q)| >= 7;
    hide WhereTail;
    assert q.groups == [] ==> MeantGroups(d, q.groups) == q.groups;
  }

  lemma TableIsClean(d: Decoder, q: Query, table: string)
    requires Clean(d, q) && table <= q.source.table
    ensures Clean(d, WithTable(q, table))
  {
    hide CleanShape, IsName, CleanGroup;
    SameShape(q, table);
  }

  lemma SameShape(q: Query, table: string)
    ensures CleanShape(WithTable(q, table)) == CleanShape(q) && PrintList(WithTable(q, table)) == PrintList(q)
    ensures WhereTail(WithTable(q, table)) == WhereTail(q)
  {
    hide IsName, AllNames, CleanAggregate, PrintGroups, PrintAggregate;
    assert OffsetTail(WithTable(q, table)) == OffsetTail(q);
  }

  lemma TableEndsText(q: Query)
    requires WhereTail(q) == "" && EndsInSemicolon(Print(q))
    ensures q.source.table != ""
    ensures Print(q) == Print(WithTable(q, q.source.table[..|q.source.table| - 1])) + ";"
  {
    hide PrintList, WhereTail, PrintTable;
    var t := q.source.table;
    var head := "SELECT " + PrintList(q) + " FROM ";
    PrintedTable(q.source);
    var x := q.source.project + "." + q.source.dataset + ".";
    assert Print(q) == (head + x) + t;
    assert t != "";
    var cut := t[..|t| - 1];
    assert t == cut + ";";
    SameShape(q, cut);
    PrintedTable(q.source.(table := cut));
    assert Print(WithTable(q, cut)) == (head + x) + cut;
  }

  lemma PrintedTable(t: TableRef)
    ensures PrintTable(t) == (t.project + "." + t.dataset + ".") + t.table
  {
  }

  /** A clean query, written out and parsed as it is, is what it means exactly when its text does not end in a
      semicolon of its own. */
  lemma PrintThenParseExactly(d: Decoder, q: Query, project: string)
    requires Clean(d, q)
    ensures ParseSelect(d, Print(q), project) == Ok(Meant(d, q)) <==> !EndsInSemicolon(Print(q))
  {
    hide *;
    PrintThenParse(d, q, project);
    if EndsInSemicolon(Print(q)) {
      if WhereTail(q) == "" {
        TableLosesSemicolon(d, q, project);
        NoGroups(d, q);
        OtherTable(q);
      } else {
        TailEndsText(q);
        TailLosesSemicolon(d, q, project);
      }
    }
  }

  lemma OtherTable(q: Query)
    requires q.source.table != ""
    ensures WithTable(q, q.source.table[..|q.source.table| - 1]) != q
  {
  }

  lemma TailEndsText(q: Query)
    requires WhereTail(q) != ""
    ensures EndsInSemicolon(Print(q)) <==> EndsInSemicolon(WhereTail(q))
  {
    hide PrintList, PrintTable, WhereTail;
  }

  /** `SELECT a FROM p.d.t;` with the semicolon in the name of the table: the table is read as `t`. */
  lemma FinalSemicolonIsLost(d: Decoder, project: string)
    ensures var q := Query(TableRef("p", "d", "t;"), ["a"], None, [], "", "", false, -1, 0);
            Clean(d, q) && ParseSelect(d, Print(q), project) == Ok(q.(source := TableRef("p", "d", "t")))
  {
    var q := Query(TableRef("p", "d", "t;"), ["a"], None, [], "", "", false, -1, 0);
    assert q.source.table == "t" + ";" && q.source.table[..1] == "t";
    assert WithTable(q, "t") == q.(source := TableRef("p", "d", "t"));
    PlainQuery(d, q);
    hide *;
    TableIsLast(q, "t");
    TableLosesSemicolon(d, q, project);
  }

  lemma TableIsLast(q: Query, table: string)
    requires WhereTail(q) == "" && q.source.table == table + ";"
    ensures EndsInSemicolon(Print(q))
  {
    hide PrintList, WhereTail, PrintTable;
    PrintedTable(q.source);
    var head := "SELECT " + PrintList(q) + " FROM " + (q.source.project + "." + q.source.dataset + "." + table);
    assert Print(q) == head + ";";
  }

  lemma PlainQuery(d: Decoder, q: Query)
    requires q == Query(TableRef("p", "d", "t;"), ["a"], None, [], "", "", false, -1, 0)
    ensures Clean(d, q) && WhereTail(q) == ""
  {
    assert IsName("a");
    hide IsName, CleanGroup, PrintGroups;
  }
}
