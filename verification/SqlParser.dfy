/** The parser of the SQL subset, on the text of one query. */
module SqlParser {
  import opened Common
  import opened JsonDecoding
  import opened Numerals
  import opened RustStr
  import opened SqlAst
  import Utf8

  // --- tokens ---

  predicate EndsToken(c: char) {
    c == ' ' || c == '\t' || c == '\n' || c == '\r'
  }

  function TokenEnd(s: string): (n: nat)
    ensures n <= |s|
  {
    if s == "" || EndsToken(s[0]) then 0 else 1 + TokenEnd(s[1..])
  }

  /** `next_query_token`: a token, and what follows it without white space around it. */
  function NextToken(value: string): (r: (string, string))
    ensures |r.1| <= |value|
  {
    var v := Trim(value);
    TrimShortens(value);
    var close := if v != "" && v[0] == '`' then Find(v[1..], "`") else None;
    var end := if close.Some? then close.value + 2 else TokenEnd(v);
    TrimShortens(v[end..]);
    (v[..end], Trim(v[end..]))
  }

  lemma {:induction false} TrimStartShortens(s: string)
    ensures |TrimStart(s)| <= |s|
  {
    if s != "" && IsWhitespace(s[0]) { TrimStartShortens(s[1..]); }
  }

  lemma {:induction false} TrimEndShortens(s: string)
    ensures |TrimEnd(s)| <= |s|
  {
    if s != "" && IsWhitespace(s[|s| - 1]) { TrimEndShortens(s[..|s| - 1]); }
  }

  lemma TrimShortens(s: string)
    ensures |Trim(s)| <= |s|
  {
    TrimStartShortens(s);
    TrimEndShortens(TrimStart(s));
  }

  /** `parse_table_identifier`. */
  function TableIdentifier(text: string, project: string): Result<TableRef, QueryError> {
    var parts := Split(TrimMatches(Trim(text), '`'), '.');
    if |parts| == 2 then Ok(TableRef(DefaultString(project, "devcloud"), parts[0], parts[1]))
    else if |parts| == 3 then Ok(TableRef(parts[0], parts[1], parts[2]))
    else Err(BadTableName)
  }

  // --- the SELECT list ---

  function NonEmptyNames(parts: seq<string>): seq<string> {
    if parts == [] then []
    else
      var name := TrimMatches(Trim(parts[0]), '`');
      (if name == "" then [] else [name]) + NonEmptyNames(parts[1..])
  }

  /** `parse_selected_fields`. */
  function FieldList(selected: string): seq<string> {
    if Trim(selected) == "*" then ["*"] else NonEmptyNames(Split(selected, ','))
  }

  function FunctionName(fn: AggregateFunction): string {
    match fn
    case Count => "COUNT"
    case Sum => "SUM"
    case Avg => "AVG"
    case Min => "MIN"
    case Max => "MAX"
  }

  /** The function whose name and parenthesis begin an expression. */
  function FunctionOf(upper: string): (r: Option<AggregateFunction>)
    ensures r.Some? ==> FunctionName(r.value) + "(" <= upper
  {
    if "COUNT(" <= upper then Some(Count)
    else if "SUM(" <= upper then Some(Sum)
    else if "AVG(" <= upper then Some(Avg)
    else if "MIN(" <= upper then Some(Min)
    else if "MAX(" <= upper then Some(Max)
    else None
  }

  /** An expression and the alias after it: the markers ` AS ` and ` as ` only, the former first. */
  function WithoutAlias(expr: string): Result<(string, string), QueryError> {
    var marker := if Find(expr, " AS ").Some? then Find(expr, " AS ") else Find(expr, " as ");
    if marker.None? then Ok((expr, ""))
    else
      var alias := TrimMatches(Trim(expr[marker.value + 4..]), '`');
      if alias == "" then Err(EmptyAlias) else Ok((Trim(expr[..marker.value]), alias))
  }

  predicate HasParenthesis(s: string) {
    '(' in s || ')' in s
  }

  /** `parse_aggregate_selection`: `Ok(None)` when the expression is no aggregate. */
  function AggregateSelection(selected: string): Result<Option<Aggregate>, QueryError> {
    var expr := Trim(selected);
    if ',' in expr then Ok(None)
    else
      var parts := WithoutAlias(expr);
      if parts.Err? then Err(parts.error) else AggregateCall(parts.value.0, parts.value.1)
  }

  lemma ParenthesesDiffer(expr: string, name: string)
    requires name + "(" <= Upper(expr) && EndsWith(expr, ")")
    ensures |name| + 2 <= |expr|
  {
    assert Upper(expr)[|name|] == (name + "(")[|name|] == '(';
    assert expr[|expr| - 1] == expr[|expr| - 1..][0] == ')';
  }

  function AggregateCall(expr: string, alias: string): Result<Option<Aggregate>, QueryError> {
    var fn := FunctionOf(Upper(expr));
    if fn.None? || !EndsWith(expr, ")") then if HasParenthesis(expr) then Err(UnsupportedAggregate) else Ok(None)
    else
      ParenthesesDiffer(expr, FunctionName(fn.value));
      var field := TrimMatches(Trim(expr[|FunctionName(fn.value)| + 1..|expr| - 1]), '`');
      if field == "" then Err(AggregateNeedsField)
      else if field == "*" && fn.value != Count then Err(NeedsField(fn.value))
      else Ok(Some(Aggregate(fn.value, field, alias)))
  }

  /** `parse_grouped_aggregate_selection`: a field and an aggregate, in either order. */
  function GroupedSelection(selected: string): Result<Option<(string, Aggregate)>, QueryError> {
    var parts := Split(selected, ',');
    if |parts| != 2 then Ok(None)
    else
      var (left, right) := (Trim(parts[0]), Trim(parts[1]));
      var first := AggregateSelection(left);
      if first.Err? then Err(first.error)
      else if first.value.None? && HasParenthesis(left) then Err(UnsupportedGroupedExpression)
      else
        var second := AggregateSelection(right);
        if second.Err? then Err(second.error)
        else if second.value.Some? then
          if first.value.Some? then Err(TwoAggregates) else Ok(Grouping(left, second.value.value))
        else if HasParenthesis(right) then Err(UnsupportedGroupedExpression)
        else if first.value.Some? then Ok(Grouping(right, first.value.value))
        else Ok(None)
  }

  function Grouping(field: string, a: Aggregate): Option<(string, Aggregate)> {
    var name := TrimMatches(field, '`');
    if name == "" then None else Some((name, a))
  }

  /** The selected names and the aggregate of a SELECT list. */
  function SelectList(selected: string): Result<(seq<string>, Option<Aggregate>), QueryError> {
    if FieldList(selected) == [] then Err(SelectListRequired)
    else
      var a := AggregateSelection(selected);
      if a.Err? then Err(a.error)
      else if a.value.Some? then Ok(([], a.value))
      else
        var g := GroupedSelection(selected);
        if g.Err? then Err(g.error)
        else if g.value.Some? then Ok(([g.value.value.0], Some(g.value.value.1)))
        else Ok((FieldList(selected), None))
  }

  // --- WHERE ---

  /** The pieces of a list between the words that are `keyword`, always at least one. */
  function Segments(words: seq<string>, keyword: string): (r: seq<seq<string>>)
    ensures r != []
  {
    if words == [] then [[]]
    else
      var rest := Segments(words[1..], keyword);
      if EqIgnoreAsciiCase(words[0], keyword) then [[]] + rest else [[words[0]] + rest[0]] + rest[1..]
  }

  function JoinEach(segments: seq<seq<string>>): (r: seq<string>)
    ensures |r| == |segments|
  {
    seq(|segments|, i requires 0 <= i < |segments| => Join(segments[i], " "))
  }

  /** `split_on_keyword`: nothing when a piece is empty. */
  function SplitOnKeyword(condition: string, keyword: string): seq<string> {
    var segments := Segments(SplitWhitespace(condition), keyword);
    if [] in segments then [] else JoinEach(segments)
  }

  /** `raw_json_literal`: the JSON text of a literal. */
  function Literal(d: Decoder, value: string): Result<string, QueryError> {
    var t := Trim(value);
    if |t| >= 2 && t[0] == '\'' && t[|t| - 1] == '\'' then Ok(Quote(TrimMatches(t, '\'')))
    else if t != "" && t[0] == '"' && t[|t| - 1] == '"' then
      if d.asString(Utf8.Encode(t)).Some? then Ok(t) else Err(InvalidString)
    else if Upper(t) == "TRUE" then Ok("true")
    else if Upper(t) == "FALSE" then Ok("false")
    else if Upper(t) == "NULL" then Ok("null")
    else if d.first(Utf8.Encode(t)).Some? then Ok(t)
    else Err(WhereNeedsLiteral)
  }

  function HexDigit(n: nat): char
    requires n < 16
  {
    if n < 10 then '0' + n as char else 'a' + (n - 10) as char
  }

  /** One character inside the JSON string that `marshal` writes. */
  function QuoteChar(c: char): string {
    if c == '"' then "\\\""
    else if c == '\\' then "\\\\"
    else if c as int == 8 then "\\b"
    else if c == '\t' then "\\t"
    else if c == '\n' then "\\n"
    else if c as int == 12 then "\\f"
    else if c == '\r' then "\\r"
    else if c as int < 32 || c == '<' || c == '>' || c == '&' then
      "\\u00" + [HexDigit(c as int / 16), HexDigit(c as int % 16)]
    else if c as int == 0x2028 then "\\u2028"
    else if c as int == 0x2029 then "\\u2029"
    else [c]
  }

  function QuoteBody(s: string): string {
    if s == "" then "" else QuoteChar(s[0]) + QuoteBody(s[1..])
  }

  /** `marshal` of a string. */
  function Quote(s: string): string {
    "\"" + QuoteBody(s) + "\""
  }

  const OPERATORS: seq<(string, ComparisonOp)> :=
    [(">=", Ge), ("<=", Le), ("!=", NotEq), ("=", Eq), (">", Gt), ("<", Lt)]

  /** The first operator of the list that occurs, and where. */
  function FirstOperator(text: string, ops: seq<(string, ComparisonOp)>): Option<(nat, string, ComparisonOp)> {
    if ops == [] then None
    else if Find(text, ops[0].0).Some? then Some((Find(text, ops[0].0).value, ops[0].0, ops[0].1))
    else FirstOperator(text, ops[1..])
  }

  lemma {:induction false} FirstOperatorOccurs(text: string, ops: seq<(string, ComparisonOp)>)
    ensures var r := FirstOperator(text, ops); r.Some? ==> OccursAt(text, r.value.1, r.value.0)
  {
    if ops != [] { FirstOperatorOccurs(text, ops[1..]); }
  }

  /** `parse_simple_condition`. */
  function ParseCondition(d: Decoder, condition: string): Result<Condition, QueryError> {
    var text := Trim(condition);
    var negated := "NOT " <= Upper(text);
    Comparison(d, if negated then Trim(text[4..]) else text, negated)
  }

  function Comparison(d: Decoder, text: string, negated: bool): Result<Condition, QueryError> {
    var found := FirstOperator(text, OPERATORS);
    FirstOperatorOccurs(text, OPERATORS);
    if found.None? then Err(WhereNeedsComparison)
    else
      var (at, op) := (found.value.0, found.value.1);
      var (field, value) := (TrimMatches(Trim(text[..at]), '`'), Trim(text[at + |op|..]));
      if field == "" || value == "" then Err(WhereNeedsLiteral)
      else
        var literal := Literal(d, value);
        if literal.Err? then Err(literal.error) else Ok(Condition(field, found.value.2, negated, literal.value))
  }

  function ParseEach(d: Decoder, parts: seq<string>): Result<seq<Condition>, QueryError> {
    if parts == [] then Ok([])
    else
      var c := ParseCondition(d, parts[0]);
      if c.Err? then Err(c.error)
      else
        var rest := ParseEach(d, parts[1..]);
        if rest.Err? then rest else Ok([c.value] + rest.value)
  }

  /** `parse_simple_conditions`. */
  function ParseConditions(d: Decoder, group: string): Result<seq<Condition>, QueryError> {
    var parts := SplitOnKeyword(group, "AND");
    if parts == [] then Err(WhereRequired) else ParseEach(d, parts)
  }

  function ParseGroups(d: Decoder, groups: seq<string>): Result<seq<seq<Condition>>, QueryError> {
    if groups == [] then Ok([])
    else
      var g := ParseConditions(d, groups[0]);
      if g.Err? then Err(g.error)
      else
        var rest := ParseGroups(d, groups[1..]);
        if rest.Err? then rest else Ok([g.value] + rest.value)
  }

  /** `parse_simple_condition_groups`. */
  function ParseWhere(d: Decoder, condition: string): Result<seq<seq<Condition>>, QueryError> {
    var groups := SplitOnKeyword(condition, "OR");
    if groups == [] then Err(WhereRequired) else ParseGroups(d, groups)
  }

  // --- clauses ---

  /** What is left to parse, and the query so far. */
  datatype Parsing = Parsing(rest: string, query: Query)

  const MARKERS: seq<string> := [" GROUP BY ", " ORDER BY ", " LIMIT ", " OFFSET "]

  /** Where the first marker of the list occurs, or the end. */
  function FirstMarker(upper: string, markers: seq<string>): (n: nat)
    ensures n <= |upper|
  {
    if markers == [] then |upper|
    else
      var (here, rest) := (Find(upper, markers[0]), FirstMarker(upper, markers[1..]));
      if here.Some? && here.value < rest then here.value else rest
  }

  function WhereClause(d: Decoder, p: Parsing): (r: Result<Parsing, QueryError>)
    requires "WHERE " <= Upper(p.rest)
    ensures r.Ok? ==> |r.value.rest| < |p.rest|
  {
    var end := FirstMarker(Upper(p.rest), MARKERS);
    if end < 6 then Err(Panicked)
    else
      var groups := ParseWhere(d, Trim(p.rest[6..end]));
      TrimShortens(p.rest[end..]);
      if groups.Err? then Err(groups.error) else Ok(Parsing(Trim(p.rest[end..]), p.query.(groups := groups.value)))
  }

  function GroupByClause(p: Parsing): (r: Result<Parsing, QueryError>)
    requires "GROUP BY " <= Upper(p.rest)
    ensures r.Ok? ==> |r.value.rest| < |p.rest|
  {
    TrimShortens(p.rest[9..]);
    var (field, suffix) := NextToken(Trim(p.rest[9..]));
    TrimShortens(suffix);
    if field == "" then Err(GroupByNeedsField)
    else Ok(Parsing(Trim(suffix), p.query.(groupBy := TrimMatches(field, '`'))))
  }

  function OrderByClause(p: Parsing): (r: Result<Parsing, QueryError>)
    requires "ORDER BY " <= Upper(p.rest)
    ensures r.Ok? ==> |r.value.rest| < |p.rest|
  {
    if p.query.aggregate.Some? && p.query.groupBy == "" then Err(OrderByWithAggregate)
    else
      TrimShortens(p.rest[9..]);
      var (field, suffix) := NextToken(Trim(p.rest[9..]));
      TrimShortens(suffix);
      if field == "" then Err(OrderByNeedsField)
      else Ok(Direction(Parsing(Trim(suffix), p.query.(orderBy := TrimMatches(field, '`')))))
  }

  function Direction(p: Parsing): (r: Parsing)
    ensures |r.rest| <= |p.rest|
  {
    var (word, suffix) := NextToken(p.rest);
    TrimShortens(suffix);
    if Upper(word) == "ASC" then Parsing(Trim(suffix), p.query)
    else if Upper(word) == "DESC" then Parsing(Trim(suffix), p.query.(orderDesc := true))
    else p
  }

  /** `parse::<i64>`, when the result is not negative. */
  function ParseCount(word: string): Option<int> {
    var n := ParseI64(Utf8.Encode(word));
    if n.Some? && n.value >= 0 then n else None
  }

  function LimitClause(p: Parsing): (r: Result<Parsing, QueryError>)
    requires "LIMIT " <= Upper(p.rest)
    ensures r.Ok? ==> |r.value.rest| < |p.rest|
  {
    TrimShortens(p.rest[6..]);
    var (word, suffix) := NextToken(Trim(p.rest[6..]));
    TrimShortens(suffix);
    if ParseCount(word).None? then Err(BadLimit)
    else Ok(Parsing(Trim(suffix), p.query.(limit := ParseCount(word).value)))
  }

  function OffsetClause(p: Parsing): (r: Result<Parsing, QueryError>)
    requires "OFFSET " <= Upper(p.rest)
    ensures r.Ok? ==> |r.value.rest| < |p.rest|
  {
    TrimShortens(p.rest[7..]);
    var (word, suffix) := NextToken(Trim(p.rest[7..]));
    TrimShortens(suffix);
    if ParseCount(word).None? then Err(BadOffset)
    else Ok(Parsing(Trim(suffix), p.query.(offset := ParseCount(word).value)))
  }

  function Clause(d: Decoder, p: Parsing): (r: Result<Parsing, QueryError>)
    ensures r.Ok? ==> |r.value.rest| < |p.rest|
  {
    var upper := Upper(p.rest);
    if "WHERE " <= upper then WhereClause(d, p)
    else if "GROUP BY " <= upper then GroupByClause(p)
    else if "ORDER BY " <= upper then OrderByClause(p)
    else if "LIMIT " <= upper then LimitClause(p)
    else if "OFFSET " <= upper then OffsetClause(p)
    else Err(UnsupportedClause)
  }

  function Clauses(d: Decoder, p: Parsing): Result<Query, QueryError>
    decreases |p.rest|
  {
    if p.rest == "" then Ok(p.query)
    else
      var next := Clause(d, p);
      if next.Err? then Err(next.error) else Clauses(d, next.value)
  }

  // --- the whole query ---

  function CheckGrouping(q: Query): Result<Query, QueryError> {
    if q.groupBy != "" && q.aggregate.None? then Err(GroupByNeedsAggregate)
    else if q.groupBy != "" && q.selected != [q.groupBy] then Err(GroupByNotSelected)
    else Ok(q)
  }

  function WithoutSemicolon(raw: string): string {
    if raw != "" && raw[|raw| - 1] == ';' then raw[..|raw| - 1] else raw
  }

  /** Everything up to the clauses. */
  function Head(query: string, project: string): Result<Parsing, QueryError> {
    var upper := Upper(query);
    if query == "" then Err(QueryRequired)
    else if !("SELECT " <= upper) then Err(OnlySelect)
    else if Find(upper, " FROM ").None? then Err(FromRequired)
    else
      var from := Find(upper, " FROM ").value;
      if from < 7 then Err(Panicked)
      else if Trim(query[7..from]) == "" then Err(SelectListRequired)
      else
        var (table, rest) := NextToken(Trim(query[from + 6..]));
        var (source, list) := (TableIdentifier(table, project), SelectList(Trim(query[7..from])));
        if source.Err? then Err(source.error)
        else if list.Err? then Err(list.error)
        else Ok(Parsing(Trim(rest), Query(source.value, list.value.0, list.value.1, [], "", "", false, -1, 0)))
  }

  /** `parse_simple_select`. */
  function ParseSelect(d: Decoder, raw: string, project: string): Result<Query, QueryError> {
    var head := Head(Trim(WithoutSemicolon(raw)), project);
    if head.Err? then Err(head.error)
    else
      var q := Clauses(d, head.value);
      if q.Err? then q else CheckGrouping(q.value)
  }

  // --- the loops ---

  /** `parse_simple_select`, with its loop over the clauses. */
  method ParseSimpleSelect(d: Decoder, rawQuery: string, defaultProject: string) returns (r: Result<Query, QueryError>)
    ensures r == ParseSelect(d, rawQuery, defaultProject)
  {
    hide Head, WhereClause, GroupByClause, OrderByClause, LimitClause, OffsetClause, CheckGrouping, Upper;
    var head := Head(Trim(WithoutSemicolon(rawQuery)), defaultProject);
    if head.Err? { return Err(head.error); }
    var p := head.value;
    while p.rest != ""
      invariant Clauses(d, p) == Clauses(d, head.value)
      decreases |p.rest|
    {
      var upper := Upper(p.rest);
      var next: Result<Parsing, QueryError> := Err(UnsupportedClause);
      if "WHERE " <= upper {
        next := WhereClause(d, p);
      } else if "GROUP BY " <= upper {
        next := GroupByClause(p);
      } else if "ORDER BY " <= upper {
        next := OrderByClause(p);
      } else if "LIMIT " <= upper {
        next := LimitClause(p);
      } else if "OFFSET " <= upper {
        next := OffsetClause(p);
      }
      assert next == Clause(d, p);
      if next.Err? { return Err(next.error); }
      p := next.value;
    }
    return CheckGrouping(p.query);
  }

  /** Puts words in front of the first segment. */
  function Prepend(words: seq<string>, segments: seq<seq<string>>): seq<seq<string>>
    requires segments != []
  {
    [words + segments[0]] + segments[1..]
  }

  /** `split_on_keyword`, with its loop over the words. */
  method SplitWords(condition: string, keyword: string) returns (groups: seq<string>)
    ensures groups == SplitOnKeyword(condition, keyword)
  {
    hide SplitWhitespace, EqIgnoreAsciiCase, Join, JoinEach, Prepend;
    var parts := SplitWhitespace(condition);
    if parts == [] { return []; }
    ghost var done: seq<seq<string>> := [];
    var current: seq<string> := [];
    groups := [];
    PrependNothing(Segments(parts, keyword));
    for i := 0 to |parts|
      invariant [] !in done && groups == JoinEach(done)
      invariant Segments(parts, keyword) == done + Prepend(current, Segments(parts[i..], keyword))
    {
      assert parts[i..][1..] == parts[i + 1..];
      if EqIgnoreAsciiCase(parts[i], keyword) {
        StartSegment(done, current, Segments(parts[i + 1..], keyword));
        if current == [] { return []; }
        JoinOneMore(done, current);
        groups := groups + [Join(current, " ")];
        done := done + [current];
        current := [];
      } else {
        GrowSegment(current, parts[i], Segments(parts[i + 1..], keyword));
        current := current + [parts[i]];
      }
    }
    assert parts[|parts|..] == [];
    PrependToEmpty(current);
    if current == [] { return []; }
    JoinOneMore(done, current);
    groups := groups + [Join(current, " ")];
  }

  lemma PrependNothing(segments: seq<seq<string>>)
    requires segments != []
    ensures [] + Prepend([], segments) == segments && JoinEach([]) == []
  {
    assert [] + segments[0] == segments[0];
  }

  lemma PrependToEmpty(current: seq<string>)
    ensures Prepend(current, [[]]) == [current]
  {
    assert current + [] == current;
  }

  lemma JoinOneMore(done: seq<seq<string>>, current: seq<string>)
    ensures JoinEach(done + [current]) == JoinEach(done) + [Join(current, " ")]
  {
    hide Join;
  }

  lemma StartSegment(done: seq<seq<string>>, current: seq<string>, rest: seq<seq<string>>)
    requires rest != []
    ensures done + Prepend(current, [[]] + rest) == (done + [current]) + Prepend([], rest)
    ensures current == [] ==> [] in done + Prepend(current, [[]] + rest)
  {
    assert current + [] == current && [] + rest[0] == rest[0];
    if current == [] { assert (done + Prepend(current, [[]] + rest))[|done|] == []; }
  }

  lemma GrowSegment(current: seq<string>, word: string, rest: seq<seq<string>>)
    requires rest != []
    ensures Prepend(current, [[word] + rest[0]] + rest[1..]) == Prepend(current + [word], rest)
  {
    assert current + ([word] + rest[0]) == (current + [word]) + rest[0];
  }
}
