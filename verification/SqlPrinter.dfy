/** Queries written out as SQL text. */
module SqlPrinter {
  import opened Common
  import opened JsonDecoding
  import opened Numerals
  import opened RustStr
  import opened SqlAst
  import SqlParser
  import Text

  predicate IsReserved(upper: string) {
    upper in {
      "SELECT", "FROM", "WHERE", "GROUP", "BY", "ORDER", "LIMIT", "OFFSET", "AND", "OR", "NOT", "AS", "ASC", "DESC"
    }
  }

  predicate IsKeyword(s: string) {
    IsReserved(Upper(s))
  }

  // --- which queries can be written ---

  predicate PlainChar(c: char) {
    !IsWhitespace(c) && c != '`' && c != ',' && c != '(' && c != ')'
    && c != '<' && c != '>' && c != '=' && c != '!'
  }

  /** A column name that needs no quoting. */
  predicate IsName(s: string) {
    s != "" && !IsKeyword(s) && forall i :: 0 <= i < |s| ==> PlainChar(s[i])
  }

  predicate AllNames(names: seq<string>) {
    forall i :: 0 <= i < |names| ==> IsName(names[i])
  }

  /** One of the three parts of a table's name. */
  predicate IsTablePart(s: string) {
    forall i :: 0 <= i < |s| ==> !IsWhitespace(s[i]) && s[i] != '`' && s[i] != '.'
  }

  predicate OperatorChar(c: char) {
    c == '<' || c == '>' || c == '=' || c == '!'
  }

  /** A literal in any form, with no white space and no operator character. */
  predicate IsLiteral(d: Decoder, s: string) {
    && s != "" && !IsKeyword(s) && SqlParser.Literal(d, s).Ok?
    && forall i :: 0 <= i < |s| ==> !IsWhitespace(s[i]) && !OperatorChar(s[i])
  }

  predicate CleanCondition(d: Decoder, c: Condition) {
    IsName(c.field) && IsLiteral(d, c.literal)
  }

  predicate CleanGroup(d: Decoder, g: seq<Condition>) {
    g != [] && forall i :: 0 <= i < |g| ==> CleanCondition(d, g[i])
  }

  predicate CleanAggregate(a: Aggregate) {
    IsName(a.field) && (a.alias == "" || IsName(a.alias)) && (a.field == "*" ==> a.function_ == Count)
  }

  /** The shapes of a query: plain, an aggregate, or a field and an aggregate, grouped or not. */
  predicate CleanShape(q: Query) {
    if q.aggregate.None? then q.selected != [] && AllNames(q.selected) && q.groupBy == ""
    else
      && CleanAggregate(q.aggregate.value)
      && |q.selected| <= 1 && AllNames(q.selected)
      && (q.groupBy != "" ==> q.selected == [q.groupBy])
      && (q.groupBy == "" ==> q.orderBy == "")
  }

  predicate Clean(d: Decoder, q: Query) {
    && IsTablePart(q.source.project) && IsTablePart(q.source.dataset) && IsTablePart(q.source.table)
    && CleanRest(d, q)
  }

  /** All but the table. */
  predicate CleanRest(d: Decoder, q: Query) {
    && CleanShape(q)
    && (forall i :: 0 <= i < |q.groups| ==> CleanGroup(d, q.groups[i]))
    && (q.orderBy == "" || IsName(q.orderBy))
    && (q.orderBy == "" ==> !q.orderDesc)
    && -1 <= q.limit && IsI64(q.limit) && 0 <= q.offset && IsI64(q.offset)
  }

  // --- what a written literal means ---

  /** A condition whose literal is the JSON text of what was written. */
  function MeantCondition(d: Decoder, c: Condition): Condition {
    var literal := SqlParser.Literal(d, c.literal);
    if literal.Ok? then c.(literal := literal.value) else c
  }

  function MeantGroup(d: Decoder, g: seq<Condition>): (r: seq<Condition>)
    ensures |r| == |g| && forall i :: 0 <= i < |r| ==> r[i] == MeantCondition(d, g[i])
  {
    seq(|g|, i requires 0 <= i < |g| => MeantCondition(d, g[i]))
  }

  function MeantGroups(d: Decoder, groups: seq<seq<Condition>>): (r: seq<seq<Condition>>)
    ensures |r| == |groups| && forall i :: 0 <= i < |r| ==> r[i] == MeantGroup(d, groups[i])
  {
    seq(|groups|, i requires 0 <= i < |groups| => MeantGroup(d, groups[i]))
  }

  /** The query that is meant when this one, with literals as they are written, is written out. */
  function Meant(d: Decoder, q: Query): Query {
    q.(groups := MeantGroups(d, q.groups))
  }

  // --- writing ---

  function PrintAggregate(a: Aggregate): string {
    SqlParser.FunctionName(a.function_) + "(" + a.field + ")" + (if a.alias == "" then "" else " AS " + a.alias)
  }

  function PrintList(q: Query): string {
    if q.aggregate.None? then Join(q.selected, ", ")
    else (if q.selected == [] then "" else q.selected[0] + ", ") + PrintAggregate(q.aggregate.value)
  }

  function PrintTable(t: TableRef): string {
    t.project + "." + t.dataset + "." + t.table
  }

  function OperatorText(op: ComparisonOp): string {
    match op
    case Eq => "="
    case NotEq => "!="
    case Gt => ">"
    case Ge => ">="
    case Lt => "<"
    case Le => "<="
  }

  function PrintComparison(c: Condition): string {
    c.field + " " + OperatorText(c.op) + " " + c.literal
  }

  function PrintCondition(c: Condition): string {
    if c.negated then "NOT " + PrintComparison(c) else PrintComparison(c)
  }

  function PrintGroup(g: seq<Condition>): string {
    if g == [] then ""
    else if |g| == 1 then PrintCondition(g[0])
    else PrintCondition(g[0]) + " AND " + PrintGroup(g[1..])
  }

  function PrintGroups(groups: seq<seq<Condition>>): string {
    if groups == [] then ""
    else if |groups| == 1 then PrintGroup(groups[0])
    else PrintGroup(groups[0]) + " OR " + PrintGroups(groups[1..])
  }

  // Each clause with the clauses after it, a space before each.

  function OffsetTail(q: Query): string {
    if q.offset <= 0 then "" else " OFFSET " + Text.Decimal(q.offset)
  }

  function LimitTail(q: Query): string {
    (if q.limit < 0 then "" else " LIMIT " + Text.Decimal(q.limit)) + OffsetTail(q)
  }

  function OrderByTail(q: Query): string {
    (if q.orderBy == "" then "" else " ORDER BY " + q.orderBy + (if q.orderDesc then " DESC" else "")) + LimitTail(q)
  }

  function GroupByTail(q: Query): string {
    (if q.groupBy == "" then "" else " GROUP BY " + q.groupBy) + OrderByTail(q)
  }

  function WhereTail(q: Query): string {
    (if q.groups == [] then "" else " WHERE " + PrintGroups(q.groups)) + GroupByTail(q)
  }

  function Print(q: Query): string {
    "SELECT " + PrintList(q) + " FROM " + PrintTable(q.source) + WhereTail(q)
  }
}
