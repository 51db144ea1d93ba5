/** A parsed query, the errors a query can end in, and its result. */
module SqlAst {
  import opened Common
  import opened JsonText
  import opened TableSchemas

  datatype AggregateFunction = Count | Sum | Avg | Min | Max

  datatype Aggregate = Aggregate(function_: AggregateFunction, field: string, alias: string)

  datatype ComparisonOp = Eq | NotEq | Gt | Ge | Lt | Le

  /** `literal` is the JSON text of the value compared with. */
  datatype Condition = Condition(field: string, op: ComparisonOp, negated: bool, literal: string)

  datatype TableRef = TableRef(project: string, dataset: string, table: string)

  /** `limit` is -1 without a LIMIT clause; `groups` are alternatives, each a list of conditions. */
  datatype Query = Query(
    source: TableRef,
    selected: seq<string>,
    aggregate: Option<Aggregate>,
    groups: seq<seq<Condition>>,
    groupBy: string,
    orderBy: string,
    orderDesc: bool,
    limit: int,
    offset: int)

  datatype QueryError =
    // parsing
    | Panicked | QueryRequired | OnlySelect | FromRequired | SelectListRequired | BadTableName
    | EmptyAlias | UnsupportedAggregate | AggregateNeedsField | TwoAggregates | UnsupportedGroupedExpression
    | WhereRequired | WhereNeedsComparison | WhereNeedsLiteral | InvalidString
    | GroupByNeedsField | OrderByNeedsField | OrderByWithAggregate | BadLimit | BadOffset | UnsupportedClause
    | GroupByNeedsAggregate | GroupByNotSelected
    // evaluating
    | NoSelectedField(name: string) | NoAggregateField(name: string) | NeedsField(fn: AggregateFunction)
    | NeedsNumeric(fn: AggregateFunction) | NonInteger | NonNumeric | OrderByNotGrouped
    // the catalog
    | TableNotFound(table: TableRef) | ViewWithoutQuery | LegacyView | ViewTooDeep
    // destinations
    | BadId | DatasetNotFound | BadCreateDisposition | BadWriteDisposition | DestinationNotEmpty
    | DestinationSchemaDiffers
    // jobs
    | LegacySql | JobExists

  /** `rows[i][j]`: the value of cell `j`. */
  datatype QueryResult = QueryResult(fields: seq<Field>, rows: seq<seq<Value>>)
}
