# Verified models of the emulator's hard parts

A local cloud emulator answers the APIs of several services from files on disk. This project models, in
Dafny, the parts of it whose correctness is not visible from one function: the BigQuery query engine, row
store and wire framing, the Cloud Run body reader, calendar and timestamp arithmetic, the Application Auto
Scaling store, and the small parsers beside them. `dafny verify dfyconfig.toml` checks everything.

## How it is organised

One module per component; a specification function per operation, the loop or the state change as a method
proved equal to it, and the laws of the specification as lemmas.

- **Framing.** `NetStream` is a stream whose reads may cut anywhere. `ChunkedBigQuery` and `ChunkedCloudRun`
  hold the two readers for the chunked coding of section 7.1 of RFC 9112, each with its own decoder as
  specification; `ChunkGrammar` is the coding itself, `ChunkedBigQueryProofs` and `ChunkedCloudRunProofs` say
  exactly which wires each reader accepts, `ChunkedBigQueryRefusals` and `ChunkedCloudRunRefusals` which it
  refuses and with which error, `LenientSizes` which sizes Cloud Run reads, and `ChunkedAgreement` relates the two
  readers and their budgets.
- **Dates.** `Calendar` (days and dates, in the truncating and the Euclidean form), `Timestamp` (the text of an
  instant and the key that sorts it) and `TimestampReader` (RFC 3339 read back).
- **Row store.** `WireJson` and `JsonText` (escaping, compacting, serializing), `JsonStrings` and `JsonLayout`
  (what those two passes keep, by RFC 8259), `JsonCells` (which cells are null and which a column takes),
  `RowStore` (buffer and counts), `InsertAll` (one request), `InsertAllRuns` (any number of requests, step by
  step), `ValidatedColumns` (what gets into a column is what queries on it need).
- **SQL.** `SqlAst`, `SqlParser` and `SqlPrinter`; `Words`, `SqlRoundTripList`, `SqlRoundTripWhere`,
  `SqlRoundTrip` prove that printing is undone by parsing, `SqlWords` says what each keyword, operator and
  function means in any letter case, `SqlLiterals` what a literal means; `SqlParserPanics` says which texts make
  the parser panic and `SqlSemicolons` which lose their last character. `JsonDecoding` reads and compares cells,
  `SqlEval` evaluates. `SqlWhere` and `SqlResults` say which rows a query keeps and what it shows of them, without
  the evaluator; `SqlGroups`, `SqlOrder` and `SqlWindows` are the laws of GROUP BY, ORDER BY and LIMIT/OFFSET.
  `QueryEngine` adds the catalog, views, dry runs, destination tables and jobs; `QueryEngineProofs` holds their
  laws and `DryRunExactly` says which runs a dry run does not foresee.
- **Auto Scaling.** `AutoScaling` (the server and its handlers) and `AutoScalingRuns` (whole runs with failing
  reads and writes and restarts).
- **Parsers.** `Csv`, `Multipart`, `ConfigSections`, `SigV4Query` with `CanonicalForm`.

Many operations are said twice: by a specification function that a method is proved equal to, and by a law that
uses none of the functions the operation is made of, and that would fail if function and method went wrong
together. The laws are relations on what goes in and what comes out: which rows stay under a condition, what a
destination holds afterwards, which rows a request adds, what a stored entry is until it is touched again.

- Shared: `Common`, `Text`, `RustStr`, `Utf8`, `Numerals`, `TableSchemas`, `StableSort`.

Text is a Dafny `string` (Unicode scalar values) where the source slices and searches a `str`, and a sequence
of bytes where it works on bytes. JSON decoding and floating point are functions given from outside
(`JsonDecoding.Decoder`); what the proofs use of them is the predicate `JsonDecoding.Lawful`. The clock, fresh
identifiers, region and account are parameters. Writes succeed, except where the property is about a failing
write.

## Where the code differs from what one would expect

- `multipart_parts` is right exactly about messages in which every part has a header line and a body. A part
  with headers and no body makes it slice its buffer with the end before the start. A part without header
  lines, which section 5.1.1 of RFC 2046 allows, loses its body up to the first empty line in it, or wholly
  where there is none and another part follows, or makes the upload refused, or ends in the inverted slice,
  depending on what its body holds and what comes after it.
- The SQL parser slices with the end before the start exactly on texts that start with `SELECT FROM` and on
  those in which it comes to a `WHERE` directly followed by another clause.
- A query that ends in a semicolon of its own, in a literal, a name or the table, loses it when it is parsed
  as it is, and needs a second one after it; every other printed query is read back with or without one.
- The sort key of timestamps follows time from year 0 on, except between a year of fewer digits and a later
  one of more digits whose leading digits it is above: up to year 99999, between a year `a` of at most four
  digits and a year `b` of five with `a > b / 10`. So 2024 sorts after 12024, and 999 before it.
- The Cloud Run framing budget refuses a body sent in more than 32765 one-byte chunks; the BigQuery budget
  admits every minimal chunking. Cloud Run also takes size lines with white space
  around the size, which BigQuery refuses.
- The CSV reader skips a record written as an empty line. It takes text after a closing quote and a quote that is
  never closed, which RFC 4180 does not allow.
- A dry run accepts some queries that fail when run: exactly those where, at the query or at a view on the
  way, a field selected beside an aggregate is missing, or the ORDER BY of a grouped query is not its group,
  or the cells to add up are not all integers (for the SUM of an INTEGER column) or numbers.
- Deregistering a target removes every policy and scheduled action whose resource, dimension and name, joined
  with `|`, start with its own resource and dimension so joined. That reaches another target exactly when
  one's joined identifiers continue the other's: never between identifiers without `|`, but deregistering a
  target without any can remove those of one with some: `("a", "b")` takes those of `("a", "b|c")` along.

## Model

| member | source | states |
|---|---|---|
| NetStream.Stream.Read | services/bigquery/src/http.rs:274-280 | a read takes some of the next bytes, none only at the end; nothing is said about where the cuts are |
| ChunkedBigQuery.ReadChunkLine | services/bigquery/src/http.rs:249-282 | the line, error and leftover are a function of buffered and coming bytes together, wherever reads cut |
| ChunkedBigQuery.FillTo | services/bigquery/src/http.rs:200-212 | reads on until the wanted bytes are there or the stream ends, losing and reordering nothing |
| ChunkedBigQuery.ReadTrailers | services/bigquery/src/http.rs:190-198 | the trailer loop equals the decoder's trailers under the same budget |
| ChunkedBigQuery.ReadChunkData | services/bigquery/src/http.rs:214-246 | a chunk's data and its CRLF are taken as the decoder takes them, and an incomplete chunk is an error |
| ChunkedBigQuery.ReadChunkedBody | services/bigquery/src/http.rs:168-246 | for every wire and every cutting of it the body or error is the pure decoder's on the whole wire |
| ChunkedBigQuery.ReadFixedBody | services/bigquery/src/http.rs:138-156 | the fixed-length branch returns exactly the announced bytes, or nothing if the stream ends early, for every cutting |
| ChunkedBigQueryProofs.AcceptsExactlyTheGrammar | services/bigquery/src/http.rs:168-246 | a wire is accepted with a body and a remainder if and only if it is a chunked message (RFC 9112 section 7.1) within the limits with that body followed by that remainder |
| ChunkedBigQueryProofs.BudgetAdmitsEveryMinimalChunking | services/bigquery/src/http.rs:172-198 | a body of at most 128 MiB, minimally encoded in any non-empty chunks, is read back: the budget never refuses it |
| ChunkedBigQueryProofs.AcceptedWireIsBounded | services/bigquery/src/http.rs:172-246 | what is accepted has at most 128 MiB and took at most six wire bytes per body byte plus 64 KiB |
| ChunkedBigQueryProofs.CutShortIsIncomplete | services/bigquery/src/http.rs:168-282 | a message within the limits that is cut short anywhere is answered as incomplete |
| ChunkedBigQueryRefusals.RefusesExactly | services/bigquery/src/http.rs:168-282 | a wire is refused with an error if and only if that is its first defect after some chunks in order: a missing, long or over-budget line, a line that announces no size, a body too large, data too short or without a line break, or such a line after the last chunk |
| ChunkGrammar.SizeIsAnnounced | services/bigquery/src/http.rs:186-198 | a size is read from a line if and only if the line is its hexadecimal digits, in either case, and after them nothing or a semicolon, and it fits 64 bits |
| ChunkedCloudRun.Input.Fill | services/cloudrun/src/body.rs:66-82 | buffers until enough unread bytes are there or the stream ends, consuming nothing |
| ChunkedCloudRun.Input.ReadExact | services/cloudrun/src/body.rs:84-92 | takes exactly the next bytes or reports the end |
| ChunkedCloudRun.Input.ReadLine | services/cloudrun/src/body.rs:94-116 | the next line is a function of the remaining wire, independent of the cuts |
| ChunkedCloudRun.Input.FramingLine | services/cloudrun/src/body.rs:118-132 | the line is charged to the framing and refused exactly past the allowance |
| ChunkedCloudRun.Input.ReadTrailers | services/cloudrun/src/body.rs:150-160 | the trailer loop equals the decoder's |
| ChunkedCloudRun.Input.ReadData | services/cloudrun/src/body.rs:161-182 | a chunk and its CRLF are taken as the decoder takes them |
| ChunkedCloudRun.Input.Chunked | services/cloudrun/src/body.rs:134-182 | for every wire and cutting the result is the decoder's on the whole wire |
| ChunkedCloudRunProofs.AcceptsExactlyTheLenientGrammar | services/cloudrun/src/body.rs:134-182 | a wire is accepted with a body and a remainder if and only if it is a chunked message, its sizes trimmed, within the line, framing and body limits, with that body followed by that remainder |
| ChunkedCloudRunProofs.WellFormedIsLenient | services/cloudrun/src/body.rs:134-182 | every message of RFC 9112 section 7.1 is one of that grammar |
| ChunkedCloudRunProofs.SpacedWireIsTakenHereOnly | services/cloudrun/src/body.rs:150-153 | a whole wire whose size line starts with a space is accepted by this reader and refused by the strict one |
| ChunkedCloudRunProofs.CutShortIsTruncated | services/cloudrun/src/body.rs:134-182 | a message within the limits that is cut short anywhere is answered as truncated |
| ChunkedCloudRunRefusals.RefusesExactly | services/cloudrun/src/body.rs:94-182 | a wire is refused with an error if and only if that is its first defect after some chunks in order |
| LenientSizes.SizeIsAnnouncedLeniently | services/cloudrun/src/body.rs:150-156 | the same of a size with white space of any kind around its digits |
| ChunkedAgreement.ReadersAgree | services/cloudrun/src/body.rs:134-182 | whatever wire both readers accept, they take the same body and leave the same rest |
| ChunkedAgreement.CloudRunAcceptsExactlyWithinAllowance | services/cloudrun/src/body.rs:118-182 | a minimal encoding is accepted if and only if the body is within its maximum and the lines never outrun the body by more than the allowance |
| ChunkedAgreement.CloudRunBudgetBounds | services/cloudrun/src/body.rs:118-132 | minimal chunks of three bytes or more always pass; one-byte chunks pass exactly up to 32765 of them |
| Calendar.TruncatedFormEqualsEuclideanForm | services/applicationautoscaling/src/time_fmt.rs:36-48 | the truncating-division form and the Euclidean form agree for every day |
| Calendar.CivilFromDaysIsInverse | services/cloudrun/src/time_fmt.rs:44-56 | every day number yields a valid Gregorian date whose day number it is |
| Calendar.CivilFromDaysCoversEveryDate | services/bigquery/src/tabledata_handlers.rs:367-378 | every Gregorian date is produced, by its own number only |
| Calendar.CivilFromDaysFollowsTheCalendar | services/cloudrun/src/time_fmt.rs:44-56 | day 0 is 1970-01-01 and each next number is the calendar's next day |
| Calendar.DayNumberOrdersDates | services/cloudrun/src/time_fmt.rs:44-56 | day numbers order dates, both ways |
| Timestamp.SortableIsRow | services/cloudrun/src/time_fmt.rs:16-42 | the key restores the zeros the timestamp's text leaves out |
| Timestamp.SortableOrdersInstants | services/cloudrun/src/time_fmt.rs:16-56 | for all instants of years 0 to 9999, keys compare as strings exactly as the instants in time |
| Timestamp.SortableFollowsTimeExactly | services/cloudrun/src/time_fmt.rs:16-56 | from year 0 on, two keys stand in the order of the instants if and only if neither year has fewer digits than the other and is above the other's leading digits |
| Timestamp.CrossedYears | services/cloudrun/src/time_fmt.rs:16-56 | up to year 99999 that condition fails exactly for a year of at most four digits above a tenth of one of five |
| Timestamp.SortableMisordersFiveDigitYears | services/cloudrun/src/time_fmt.rs:16-56 | a family on which the order fails: every instant of 2000-9999 sorts after every one of 10000-19999 |
| Timestamp.FormattersAgree | services/bigquery/src/tabledata_handlers.rs:345-365 | the two services' formatters give the same text for every instant |
| Timestamp.SortableOrdersUnixNanos | services/bigquery/src/tabledata_handlers.rs:345-365 | so the key orders BigQuery's timestamps as well |
| TimestampReader.TextIsTheInstant | services/applicationautoscaling/src/time_fmt.rs:14-48 | from year 0 on the text of an instant, read by RFC 3339 section 5.6, is that instant to the nanosecond |
| WireJson.HtmlEscape | services/bigquery/src/wire_json.rs:19-50 | the byte loop equals the recursive escape |
| WireJson.CompactLoop | services/bigquery/src/wire_json.rs:75-102 | the loop with its two flags equals the recursive compaction |
| WireJson.EscapeIsIdempotent | services/bigquery/src/wire_json.rs:19-50 | escaping twice is escaping once, on any bytes |
| WireJson.EscapeDistributesExactly | services/bigquery/src/wire_json.rs:19-50 | escaping distributes over a concatenation if and only if no line separator is cut by it |
| WireJson.CompactIsIdempotent | services/bigquery/src/wire_json.rs:75-102 | compacting twice is compacting once |
| WireJson.StoredIsFixpoint | services/bigquery/src/storage.rs:479-492 | a stored cell is a fixpoint of both passes, on any bytes |
| JsonStrings.EscapedIsRead | services/bigquery/src/wire_json.rs:19-50 | escaping changes no string: read by RFC 8259 section 7 it says what it said before, and what could not be read cannot |
| JsonStrings.EscapedIsInert | services/bigquery/src/wire_json.rs:19-50 | after escaping no byte is an angle bracket or ampersand and no line or paragraph separator is left, in any bytes |
| JsonStrings.SerializedIsRead | services/bigquery/src/wire_json.rs:52-56 | a serialized string, read by RFC 8259 section 7, is the string |
| JsonLayout.LayoutIsCompacted | services/bigquery/src/wire_json.rs:75-102 | any text of a value, with white space wherever RFC 8259 section 2 allows it, is compacted to the text without |
| JsonText.MarshalledIsStored | services/bigquery/src/wire_json.rs:52-56 | a marshalled value already has the form storage gives to cells |
| RowStore.TableFiles.AppendRows | services/bigquery/src/storage.rs:277-296 | appends each row in its stored form after what is there |
| RowStore.TableFiles.RefreshRowStats | services/bigquery/src/storage.rs:371-391 | counts rows and bytes of the whole buffer |
| RowStore.TableFiles.RefreshRowStatsIncremental | services/bigquery/src/storage.rs:393-407 | counts from memory, and right whenever the buffer is the old rows followed by the stored new ones |
| RowStore.IncrementalBytesAreFullBytes | services/bigquery/src/storage.rs:371-422 | incremental and full byte counts are equal for all rows |
| RowStore.RowIsWrittenInStoredForm | services/bigquery/src/storage.rs:277-296 | compacting each cell and escaping the whole row writes the escaped names with the stored cells, and a row of stored cells is written as the same bytes |
| RowStore.OnDiskIsFixpoint | services/bigquery/src/storage.rs:277-314 | writing a row that was read back changes nothing |
| InsertAll.TakeRows | services/bigquery/src/tabledata_handlers.rs:47-90 | the loop takes the valid rows with new insert ids and lists the invalid ones |
| InsertAll.InsertRows | services/bigquery/src/tabledata_handlers.rs:24-117 | the buffer and the answer are what the request asks for, said of its rows alone: nothing is added if a row is invalid and such rows are not skipped; else, within the limit, exactly the valid rows with no id or a new one, in order, each with its id, its fitting cells in stored form and the time; insertErrors are the positions of the invalid rows, increasing; the quota answer comes exactly when those rows would pass the limit; and the counts are right |
| InsertAll.ApplyInserts | services/bigquery/src/tabledata_handlers.rs:47-108 | one request, as a function, adds and answers just that |
| InsertAll.RowIsValidExactly | services/bigquery/src/tabledata_handlers.rs:207-257 | a row is valid if and only if each cell fits its field or may be ignored and every required field is filled; what is stored fits |
| JsonCells.FitsExactly | services/bigquery/src/tabledata_handlers.rs:260-323 | a cell is accepted for a column if and only if it fits: nulls unless required, arrays by their elements, strings, 64-bit integers, numbers, truth values and records by the type named in any letter case, and no other type |
| JsonCells.NullExactly | services/bigquery/src/sql_eval.rs:509-512 | a cell is null if and only if it is that word in any letter case with white space around it or none |
| ValidatedColumns.RecordIsAValidRow | services/bigquery/src/tabledata_handlers.rs:303-317 | a nested record fits its field if and only if its members are a valid row for the record's fields |
| ValidatedColumns.ApplyKeepsValidated | services/bigquery/src/tabledata_handlers.rs:47-108 | one request leaves a validated INTEGER column validated, after compaction and escaping |
| ValidatedColumns.EveryTableIsValidated | services/bigquery/src/tabledata_handlers.rs:24-117 | in every state of every interleaving of requests INTEGER columns are validated, which is what the laws of ORDER BY, MIN and MAX ask for |
| InsertAll.ApplyKeeps | services/bigquery/src/tabledata_handlers.rs:47-108 | earlier rows stay, non-empty insert ids stay distinct, the row limit is not passed |
| InsertAll.ReplayChangesNothing | services/bigquery/src/tabledata_handlers.rs:47-108 | a request whose rows all carry ids, taken once, adds nothing at any later time |
| InsertAll.ReplayAtOnce | services/bigquery/src/tabledata_handlers.rs:47-108 | sent twice in a row it acts once, also when the limit refused it |
| InsertAllRuns.LockRegistry.TableLock | services/bigquery/src/server.rs:101-114 | one table always gets the same mutex, two tables never share one |
| InsertAllRuns.EveryStateIsSound | services/bigquery/src/tabledata_handlers.rs:24-117 | in every state of every interleaving: limit kept, ids distinct, counts right whenever the lock is free |
| InsertAllRuns.EarlierRowsNeverChange | services/bigquery/src/tabledata_handlers.rs:47-108 | rows once in the buffer stay, unchanged and in place, over any run |
| InsertAllRuns.RunsAreSerial | services/bigquery/src/tabledata_handlers.rs:47-108 | whenever the lock is free the buffer is that of the finished requests run one after the other |
| InsertAllRuns.RowsAreBetweenSerialResults | services/bigquery/src/tabledata_handlers.rs:47-108 | while a request is at work the buffer lies between the serial results before and after it |
| InsertAllRuns.ReplayInARunChangesNothing | services/bigquery/src/tabledata_handlers.rs:47-108 | in any serial order a repeated request with ids adds nothing |
| SqlParser.ParseSimpleSelect | services/bigquery/src/sql_parser.rs:104-217 | the clause loop equals the recursive parser, errors and panics included |
| SqlParser.SplitWords | services/bigquery/src/sql_parser.rs:619-642 | the loop's groups are the words between keywords, none at all if a piece is empty |
| SqlRoundTripList.ListIsReadBack | services/bigquery/src/sql_parser.rs:370-458 | the SELECT list of every clean query, plain, aggregate or both, is read back |
| SqlWords.FunctionsMean | services/bigquery/src/sql_parser.rs:370-417 | the five function names, in any letter case, are those functions; `*` is for COUNT alone |
| SqlWords.AliasMeans | services/bigquery/src/sql_parser.rs:377-388 | a name after ` AS ` or ` as `, bare or backquoted, is the alias |
| SqlWords.OrderOfListIsFree | services/bigquery/src/sql_parser.rs:420-458 | a column and an aggregate mean the same in either order |
| SqlRoundTripWhere.OperatorAlone | services/bigquery/src/sql_parser.rs:652-659 | the search order of the six operators finds each operator as itself |
| SqlRoundTripWhere.WhereIsReadBack | services/bigquery/src/sql_parser.rs:585-676 | OR of AND of conditions, with NOT, every operator and any literal as it is written, is read as what it means |
| SqlWords.ConditionsMean | services/bigquery/src/sql_parser.rs:645-676 | a column, bare or backquoted, one of the six operators with or without spaces, and a literal are that condition; NOT before it, in any letter case, negates it |
| SqlRoundTrip.TokenAfter | services/bigquery/src/sql_parser.rs:534-547 | a token and the clauses after it are taken apart where they were joined |
| SqlRoundTrip.FromIsFound | services/bigquery/src/sql_parser.rs:116-123 | no word of the list hides an earlier FROM |
| SqlRoundTrip.WhereEnds | services/bigquery/src/sql_parser.rs:151-161 | the condition ends exactly where the next clause begins |
| SqlRoundTrip.TableIsReadBack | services/bigquery/src/sql_parser.rs:549-570 | a three-part table name is read back whatever the default project |
| SqlRoundTrip.PrintThenParse | services/bigquery/src/sql_parser.rs:104-217 | every clean query, its literals in any written form, printed and parsed with a semicolon after it, is the query meant, semicolons in names and literals included; and without one, unless its text ends in one of its own |
| SqlRoundTrip.FormsAreRead | services/bigquery/src/sql_parser.rs:549-570 | the same with the table written in two or three parts, bare or backquoted: without a project it is that of the request, or `devcloud`; dataset and table are the first and the second part |
| SqlRoundTrip.WrittenIsRead | services/bigquery/src/sql_parser.rs:104-217 | the same with any text that names the table |
| SqlRoundTrip.MeantIsItself | services/bigquery/src/sql_parser.rs:679-711 | where the literals are JSON text already, the query meant is the query itself |
| SqlWords.EveryClause | services/bigquery/src/sql_parser.rs:104-217 | a text with every clause, each word spelled out, is the query it looks like |
| SqlWords.GroupByMeans | services/bigquery/src/sql_parser.rs:162-169 | GROUP BY in any letter case and a column, bare or backquoted, set the group |
| SqlWords.OrderByMeans | services/bigquery/src/sql_parser.rs:170-189 | ORDER BY with ASC or DESC, in any letter case, sets the column and, for DESC only, the direction; it is refused beside an ungrouped aggregate |
| SqlWords.OrderByAloneMeans | services/bigquery/src/sql_parser.rs:180-189 | any other word after the column is left for the next clause |
| SqlWords.CountsMean | services/bigquery/src/sql_parser.rs:190-203 | LIMIT and OFFSET take the decimal text of a 64-bit integer that is not negative, and refuse every other word |
| SqlWords.OtherNamesAreRefused | services/bigquery/src/sql_parser.rs:556-569 | a table name of one part, or of four or more, is refused |
| SqlWords.ParsedQueriesAreSound | services/bigquery/src/sql_parser.rs:208-217 | whatever text is parsed, a group is the one selected column beside an aggregate, and LIMIT and OFFSET are in range |
| SqlSemicolons.PrintThenParseExactly | services/bigquery/src/sql_parser.rs:104-217 | parsed as it is, a printed clean query is the query meant if and only if its text does not end in a semicolon |
| SqlSemicolons.ClausesAddNone | services/bigquery/src/sql_parser.rs:143-205 | the clauses put no semicolon into a query that their text does not hold, for every text |
| SqlSemicolons.FinalSemicolonIsLost | services/bigquery/src/sql_parser.rs:108-110 | a table whose name ends in a semicolon, last in the text, is read without it |
| SqlParserPanics.HeadPanicsExactly | services/bigquery/src/sql_parser.rs:116-120 | up to the clauses the parser panics if and only if SELECT is directly followed by FROM |
| SqlParserPanics.ParsePanicsExactly | services/bigquery/src/sql_parser.rs:104-217 | parsing a text panics if and only if it starts with SELECT FROM or the clause loop comes to a WHERE whose condition is missing before another clause |
| SqlParserPanics.NoPanicWithoutTheTexts | services/bigquery/src/sql_parser.rs:104-217 | no panic on a text that neither starts with SELECT FROM nor holds WHERE with a clause marker right after it |
| SqlParserPanics.SelectFromPanicsExactly | services/bigquery/src/sql_parser.rs:116-120 | SELECT FROM and any text panics if and only if that text holds more than white space and one final semicolon |
| SqlParserPanics.BareWherePanicsExactly | services/bigquery/src/sql_parser.rs:151-163 | a SELECT list and table with WHERE directly before a clause keyword, and any text after it, panics if and only if that text holds more than white space and one final semicolon |
| SqlParserPanics.LeftOutConditionPanicsExactly | services/bigquery/src/sql_parser.rs:151-163 | a clean query printed without its condition panics if and only if another clause follows WHERE |
| SqlLiterals.QuoteIsMarshal | services/bigquery/src/sql_parser.rs:679-688 | the JSON text made of a quoted literal is, as bytes, the marshalled string |
| SqlLiterals.SingleQuotedIsTheString | services/bigquery/src/sql_parser.rs:679-711 | a literal in single quotes is the JSON string of its text, read by RFC 8259 section 7 |
| SqlLiterals.WordsAreTheWords | services/bigquery/src/sql_parser.rs:679-711 | TRUE, FALSE and NULL in any letter case are the JSON words |
| SqlLiterals.OtherLiterals | services/bigquery/src/sql_parser.rs:679-711 | every other literal is JSON text and stands for itself, or is refused |
| Numerals.ShowIntReadsBack | services/bigquery/src/sql_eval.rs:499-507 | an integer shown in a cell is read back |
| Numerals.ParseIsDecimal | services/bigquery/src/sql_eval.rs:499-507 | a text is parsed as an integer if and only if it is that integer in decimal digits, after a sign or none, and it fits 64 bits |
| Numerals.WrapAdds | services/bigquery/src/sql_eval.rs:346-348 | wrapping at every addition is wrapping once at the end |
| SqlEval.SumIntegers | services/bigquery/src/sql_eval.rs:328-350 | the loop's sum, count or error is that of the recursive total |
| SqlEval.SumFloats | services/bigquery/src/sql_eval.rs:356-373 | the same for the floating-point loop, addition left abstract |
| SqlEval.SelectExtreme | services/bigquery/src/sql_eval.rs:376-402 | the loop's choice is the recursive one |
| SqlEval.CountRows | services/bigquery/src/sql_eval.rs:147-160 | counts the cells that are there and not null |
| SqlEval.ExecuteAggregate | services/bigquery/src/sql_eval.rs:118-217 | fields, cell and errors of an aggregate over given rows |
| SqlEval.CollectGroups | services/bigquery/src/sql_eval.rs:231-243 | keys in first-seen order, and to each key exactly its rows in order |
| SqlEval.KeysAreTheGroups | services/bigquery/src/sql_eval.rs:231-243 | a key is listed if and only if some row has it |
| SqlEval.AggregateGroups | services/bigquery/src/sql_eval.rs:266-291 | one row per key in order, up to the first aggregate that fails |
| SqlEval.ExecuteGrouped | services/bigquery/src/sql_eval.rs:219-292 | sort, window and aggregate the groups as specified |
| SqlEval.ExecuteParsed | services/bigquery/src/sql_eval.rs:34-81 | filter, sort, drain and truncate equal the evaluation of the whole query, of which `SqlWhere` and `SqlResults` say what it keeps and shows |
| SqlWhere.WhereKeepsExactly | services/bigquery/src/sql_eval.rs:34-81 | a query with WHERE is the query without it on exactly the rows that stay, in order and as often as they are there: those of which some group of conditions holds throughout, a condition holding of a row with a value in the column that stands, or under NOT does not stand, in the relation the operator names |
| SqlWhere.IntegersAreCompared | services/bigquery/src/sql_eval.rs:441-486 | where cell and literal are integers each of the six operators is that of the reals they are read as, and NOT its complement |
| SqlWhere.StringsAreCompared | services/bigquery/src/sql_eval.rs:478-486 | strings that are not both numerals are compared byte by byte |
| SqlWhere.NotIsTheComplement | services/bigquery/src/sql_eval.rs:452-476 | a row stays under a condition or under its negation, not both, exactly when it has a value in the column |
| SqlResults.PlainShows | services/bigquery/src/sql_eval.rs:34-81 | a plain result: the columns asked for, the rows after the offset up to the limit, each cell as its type is shown |
| SqlResults.AggregateShows | services/bigquery/src/sql_eval.rs:118-217 | an aggregate: the number of rows or values, their sum modulo 2^64 or in floating point, that sum divided by their number, or a value none is below or above; null without any |
| SqlResults.UngroupedShows | services/bigquery/src/sql_eval.rs:40-50 | an aggregate query without groups shows that over all rows, whatever its LIMIT and OFFSET |
| SqlResults.GroupedShows | services/bigquery/src/sql_eval.rs:219-292 | a grouped result: each text by which some row is grouped, once, in the order of the keys, within the window, with the aggregate of exactly its rows |
| SqlResults.KeysAreInOrder | services/bigquery/src/sql_eval.rs:226-264 | where keys can be ordered, none is below one before it, or above it when descending |
| SqlGroups.GroupsPartition | services/bigquery/src/sql_eval.rs:231-243 | any weight summed over the groups is the weight summed over the rows |
| SqlGroups.IntegerTotalIsWrappedSum | services/bigquery/src/sql_eval.rs:328-350 | the integer SUM is the true sum modulo 2^64 and fails exactly on a non-integer |
| SqlGroups.GroupsFailTogether | services/bigquery/src/sql_eval.rs:328-350 | some group holds a non-integer if and only if some row does |
| SqlGroups.GroupByConservesCount | services/bigquery/src/sql_eval.rs:219-292 | the COUNT cells of all groups add up to the ungrouped COUNT cell |
| SqlGroups.GroupByConservesSum | services/bigquery/src/sql_eval.rs:219-292 | the integer SUM cells of all groups add up modulo 2^64 to the ungrouped SUM cell, and both queries fail together |
| SqlOrder.CompareIsRankOrder | services/bigquery/src/sql_eval.rs:478-486 | on the texts of a validated INTEGER column comparing is comparing missing, then integers, then null |
| SqlOrder.RanksFollowIntegers | services/bigquery/src/sql_eval.rs:478-497 | a larger integer never compares below a smaller one |
| SqlOrder.RowOrderIsTotalPreorder | services/bigquery/src/sql_eval.rs:478-486 | on such a column the comparison is a total preorder in both directions |
| SqlOrder.OrderByIsTheStableOrder | services/bigquery/src/sql_eval.rs:51-61 | ORDER BY gives a permutation, by rank in the direction asked, ties in place; and nothing else has these properties |
| SqlResults.OrderedShows | services/bigquery/src/sql_eval.rs:51-61 | on any column that can be ordered no row is below one before it, or above it when descending, and ties keep their order |
| SqlResults.TextColumnsCanBeOrdered | services/bigquery/src/sql_eval.rs:478-486 | a column of strings that are no numerals can be ordered |
| SqlResults.TypeFailsExactly | services/bigquery/src/sql_parser.rs:472-530 | a query is refused before any row is looked at if and only if it has no type: an unknown column, `*` for a function other than COUNT, SUM or AVG of a column whose type is not numeric; and with the first such error |
| SqlOrder.ExtremeBounds | services/bigquery/src/sql_eval.rs:376-402 | MIN and MAX give nothing exactly when there is no value, else a value of the column that bounds all others |
| StableSort.SortIsTheStableSort | services/bigquery/src/sql_eval.rs:51-61 | on a total preorder the sort's result is the one stable sorted permutation |
| SqlWindows.WindowsMakeTheWhole | services/bigquery/src/sql_eval.rs:62-71 | LIMIT n OFFSET 0, n, 2n, ... put together are the unlimited result, plain or grouped, errors included |
| SqlWindows.WindowsHaveTheSameColumns | services/bigquery/src/sql_eval.rs:244-264 | every window has the columns of the whole |
| QueryEngine.Engine.AppendRows | services/bigquery/src/storage.rs:277-296 | the table's buffer grows by the stored rows, no other buffer changes |
| QueryEngine.Engine.RefreshRowStats | services/bigquery/src/storage.rs:371-391 | the table's counts become those of its buffer |
| QueryEngine.Engine.WriteDestination | services/bigquery/src/query_engine.rs:123-252 | refused exactly when there is a reason, and then nothing changes; otherwise the table holds the result rows, one cell a field, after its own rows unless it is truncated; an existing table under WRITE_EMPTY had none and under WRITE_APPEND had the result's schema; schema, counts and kind are right, and no other table or buffer changes |
| QueryEngine.WrittenIsWritten | services/bigquery/src/query_engine.rs:200-252 | the same of the catalog as a function |
| QueryEngine.RefusedExactly | services/bigquery/src/query_engine.rs:123-226 | an error is given if and only if there is a reason, and it is the first: identifiers, dataset, dispositions, missing table, rows already there, another schema |
| QueryEngine.IdentifiersAre | services/bigquery/src/validation.rs:11-22 | an identifier is one or more ASCII letters, digits, underscores and hyphens |
| QueryEngine.Engine.CreateQueryJob | services/bigquery/src/query_engine.rs:29-119 | a failed job names its first reason and changes nothing; a job that succeeds was not there before, is recorded, answers what the query gives, and writes it to its destination or changes no table |
| QueryEngineProofs.EvaluateAgrees | services/bigquery/src/sql_parser.rs:472-530 | evaluation gives the fields typing gives, and fails beyond typing only over values, a grouped ORDER BY or a selected field |
| QueryEngineProofs.DryRunAgrees | services/bigquery/src/query_engine.rs:277-390 | for any catalog, views chained or cyclic: a run that succeeds has a dry run with the same fields and no rows, and the listed errors are the only ones a dry run misses |
| QueryEngineProofs.EveryQueryReadsItsSource | services/bigquery/src/query_engine.rs:277-390 | a text runs on the table it names or on the result of the view's own query in the view's project, one of at most eight levels deeper; a missing table, a view without a query or in legacy SQL, and its query's error are answered as such; the same in a dry run, without rows |
| DryRunExactly.EvaluateFailsExactly | services/bigquery/src/sql_eval.rs:34-81 | a well-typed query fails on given rows if and only if a field beside its aggregate is missing, its ORDER BY is not its group, or some cells to add up cannot be; and with no error about values exactly in the first two cases |
| DryRunExactly.RunFailsExactly | services/bigquery/src/query_engine.rs:277-390 | where a dry run succeeds, the run fails if and only if that is so at the query or at a view on the way |
| DryRunExactly.ShapesDecideOtherErrors | services/bigquery/src/query_engine.rs:277-390 | the part of it that needs no row makes the run fail, and is there whenever the run fails with an error not about values |
| DryRunExactly.UngroupedFieldIsMissed | services/bigquery/src/sql_eval.rs:118-217 | a query whose selected field beside an ungrouped COUNT is missing: the dry run succeeds, the run fails |
| DryRunExactly.MisorderedGroupsAreMissed | services/bigquery/src/sql_eval.rs:219-292 | a grouped query ordered by something else: the dry run succeeds, the run fails |
| DryRunExactly.NonNumberIsMissed | services/bigquery/src/sql_eval.rs:356-373 | SUM of a NUMERIC column that took a string which is no number: the dry run succeeds, the run fails |
| QueryEngineProofs.DepthOnlyCutsOff | services/bigquery/src/query_engine.rs:326-376 | a run not cut off by the depth bound gives the same one level further out |
| QueryEngineProofs.ResultRowsAreStored | services/bigquery/src/sql_eval.rs:90-115 | writing result rows to a table changes no byte of them |
| QueryEngineProofs.ViewMeansItsTable | services/bigquery/src/query_engine.rs:326-376 | every query on a view gives what it gives on a fresh table filled by the view's query, or the error of the view's query, unless the depth bound cuts in |
| QueryEngineProofs.PrintedQueriesAgree | services/bigquery/src/query_engine.rs:123-252 | the same for every clean query printed over the view and over the table, with a semicolon after it, and without one if neither text ends in one |
| QueryEngineProofs.FreshTableLeavesRunsAlone | services/bigquery/src/query_engine.rs:326-376 | making a fresh table changes no query that succeeded |
| QueryEngineProofs.RetryIsRefused | services/bigquery/src/query_engine.rs:42-55 | a job sent again under the same id is refused before it can write twice |
| QueryEngineProofs.FailedJobChangesNothing | services/bigquery/src/query_engine.rs:29-119 | a failed job changes nothing, a dry run no table and no row |
| AutoScaling.Server.constructor | services/applicationautoscaling/src/server.rs:74-116 | starts from what is stored, and in step with it, or empty and marked when the file cannot be read |
| AutoScaling.Server.Process | services/applicationautoscaling/src/http.rs:201-208 | a server that could not load answers that and changes nothing; any other dispatches |
| AutoScaling.Server.Persist | services/applicationautoscaling/src/server.rs:118-134 | the file becomes the memory, or stays as it was |
| AutoScaling.Server.RegisterTarget | services/applicationautoscaling/src/server.rs:167-222 | the request's effect on memory and file, or none on either |
| AutoScaling.Server.DeregisterTarget | services/applicationautoscaling/src/server.rs:257-288 | the cascade on memory and file, or a complete roll-back |
| AutoScaling.Server.PutScalingPolicy | services/applicationautoscaling/src/server.rs:290-364 | the request's effect on memory and file, or none on either |
| AutoScaling.Server.DeleteScalingPolicy | services/applicationautoscaling/src/server.rs:402-432 | the request's effect on memory and file, or none on either |
| AutoScaling.Server.PutScheduledAction | services/applicationautoscaling/src/server.rs:450-493 | the request's effect on memory and file, or none on either |
| AutoScaling.Server.DeleteScheduledAction | services/applicationautoscaling/src/server.rs:531-563 | the request's effect on memory and file, or none on either |
| AutoScaling.Server.AddTags | services/applicationautoscaling/src/server.rs:565-584 | the request's effect on memory and file, or none on either |
| AutoScaling.Server.RemoveTags | services/applicationautoscaling/src/server.rs:586-609 | the request's effect on memory and file, or none on either |
| AutoScaling.Server.FindTargets | services/applicationautoscaling/src/server.rs:224-255 | exactly the targets of the namespace that pass the filters, an empty filter letting all pass |
| AutoScaling.Server.FindPolicies | services/applicationautoscaling/src/server.rs:366-400 | exactly the policies that pass |
| AutoScaling.Server.FindActions | services/applicationautoscaling/src/server.rs:495-529 | exactly the scheduled actions that pass |
| AutoScaling.Server.Dispatch | services/applicationautoscaling/src/server.rs:148-165 | every operation does what its request asks for, said of the state before and after, or, where it cannot be stored, nothing; and memory and file stay in step |
| AutoScaling.EffectObeys | services/applicationautoscaling/src/server.rs:148-627 | Register, Put, Delete, Deregister, Tag, Untag, Describe and List: under the entry's key each field is the request's, the former entry's or the default of a new one, creation times and ARNs are kept, no other entry changes, and the answer is the one asked for |
| AutoScaling.RestoreIsExact | services/applicationautoscaling/src/server.rs:629-640 | restoring an entry undoes any change made at its key only |
| AutoScaling.DrainMatching | services/applicationautoscaling/src/server.rs:642-651 | takes out exactly the entries with the prefix, and putting them back restores the map |
| AutoScalingRuns.CallOnServer | services/applicationautoscaling/src/server.rs:148-165 | the server object moves as the run's step says |
| AutoScalingRuns.MemoryIsPersistedAndKeysFit | services/applicationautoscaling/src/server.rs:118-134 | after every event of every run, reads and writes failing or not: memory is what is persisted, or empty after a failed load; each key in memory and file is the join of its value's fields |
| AutoScalingRuns.FailedLoadLosesNothing | services/applicationautoscaling/src/http.rs:201-208 | a server that could not read the file never changes it, and the next one that can has all that was stored |
| AutoScalingRuns.HeldUntilTouched | services/applicationautoscaling/src/server.rs:148-627 | over any events, failing writes and restarts included, an entry stays as it is until a request touches its key |
| AutoScalingRuns.AnswersShowTheState | services/applicationautoscaling/src/server.rs:224-529 | what describing and listing answer for a key is the entry stored under it |
| AutoScalingRuns.WhatWasPutIsFound | services/applicationautoscaling/src/server.rs:148-627 | what a Register, Put or Tag stored is what is found until its key is touched again |
| AutoScalingRuns.ItemKeyContinuesItsTargetOnly | services/applicationautoscaling/src/server.rs:653-663 | between bar-free identifiers an item's key continues a target's key if and only if it is that target's |
| AutoScalingRuns.DeregisterRemovesExactlyItsOwn | services/applicationautoscaling/src/server.rs:257-288 | with bar-free identifiers Deregister removes exactly the target, its policies and its actions |
| AutoScalingRuns.DeregisterReachesOthersExactlyThroughBars | services/applicationautoscaling/src/server.rs:257-288 | among targets with bar-free identifiers some other's items can be reached if and only if the deregistered target has a bar in its own, with non-empty pieces before the first two |
| AutoScalingRuns.ReachesExactlyWhenOneTextContinuesTheOther | services/applicationautoscaling/src/server.rs:653-663 | for any two targets, bars or none: some item of the second can be reached if and only if one's joined identifiers continue the other's |
| AutoScalingRuns.DeregisterRemovesWhatContinues | services/applicationautoscaling/src/server.rs:257-288 | in every state whose keys fit, exactly the target and the policies and actions whose joined fields continue its identifiers go |
| AutoScalingRuns.RemovesItsOwnOnlyExactlyWithoutStrays | services/applicationautoscaling/src/server.rs:257-288 | exactly the target's own items go if and only if no stored item of another target continues its identifiers |
| AutoScalingRuns.BarFreeTargetsAreApart | services/applicationautoscaling/src/server.rs:653-663 | the joined identifiers of two different bar-free targets never continue one another |
| AutoScalingRuns.ApartTargetsKeepTheirItems | services/applicationautoscaling/src/server.rs:257-288 | no item is lost to a deregistration of a target whose identifiers neither continue nor are continued by its own |
| AutoScalingRuns.BarredTargetLosesItsPolicy | services/applicationautoscaling/src/server.rs:257-288 | deregistering resource a, dimension b removes the policies of resource a and a dimension of b, a bar and c |
| SigV4Query.PercentEncodeLoop | services/applicationautoscaling/src/sigv4.rs:276-293 | the loop equals the recursive encoding |
| SigV4Query.UrlDecodeLoop | services/applicationautoscaling/src/sigv4.rs:295-324 | the loop equals the recursive decoding |
| SigV4Query.CanonicalQueryString | services/applicationautoscaling/src/sigv4.rs:227-250 | the sorted and joined pairs equal the specification |
| CanonicalForm.CanonicalFormIs | services/applicationautoscaling/src/sigv4.rs:227-324 | the canonical form is the decoded pairs in order of their bytes, each written with unreserved bytes as they are and every other byte as a percent sign and two digits 0-9, A-F |
| SigV4Query.UrlDecodeUndoesEncode | services/applicationautoscaling/src/sigv4.rs:276-324 | decoding after percent-encoding (RFC 3986 section 2.1) is the identity |
| SigV4Query.CanonicalQueryIsIdempotent | services/applicationautoscaling/src/sigv4.rs:227-250 | canonicalizing twice is canonicalizing once |
| SigV4Query.CanonicalQueryForgetsOrder | services/applicationautoscaling/src/sigv4.rs:227-250 | any permutation of the items has the same canonical form |
| StableSort.SortForgetsOrder | services/applicationautoscaling/src/sigv4.rs:236-240 | on a total order the sorted list depends only on the elements |
| Csv.ReadRecord | services/bigquery/src/job_load_extract.rs:921-998 | the character loop over one record equals its specification |
| Csv.ReadCsv | services/bigquery/src/job_load_extract.rs:921-998 | the whole loop equals the specification, wrong field counts and stray quotes included |
| Csv.ReadsBackAllButBlank | services/bigquery/src/job_load_extract.rs:921-998 | any RFC 4180 section 2 encoding of any records gives them back, except records written as an empty line |
| Csv.ReadsBackExactlyWithoutBlankLines | services/bigquery/src/job_load_extract.rs:921-998 | all records come back if and only if none is written as an empty line |
| Csv.ReadsBackOrRefuses | services/bigquery/src/job_load_extract.rs:921-998 | a file in which some other record has a wrong number of fields is refused, any other gives its records |
| Csv.StrayQuoteIsRefused | services/bigquery/src/job_load_extract.rs:956-968 | a quote in a field that does not begin with one refuses the file |
| Csv.LooseQuotesAreTaken | services/bigquery/src/job_load_extract.rs:960-967 | text after a closing quote goes on in its field, and a quote never closed ends with the file |
| Multipart.ReadParts | services/bigquery/src/routes.rs:220-250 | the cursor loop equals the specification, the panicking slice included |
| Multipart.ReadsBackExactlyWhenEveryPartHasABody | services/bigquery/src/routes.rs:220-250 | with header lines in every part, and any epilogue, a multipart message (RFC 2046 section 5.1.1) gives back its bodies, also those ending in CRLF, if and only if every part has a body |
| Multipart.ReadsBackExactlyWhenPartsAreReadable | services/bigquery/src/routes.rs:220-250 | what is read from any message of the format, header lines or none, is given part by part, unless the reader runs from a last part without header lines and empty lines into an epilogue with the delimiter; it is the bodies if and only if every part has a header line and a body |
| Multipart.HeaderlessBodyIsDropped | services/bigquery/src/routes.rs:220-250 | a body without header lines before another part is dropped and the rest accepted |
| Multipart.HeadOfHeaderlessBodyIsLost | services/bigquery/src/routes.rs:220-250 | of a body with an empty line in it only what follows that line is returned |
| Multipart.EmptyPartsPanic | services/bigquery/src/routes.rs:220-250 | an empty body without header lines, and headers without a body, end in the inverted slice |
| Multipart.EpilogueCanStandIn | services/bigquery/src/routes.rs:220-250 | with the delimiter in the epilogue a header-less part can come back right by accident |
| Multipart.HeaderlessPartIsRefused | services/bigquery/src/routes.rs:220-250 | a single part without header lines is refused whenever no empty line follows |
| ConfigSections.LoadConfig | orchestrator/src/config.rs:671-728 | the line loop with its section stack equals the specification |
| ConfigSections.InsignificantLinesAreIgnored | orchestrator/src/config.rs:680-690 | empty lines and comments change nothing |
| ConfigSections.LayoutIsReadBack | orchestrator/src/config.rs:680-724 | any key tree laid out two spaces a level gives exactly its non-empty leaves, in order, at their full paths |
| ConfigSections.FileIsReadBack | orchestrator/src/config.rs:671-728 | and so does its text, with either line break after each line and with or without one at the end |
| ConfigSections.BadLinesAreRefused | orchestrator/src/config.rs:687-712 | a line without a colon, and a header deeper than any section around it, refuse the file |
| Utf8.LossyIsUtf8 | services/applicationautoscaling/src/sigv4.rs:318-324 | the lossy conversion always gives UTF-8 |
| Utf8.LossyKeepsUtf8 | services/applicationautoscaling/src/sigv4.rs:318-324 | and leaves UTF-8 alone |
| Utf8.EncodedIsUtf8 | services/applicationautoscaling/src/sigv4.rs:318-324 | the encoding of any text is UTF-8 (RFC 3629) |
| Utf8.Utf8IsEncoded | services/applicationautoscaling/src/sigv4.rs:318-324 | and UTF-8 is the encoding of a text |
| Utf8.DamageIsReplaced | services/applicationautoscaling/src/sigv4.rs:318-324 | a byte that begins no character, or one broken off, becomes one replacement character, and the text around it is kept |

## Left out

- Sockets, tasks, accept loops, response writing and the header part of `read_request`: plumbing; a stream is a sequence of reads.
- The choice of framing from headers in Cloud Run's `read_body`: a thin branch.
- serde_json and floating-point arithmetic: abstract functions with the laws of `JsonDecoding.Lawful`; the sign of a floating zero is not kept apart.
- `bind_query_parameters` and `replace_named_parameters`: queries are modelled after their parameters are bound.
- Column types are compared by ASCII upper case; the source uses Unicode upper case, which differs for a few letters outside ASCII.
- `is_json_null` trims ASCII white space only: no other white space can surround a JSON value.
- ORDER BY on columns that mix numeric and other text: the comparison is not transitive there, so the standard sort promises nothing; the model's sort is one of the possible results.
- `GROUP BY *`: evaluated as the source does, outside the stated laws.
- i64 overflow of day arithmetic within 719468 days of the ends of its range.
- RowStore.TableFiles.AppendRows: appends decoded rows; the bytes of a row are those of `RowIsWrittenInStoredForm`, but no line is parsed, so a line that does not decode does not arise.
- QueryEngine.Engine.AppendRows: appends decoded rows, in the same way.
- RowStore.OnDiskIsFixpoint: the form a row has when it is read back is a definition; a reader of JSON text is a library's.
- InsertAll.RowIsValidExactly: takes the check of one cell as a function, so that it holds of any; `JsonDecoding.FitsField` is the source's, and `JsonCells.FitsExactly` and `RecordIsAValidRow` say what it accepts.
- Multipart.ReadsBackExactlyWhenPartsAreReadable: not where the last part has neither header line nor empty line and the epilogue holds the delimiter, because `EpilogueCanStandIn` there.
- AutoScaling.Server.Process: paths, methods and signatures of requests are checked before the dispatch and change nothing.
- Timestamps, etags, links and labels of table and job resources: no property here depends on them.
- Copy, load and extract jobs, and their row buffers: they do not take the table lock, and add no law beyond those of the buffer.
- Paging of query responses and list operations of BigQuery: reads with easy properties.
- AutoScaling.Server.FindTargets: what is found is a map from keys; the list answered is in the order of the keys, and its timestamps are not shown. The same of `FindPolicies` and `FindActions`.
- InsertAll.InsertRows: lists the positions of invalid rows without the messages of their errors.
- The per-key dispatch of `apply_config_value` and the default tables: a settings sink with an arbitrary check.
- `canonical_headers`, signatures and credential scopes: hashing and joining without a hard law.
- JSON configurations of scaling policies and actions are kept as their text.
- Orchestrator processes, other services, dashboards and front ends.
