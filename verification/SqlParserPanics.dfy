/** The inputs on which the parser slices its text with the end before the start. */
module SqlParserPanics {
  import opened Common
  import opened JsonDecoding
  import opened RustStr
  import opened SqlAst
  import opened SqlParser
  import opened Words
  import SqlPrinter
  import SqlRoundTrip
  import Utf8

  // --- nothing else panics ---

  lemma ListDoesNotPanic(selected: string)
    ensures SelectList(selected) != Err(Panicked)
  {
    hide AggregateCall, FieldList, Split, Trim, WithoutAlias, Grouping;
    PartsDoNotPanic(selected);
    forall s ensures AggregateSelection(s) != Err(Panicked) { PartsDoNotPanic(s); }
    hide AggregateSelection;
  }

  lemma PartsDoNotPanic(s: string)
    ensures AggregateSelection(s) != Err(Panicked)
  {
    hide FunctionOf, Trim, TrimMatches, Find, Upper;
  }

  lemma TableDoesNotPanic(s: string, project: string)
    ensures TableIdentifier(s, project) != Err(Panicked)
  {
    hide Split, Trim, TrimMatches;
  }

  lemma ConditionDoesNotPanic(d: Decoder, s: string)
    ensures ParseCondition(d, s) != Err(Panicked)
  {
    hide Trim, TrimMatches, FirstOperator, Upper, Quote, Utf8.Encode;
  }

  lemma {:induction false} EachDoesNotPanic(d: Decoder, parts: seq<string>)
    ensures ParseEach(d, parts) != Err(Panicked)
  {
    hide ParseCondition;
    if parts != [] {
      ConditionDoesNotPanic(d, parts[0]);
      EachDoesNotPanic(d, parts[1..]);
    }
  }

  lemma {:induction false} GroupsDoNotPanic(d: Decoder, groups: seq<string>)
    ensures ParseGroups(d, groups) != Err(Panicked)
  {
    hide ParseEach, SplitOnKeyword;
    if groups != [] {
      EachDoesNotPanic(d, SplitOnKeyword(groups[0], "AND"));
      GroupsDoNotPanic(d, groups[1..]);
    }
  }

  // --- the SELECT list ---

  lemma FromNeedsSpace(upper: string, j: nat)
    requires "SELECT " <= upper && j < 7
    ensures OccursAt(upper, " FROM ", j) <==> j == 6 && "SELECT FROM " <= upper
  {
    OccursStarts(upper, " FROM ", j);
    assert upper[j] == "SELECT "[j];
    if j == 6 {
      if OccursAt(upper, " FROM ", 6) { assert upper[..12] == upper[..6] + upper[6..12]; }
      if "SELECT FROM " <= upper { assert upper[6..12] == upper[..12][6..]; }
    }
  }

  /** `SELECT` directly followed by `FROM` ends in a panic, and nothing else before the clauses does. */
  lemma HeadPanicsExactly(query: string, project: string)
    ensures Head(query, project) == Err(Panicked) <==> "SELECT FROM " <= Upper(query)
  {
    hide NextToken, Trim, TableIdentifier, SelectList, Upper;
    var upper := Upper(query);
    if "SELECT FROM " <= upper {
      SelectStarts(upper);
      FromNeedsSpace(upper, 6);
      FoundAtMost(upper, " FROM ", 6);
    } else if "SELECT " <= upper {
      var found := Find(upper, " FROM ");
      if found.Some? && found.value < 7 { FromNeedsSpace(upper, found.value); }
      if found.Some? && found.value >= 7 {
        ListDoesNotPanic(Trim(query[7..found.value]));
        TableDoesNotPanic(NextToken(Trim(query[found.value + 6..])).0, project);
      }
    }
  }

  lemma SelectStarts(upper: string)
    requires "SELECT FROM " <= upper
    ensures "SELECT " <= upper && upper != ""
  {
  }

  lemma FoundAtMost(t: string, needle: string, j: nat)
    requires OccursAt(t, needle, j)
    ensures Find(t, needle).Some? && Find(t, needle).value <= j
  {
  }

  // --- WHERE ---

  lemma {:induction false} FirstMarkerBound(upper: string, markers: seq<string>)
    ensures forall i, j: nat ::
              0 <= i < |markers| && OccursAt(upper, markers[i], j) ==> FirstMarker(upper, markers) <= j
    ensures FirstMarker(upper, markers) == |upper|
            || exists i :: 0 <= i < |markers| && OccursAt(upper, markers[i], FirstMarker(upper, markers))
  {
    if markers != [] {
      FirstMarkerBound(upper, markers[1..]);
      forall j: nat | OccursAt(upper, markers[0], j)
        ensures FirstMarker(upper, markers) <= j
      {
        FoundAtMost(upper, markers[0], j);
      }
      assert forall i :: 0 < i < |markers| ==> markers[i] == markers[1..][i - 1];
    }
  }

  lemma MarkerNeedsSpace(upper: string, i: nat, j: nat)
    requires "WHERE " <= upper && i < |MARKERS| && j < 6
    ensures OccursAt(upper, MARKERS[i], j) <==> j == 5 && "WHERE" + MARKERS[i] <= upper
  {
    var m := MARKERS[i];
    assert m[0] == ' ';
    OccursStarts(upper, m, j);
    assert upper[j] == "WHERE "[j];
    if j == 5 {
      if OccursAt(upper, m, 5) { assert upper[..5 + |m|] == upper[..5] + upper[5..5 + |m|]; }
      if "WHERE" + m <= upper { assert upper[5..5 + |m|] == upper[..5 + |m|][5..]; }
    }
  }

  /** A WHERE clause ends in a panic exactly when its condition is missing and another clause follows. */
  lemma WherePanicsExactly(d: Decoder, p: Parsing)
    requires "WHERE " <= Upper(p.rest)
    ensures WhereClause(d, p) == Err(Panicked)
            <==> exists i :: 0 <= i < |MARKERS| && "WHERE" + MARKERS[i] <= Upper(p.rest)
  {
    hide Trim, ParseGroups, FirstMarker, SplitOnKeyword, Upper, OccursAt;
    var upper := Upper(p.rest);
    var end := FirstMarker(upper, MARKERS);
    FirstMarkerBound(upper, MARKERS);
    forall i | 0 <= i < |MARKERS|
      ensures OccursAt(upper, MARKERS[i], 5) <==> "WHERE" + MARKERS[i] <= upper
    {
      MarkerNeedsSpace(upper, i, 5);
    }
    if end < 6 {
      var i :| 0 <= i < |MARKERS| && OccursAt(upper, MARKERS[i], end);
      MarkerNeedsSpace(upper, i, end);
    } else {
      GroupsDoNotPanic(d, SplitOnKeyword(Trim(p.rest[6..end]), "OR"));
    }
  }

  // --- the whole parse ---

  /** The text starts with a WHERE clause whose condition is missing before another clause. */
  predicate MissingCondition(rest: string) {
    exists i :: 0 <= i < |MARKERS| && "WHERE" + MARKERS[i] <= Upper(rest)
  }

  /** The clause loop comes to such a text. */
  predicate ComesToMissingCondition(d: Decoder, p: Parsing)
    decreases |p.rest|
  {
    && p.rest != ""
    && (|| MissingCondition(p.rest)
        || var next := Clause(d, p); next.Ok? && ComesToMissingCondition(d, next.value))
  }

  lemma MissingIsWhere(rest: string)
    requires MissingCondition(rest)
    ensures "WHERE " <= Upper(rest)
  {
    hide Upper;
    var i :| 0 <= i < |MARKERS| && "WHERE" + MARKERS[i] <= Upper(rest);
    assert ("WHERE" + MARKERS[i])[..6] == "WHERE ";
    assert Upper(rest)[..6] == ("WHERE" + MARKERS[i])[..6];
  }

  lemma ClausePanicsExactly(d: Decoder, p: Parsing)
    ensures Clause(d, p) == Err(Panicked) <==> MissingCondition(p.rest)
  {
    hide Upper, WhereClause, NextToken, Trim, TrimMatches, ParseCount, Direction, MissingCondition;
    if "WHERE " <= Upper(p.rest) {
      WherePanicsExactly(d, p);
      MissingMeans(p.rest);
    } else if MissingCondition(p.rest) {
      MissingIsWhere(p.rest);
    }
  }

  lemma MissingMeans(rest: string)
    ensures MissingCondition(rest) <==> exists i :: 0 <= i < |MARKERS| && "WHERE" + MARKERS[i] <= Upper(rest)
  {
  }

  lemma {:induction false} ClausesPanicExactly(d: Decoder, p: Parsing)
    ensures Clauses(d, p) == Err(Panicked) <==> ComesToMissingCondition(d, p)
    decreases |p.rest|
  {
    hide Clause, MissingCondition;
    if p.rest != "" {
      ClausePanicsExactly(d, p);
      if Clause(d, p).Ok? { ClausesPanicExactly(d, Clause(d, p).value); }
    }
  }

  /** The text that is parsed: without its semicolon and the white space around it. */
  function QueryText(raw: string): string {
    Trim(WithoutSemicolon(raw))
  }

  /** Parsing panics exactly on a text that starts with SELECT FROM, and where the clause loop comes to a
      WHERE whose condition is missing before another clause. */
  lemma ParsePanicsExactly(d: Decoder, raw: string, project: string)
    ensures ParseSelect(d, raw, project) == Err(Panicked)
            <==> || "SELECT FROM " <= Upper(QueryText(raw))
                 || (Head(QueryText(raw), project).Ok?
                     && ComesToMissingCondition(d, Head(QueryText(raw), project).value))
  {
    hide Head, Clauses, ComesToMissingCondition, Trim, WithoutSemicolon, Upper;
    HeadPanicsExactly(QueryText(raw), project);
    var head := Head(QueryText(raw), project);
    if head.Ok? { ClausesPanicExactly(d, head.value); }
  }

  // --- where it cannot panic ---

  lemma {:induction false} TrimStartIs(s: string) returns (i: nat)
    ensures i <= |s| && TrimStart(s) == s[i..]
  {
    i := 0;
    if s != "" && IsWhitespace(s[0]) {
      var k := TrimStartIs(s[1..]);
      i := k + 1;
    }
  }

  lemma {:induction false} TrimEndIs(s: string) returns (j: nat)
    ensures j <= |s| && TrimEnd(s) == s[..j]
  {
    j := |s|;
    if s != "" && IsWhitespace(s[|s| - 1]) {
      j := TrimEndIs(s[..|s| - 1]);
    }
  }

  lemma TrimIs(s: string) returns (i: nat, j: nat)
    ensures i <= j <= |s| && Trim(s) == s[i..j]
  {
    i := TrimStartIs(s);
    var k := TrimEndIs(s[i..]);
    j := i + k;
  }

  lemma SliceOfSlice(s: string, a: nat, b: nat, k: nat, l: nat)
    requires a <= b <= |s| && k <= l <= b - a
    ensures s[a..b][k..l] == s[a + k..a + l]
  {
    var (x, y) := (s[a..b][k..l], s[a + k..a + l]);
    assert |x| == |y|;
    forall i | 0 <= i < |x| ensures x[i] == y[i] {
      assert s[a..b][k + i] == s[a + (k + i)];
    }
  }

  lemma NextTokenIs(v: string) returns (i: nat, j: nat)
    ensures i <= j <= |v| && NextToken(v).1 == v[i..j]
  {
    hide Trim, TokenEnd;
    var (t, rest) := (Trim(v), NextToken(v).1);
    var a, b := TrimIs(v);
    var close := if t != "" && t[0] == '`' then Find(t[1..], "`") else None;
    var end := if close.Some? then close.value + 2 else TokenEnd(t);
    var k, l := TrimIs(t[end..]);
    i, j := a + end + k, a + end + l;
    assert t[end..] == t[end..|t|];
    SliceOfSlice(v, a, b, end, b - a);
    SliceOfSlice(v, a + end, b, k, l);
  }

  lemma TrimmedTokenIs(v: string) returns (i: nat, j: nat)
    ensures i <= j <= |v| && Trim(NextToken(Trim(v)).1) == v[i..j]
  {
    hide Trim, NextToken;
    var a, b := TrimIs(v);
    var k, l := NextTokenIs(Trim(v));
    var x, y := TrimIs(NextToken(Trim(v)).1);
    i, j := a + k + x, a + k + y;
    SliceOfSlice(v, a, b, k, l);
    SliceOfSlice(v, a + k, a + l, x, y);
  }

  lemma DirectionIs(p: Parsing) returns (i: nat, j: nat)
    ensures i <= j <= |p.rest| && Direction(p).rest == p.rest[i..j]
  {
    hide Trim, NextToken, Upper;
    i, j := 0, |p.rest|;
    if Direction(p).rest != p.rest {
      var k, l := NextTokenIs(p.rest);
      var x, y := TrimIs(NextToken(p.rest).1);
      i, j := k + x, k + y;
      SliceOfSlice(p.rest, k, l, x, y);
    }
  }

  /** What a clause leaves is a part of what it found. */
  lemma ClauseLeavesPart(d: Decoder, p: Parsing) returns (i: nat, j: nat)
    requires Clause(d, p).Ok?
    ensures i <= j <= |p.rest| && Clause(d, p).value.rest == p.rest[i..j]
  {
    hide Trim, NextToken, Upper, ParseCount, ParseWhere, FirstMarker, Direction, TrimMatches;
    var upper := Upper(p.rest);
    if "WHERE " <= upper {
      i, j := AfterTrimmed(p.rest, FirstMarker(upper, MARKERS));
    } else if "GROUP BY " <= upper {
      i, j := AfterToken(p.rest, 9);
    } else if "ORDER BY " <= upper {
      i, j := OrderByLeavesPart(p);
    } else if "LIMIT " <= upper {
      i, j := AfterToken(p.rest, 6);
    } else {
      i, j := AfterToken(p.rest, 7);
    }
  }

  lemma AfterTrimmed(s: string, n: nat) returns (i: nat, j: nat)
    requires n <= |s|
    ensures i <= j <= |s| && Trim(s[n..]) == s[i..j]
  {
    hide Trim;
    var k, l := TrimIs(s[n..]);
    SliceOfSlice(s, n, |s|, k, l);
    i, j := n + k, n + l;
  }

  lemma AfterToken(s: string, n: nat) returns (i: nat, j: nat)
    requires n <= |s|
    ensures i <= j <= |s| && Trim(NextToken(Trim(s[n..])).1) == s[i..j]
  {
    hide Trim, NextToken;
    var k, l := TrimmedTokenIs(s[n..]);
    SliceOfSlice(s, n, |s|, k, l);
    i, j := n + k, n + l;
  }

  lemma OrderByLeavesPart(p: Parsing) returns (i: nat, j: nat)
    requires "ORDER BY " <= Upper(p.rest) && OrderByClause(p).Ok?
    ensures i <= j <= |p.rest| && OrderByClause(p).value.rest == p.rest[i..j]
  {
    hide Trim, NextToken, Upper, Direction, TrimMatches;
    var k, l := AfterToken(p.rest, 9);
    var (field, suffix) := NextToken(Trim(p.rest[9..]));
    var x, y := DirectionIs(Parsing(Trim(suffix), p.query.(orderBy := TrimMatches(field, '`'))));
    SliceOfSlice(p.rest, k, l, x, y);
    i, j := k + x, k + y;
  }

  lemma HeadLeavesPart(query: string, project: string) returns (i: nat, j: nat)
    requires Head(query, project).Ok?
    ensures i <= j <= |query| && Head(query, project).value.rest == query[i..j]
  {
    hide Trim, NextToken, Upper, SelectList, TableIdentifier;
    var from := Find(Upper(query), " FROM ").value;
    i, j := AfterToken(query, from + 6);
  }

  lemma UpperOfPart(s: string, i: nat, j: nat, needle: string, k: nat)
    requires i <= j <= |s| && OccursAt(Upper(s[i..j]), needle, k)
    ensures OccursAt(Upper(s), needle, i + k)
  {
    assert Upper(s)[i + k..i + k + |needle|] == Upper(s[i..j])[k..k + |needle|];
  }

  lemma {:induction false} MissingConditionIsInText(d: Decoder, p: Parsing) returns (i: nat, k: nat)
    requires ComesToMissingCondition(d, p)
    ensures i < |MARKERS| && OccursAt(Upper(p.rest), "WHERE" + MARKERS[i], k)
    decreases |p.rest|
  {
    hide Clause, Upper, OccursAt, MissingCondition;
    if MissingCondition(p.rest) {
      i := MissingConditionStarts(p.rest);
      k := 0;
    } else {
      var next := Clause(d, p).value;
      var a, b := ClauseLeavesPart(d, p);
      var l;
      i, l := MissingConditionIsInText(d, next);
      UpperOfPart(p.rest, a, b, "WHERE" + MARKERS[i], l);
      k := a + l;
    }
  }

  lemma MissingConditionStarts(rest: string) returns (i: nat)
    requires MissingCondition(rest)
    ensures i < |MARKERS| && OccursAt(Upper(rest), "WHERE" + MARKERS[i], 0)
  {
    hide Upper, OccursAt;
    i :| 0 <= i < |MARKERS| && "WHERE" + MARKERS[i] <= Upper(rest);
    PrefixOccurs(Upper(rest), "WHERE" + MARKERS[i]);
  }

  lemma PrefixOccurs(s: string, prefix: string)
    requires prefix <= s
    ensures OccursAt(s, prefix, 0)
  {
  }

  /** No panic on a text that neither starts with SELECT FROM nor holds WHERE with another clause right
      after it. */
  lemma NoPanicWithoutTheTexts(d: Decoder, raw: string, project: string)
    requires !("SELECT FROM " <= Upper(QueryText(raw)))
    requires forall i :: 0 <= i < |MARKERS| ==> !Contains(Upper(QueryText(raw)), "WHERE" + MARKERS[i])
    ensures ParseSelect(d, raw, project) != Err(Panicked)
  {
    hide ParseSelect, Head, ComesToMissingCondition, Upper, OccursAt, QueryText;
    var text := QueryText(raw);
    ParsePanicsExactly(d, raw, project);
    var head := Head(text, project);
    if head.Ok? && ComesToMissingCondition(d, head.value) { MissingConditionIsHeld(d, text, project); }
  }

  lemma MissingConditionIsHeld(d: Decoder, text: string, project: string)
    requires Head(text, project).Ok? && ComesToMissingCondition(d, Head(text, project).value)
    ensures exists i :: 0 <= i < |MARKERS| && Contains(Upper(text), "WHERE" + MARKERS[i])
  {
    hide Head, ComesToMissingCondition, Upper, OccursAt;
    var i, k := MissingConditionIsInText(d, Head(text, project).value);
    var a, b := HeadLeavesPart(text, project);
    UpperOfPart(text, a, b, "WHERE" + MARKERS[i], k);
    FoundAtMost(Upper(text), "WHERE" + MARKERS[i], a + k);
  }

  // --- queries that panic ---

  /** After tight text, a space and anything, the text to be parsed ends where that has its end. */
  lemma TextAfter(head: string, x: string)
    requires Tight(head)
    ensures QueryText(head + " " + x)
            == if QueryText(x) == "" then head else head + " " + TrimEnd(WithoutSemicolon(x))
  {
    hide Trim, TrimEnd;
    var (s, y) := (head + " " + x, WithoutSemicolon(x));
    assert WithoutSemicolon(s) == head + (" " + y) by {
      assert x != "" ==> s[..|s| - 1] == head + (" " + x[..|x| - 1]);
      assert s == head + (" " + x);
    }
    TrimAfter(head, " " + y);
    TrimAfterSpace(y);
    assert head + (" " + TrimEnd(y)) == head + " " + TrimEnd(y) && head + "" == head;
  }

  /** SELECT FROM panics exactly when anything follows. */
  lemma SelectFromPanicsExactly(d: Decoder, x: string, project: string)
    ensures ParseSelect(d, "SELECT FROM " + x, project) == Err(Panicked) <==> QueryText(x) != ""
  {
    hide ParseSelect, Head, ComesToMissingCondition, Trim, TrimEnd, QueryText, Upper;
    assert "SELECT FROM " + x == "SELECT FROM" + " " + x;
    SelectFromIsUpper();
    TextAfter("SELECT FROM", x);
    ParsePanicsExactly(d, "SELECT FROM " + x, project);
    if QueryText(x) != "" {
      var rest := TrimEnd(WithoutSemicolon(x));
      assert "SELECT FROM" + " " + rest == "SELECT FROM " + rest;
      UpperConcat("SELECT FROM ", rest);
    } else {
      SelectFromAlone(project);
    }
  }

  lemma SelectFromIsUpper()
    ensures Upper("SELECT FROM ") == "SELECT FROM " && Tight("SELECT FROM")
  {
  }

  lemma SelectFromAlone(project: string)
    ensures Head("SELECT FROM", project) == Err(FromRequired) && Upper("SELECT FROM") == "SELECT FROM"
  {
    var text := "SELECT FROM";
    assert Upper(text) == text;
    forall j: nat ensures !OccursAt(text, " FROM ", j) {
      OccursStarts(text, " FROM ", j);
    }
    hide Upper, SelectList, TableIdentifier, NextToken;
  }

  /** A SELECT list and a table, and a tail that follows them. */
  function WithTail(q: Query, tail: string): string {
    "SELECT " + SqlPrinter.PrintList(q) + " FROM " + (SqlPrinter.PrintTable(q.source) + tail)
  }

  predicate HasHead(q: Query) {
    && SqlPrinter.CleanShape(q)
    && SqlPrinter.IsTablePart(q.source.project) && SqlPrinter.IsTablePart(q.source.dataset)
    && SqlPrinter.IsTablePart(q.source.table)
  }

  lemma TailPanicsExactly(d: Decoder, raw: string, q: Query, tail: string, project: string)
    requires HasHead(q) && IsTail(tail) && QueryText(raw) == WithTail(q, tail)
    ensures ParseSelect(d, raw, project) == Err(Panicked)
            <==> ComesToMissingCondition(d, Parsing(AfterSpace(tail), SqlRoundTrip.Started(q)))
  {
    hide ParseSelect, Head, ComesToMissingCondition, QueryText, Upper, IsTail, AfterSpace;
    hide SqlPrinter.CleanShape, SqlPrinter.IsTablePart, SqlPrinter.PrintList, SqlPrinter.PrintTable;
    hide SqlRoundTrip.Started;
    SqlRoundTrip.HeadWithTail(q, tail, project);
    HeadPanicsExactly(QueryText(raw), project);
    ParsePanicsExactly(d, raw, project);
  }

  lemma ComesAtOnce(d: Decoder, p: Parsing)
    requires p.rest != "" && MissingCondition(p.rest)
    ensures ComesToMissingCondition(d, p)
  {
  }

  /** A marker without the space at its end. */
  function Marker(i: nat): string
    requires i < |MARKERS|
  {
    MARKERS[i][..|MARKERS[i]| - 1]
  }

  lemma MarkerTexts(i: nat)
    requires i < |MARKERS|
    ensures Marker(i) + " " == MARKERS[i] && IsTail(" WHERE" + Marker(i))
    ensures AfterSpace(" WHERE" + Marker(i)) == "WHERE" + Marker(i)
    ensures Upper("WHERE" + Marker(i)) == "WHERE" + Marker(i)
    ensures Upper("WHERE" + MARKERS[i]) == "WHERE" + MARKERS[i]
  {
    MarkerIsUpper(i);
    MarkerEnds(i);
    hide Upper, Marker, IsWhitespace;
    var (m, t) := (Marker(i), " WHERE" + Marker(i));
    UpperConcat("WHERE", m);
    UpperConcat("WHERE", MARKERS[i]);
    assert t[1..] == "WHERE" + m && t[1..][|t| - 2] == m[|m| - 1];
  }

  lemma MarkerEnds(i: nat)
    requires i < |MARKERS|
    ensures var m := Marker(i); m != "" && !IsWhitespace(m[|m| - 1]) && m + " " == MARKERS[i] && !IsWhitespace('W')
  {
  }

  lemma MarkerIsUpper(i: nat)
    requires i < |MARKERS|
    ensures Upper(Marker(i)) == Marker(i) && Upper(MARKERS[i]) == MARKERS[i] && Upper("WHERE") == "WHERE"
  {
  }

  /** No WHERE and marker occurs in WHERE and a marker without its last space. */
  lemma NothingMissing(i: nat, j: nat, k: nat)
    requires i < |MARKERS| && j < |MARKERS|
    ensures !OccursAt("WHERE" + Marker(i), "WHERE" + MARKERS[j], k)
  {
    var (t, needle) := ("WHERE" + Marker(i), "WHERE" + MARKERS[j]);
    OccursStarts(t, needle, k);
    if k == 0 && |needle| <= |t| {
      assert t[6] != needle[6] || t[7] != needle[7];
      assert t[..|needle|][6] == t[6] && t[..|needle|][7] == t[7];
    }
  }

  /** Any SELECT list and table, and WHERE directly before another clause's keyword: a panic exactly when
      anything follows. */
  lemma BareWherePanicsExactly(d: Decoder, q: Query, i: nat, x: string, project: string)
    requires HasHead(q) && i < |MARKERS|
    ensures ParseSelect(d, WithTail(q, " WHERE" + MARKERS[i]) + x, project) == Err(Panicked) <==> QueryText(x) != ""
  {
    hide *;
    MarkerTexts(i);
    var (short, tail) := (" WHERE" + Marker(i), " WHERE" + MARKERS[i] + TrimEnd(WithoutSemicolon(x)));
    var raw := WithTail(q, " WHERE" + MARKERS[i]) + x;
    Regroup(" WHERE", Marker(i), " ");
    TextOfTail(q, short, x, project);
    if QueryText(x) == "" {
      TailPanicsExactly(d, raw, q, short, project);
      if ComesToMissingCondition(d, Parsing("WHERE" + Marker(i), SqlRoundTrip.Started(q))) {
        var j, k := MissingConditionIsInText(d, Parsing("WHERE" + Marker(i), SqlRoundTrip.Started(q)));
        NothingMissing(i, j, k);
      }
    } else {
      TailPanicsExactly(d, raw, q, tail, project);
      MissingAt(i, TrimEnd(WithoutSemicolon(x)));
      ComesAtOnce(d, Parsing(AfterSpace(tail), SqlRoundTrip.Started(q)));
    }
  }

  lemma MissingAt(i: nat, x: string)
    requires i < |MARKERS|
    ensures var tail := " WHERE" + MARKERS[i] + x;
            AfterSpace(tail) != "" && MissingCondition(AfterSpace(tail))
  {
    hide Upper;
    var tail := " WHERE" + MARKERS[i] + x;
    assert tail[1..] == "WHERE" + MARKERS[i] + x;
    MarkerTexts(i);
    UpperConcat("WHERE" + MARKERS[i], x);
  }

  /** After a tail, a space and anything, the tail is longer, or not if there is nothing. */
  lemma TextOfTail(q: Query, tail: string, x: string, project: string)
    requires HasHead(q) && IsTail(tail) && tail != ""
    ensures var raw := WithTail(q, tail + " ") + x;
            if QueryText(x) == "" then QueryText(raw) == WithTail(q, tail)
            else
              var longer := tail + " " + TrimEnd(WithoutSemicolon(x));
              IsTail(longer) && QueryText(raw) == WithTail(q, longer)
  {
    hide *;
    var head := WithTail(q, tail);
    HeadIsTight(q, tail, project);
    AppendedTail(q, tail, " ");
    TextAfter(head, x);
    if QueryText(x) != "" {
      var rest := TrimEnd(WithoutSemicolon(x));
      AppendedTail(q, tail + " ", rest);
      RestEnds(x);
      LongerTail(tail, rest);
    }
  }

  lemma AppendedTail(q: Query, tail: string, more: string)
    ensures WithTail(q, tail + more) == WithTail(q, tail) + more
  {
    hide SqlPrinter.PrintList, SqlPrinter.PrintTable;
    var (front, table) := ("SELECT " + SqlPrinter.PrintList(q) + " FROM ", SqlPrinter.PrintTable(q.source));
    assert table + (tail + more) == (table + tail) + more;
    assert front + ((table + tail) + more) == (front + (table + tail)) + more;
  }

  lemma HeadIsTight(q: Query, tail: string, project: string)
    requires HasHead(q) && IsTail(tail)
    ensures Tight(WithTail(q, tail))
  {
    hide Tight, IsTail, SqlPrinter.CleanShape, SqlPrinter.IsTablePart, SqlPrinter.PrintList, SqlPrinter.PrintTable;
    SqlRoundTrip.HeadWithTail(q, tail, project);
  }

  lemma RestEnds(x: string)
    requires QueryText(x) != ""
    ensures var rest := TrimEnd(WithoutSemicolon(x)); rest != "" && !IsWhitespace(rest[|rest| - 1])
  {
    hide Trim, TrimEnd, IsWhitespace;
    var y := WithoutSemicolon(x);
    TrimAfterSpace(y);
    BlankAtEnd(y);
    TrimEndEnds(y);
  }

  lemma LongerTail(tail: string, rest: string)
    requires IsTail(tail) && tail != "" && rest != "" && !IsWhitespace(rest[|rest| - 1])
    ensures IsTail(tail + " " + rest)
  {
    assert (tail + " " + rest)[1..] == tail[1..] + " " + rest;
  }

  // --- a query without its condition ---

  /** A clean query, written out with its condition left out and a semicolon after it, panics exactly when
      another clause follows. */
  lemma LeftOutConditionPanicsExactly(d: Decoder, q: Query, project: string)
    requires SqlPrinter.Clean(d, q)
    ensures ParseSelect(d, WithTail(q, " WHERE" + SqlPrinter.GroupByTail(q)) + ";", project) == Err(Panicked)
            <==> SqlPrinter.GroupByTail(q) != ""
  {
    assert HasHead(q) by { hide SqlPrinter.CleanShape, SqlPrinter.IsTablePart, SqlPrinter.CleanGroup; }
    SqlRoundTrip.TailNames(d, q);
    hide *;
    var rest := SqlPrinter.GroupByTail(q);
    SqlRoundTrip.GroupByTailText(q);
    var tail := " WHERE" + rest;
    WhereBefore(rest);
    HeadIsTight(q, tail, project);
    TextBeforeSemicolon(WithTail(q, tail));
    TailPanicsExactly(d, WithTail(q, tail) + ";", q, tail, project);
    var p := Parsing("WHERE" + rest, SqlRoundTrip.Started(q));
    if rest != "" { ComesAtOnce(d, p); } else { WhereAlone(d, p); }
  }

  lemma WhereBefore(rest: string)
    requires SqlRoundTrip.IsClauseTail(rest)
    ensures IsTail(" WHERE" + rest) && AfterSpace(" WHERE" + rest) == "WHERE" + rest && "WHERE" + rest != ""
    ensures rest != "" ==> MissingCondition("WHERE" + rest)
  {
    assert (" WHERE" + rest)[1..] == "WHERE" + rest;
    UpperConcat("WHERE", rest);
    assert Upper("WHERE") == "WHERE";
    hide Upper;
    if rest != "" {
      var i :| 0 <= i < |MARKERS| && MARKERS[i] <= Upper(rest);
      assert "WHERE" + MARKERS[i] <= "WHERE" + Upper(rest);
    }
  }

  lemma TextBeforeSemicolon(s: string)
    requires Tight(s)
    ensures QueryText(s + ";") == s
  {
    hide Trim;
    SqlRoundTrip.Semicolons(s);
    TrimTight(s);
  }

  lemma WhereAlone(d: Decoder, p: Parsing)
    requires p.rest == "WHERE" + ""
    ensures !ComesToMissingCondition(d, p)
  {
    assert Upper(p.rest) == "WHERE";
    hide Upper;
  }
}
