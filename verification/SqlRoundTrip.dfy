/** Printing a clean query and parsing the text gives the query back. */
module SqlRoundTrip {
  import opened Common
  import opened JsonDecoding
  import opened Numerals
  import opened RustStr
  import opened SqlAst
  import opened SqlParser
  import opened SqlPrinter
  import opened Words
  import L = SqlRoundTripList
  import Text
  import Utf8
  import W = SqlRoundTripWhere

  // --- one token ---

  lemma {:induction false} TokenEndsAtTail(w: string, tail: string)
    requires (forall i :: 0 <= i < |w| ==> !IsWhitespace(w[i])) && (tail == "" || tail[0] == ' ')
    ensures TokenEnd(w + tail) == |w|
  {
    if w == "" {
      assert w + tail == tail;
    } else {
      assert (w + tail)[1..] == w[1..] + tail;
      TokenEndsAtTail(w[1..], tail);
      EndsTokenIsSpace(w[0]);
    }
  }

  lemma EndsTokenIsSpace(c: char)
    ensures EndsToken(c) ==> IsWhitespace(c)
  {
  }

  lemma WordIsTight(w: string)
    requires IsWord(w)
    ensures Tight(w)
  {
  }

  lemma TokenIsTaken(w: string, tail: string)
    requires IsWord(w) && w[0] != '`' && IsTail(tail)
    ensures NextToken(w + tail) == (w, AfterSpace(tail)) && Tight(w + tail)
  {
    hide Trim;
    var s := w + tail;
    WordIsTight(w);
    TightWithTail(w, tail);
    TrimTight(s);
    TokenEndsAtTail(w, tail);
    TrimTail(tail);
    assert s[0] == w[0] && s[|w|..] == tail && s[..|w|] == w;
  }

  // --- numbers ---

  lemma {:induction false} DecimalBytes(n: nat)
    ensures Utf8.Encode(Text.Decimal(n)) == ShowNat(n)
    ensures IsWord(Text.Decimal(n)) && Text.Decimal(n)[0] != '`'
  {
    OneDigit(n % 10);
    if n >= 10 {
      DecimalBytes(n / 10);
      Utf8.EncodeConcat(Text.Decimal(n / 10), [Text.DigitChar(n % 10)]);
    }
  }

  lemma OneDigit(k: nat)
    requires k < 10
    ensures Utf8.Encode([Text.DigitChar(k)]) == [48 + k] && !IsWhitespace(Text.DigitChar(k)) && Text.DigitChar(k) != '`'
  {
    assert [Text.DigitChar(k)][1..] == "";
  }

  lemma CountIsReadBack(n: nat)
    requires IsI64(n)
    ensures ParseCount(Text.Decimal(n)) == Some(n)
  {
    hide ParseI64;
    DecimalBytes(n);
    ShowIntReadsBack(n);
  }

  // --- the tails ---

  /** A tail that is empty or begins with one of the markers that end a WHERE condition. */
  predicate IsClauseTail(t: string) {
    IsTail(t) && (t == "" || exists i :: 0 <= i < |MARKERS| && MARKERS[i] <= Upper(t))
  }

  lemma KeywordTail(marker: string, w: string, tail: string, i: nat)
    requires i < |MARKERS| && MARKERS[i] == marker && IsWord(w) && IsTail(tail)
    ensures IsClauseTail(marker + w + tail)
    ensures AfterSpace(marker + w + tail) == marker[1..] + (w + tail) && Tight(marker[1..] + (w + tail))
    ensures marker[1..] <= Upper(marker[1..] + (w + tail))
  {
    hide Upper;
    var t := marker + w + tail;
    WordIsTight(w);
    TightWithTail(w, tail);
    MarkerShape(i);
    assert t == marker + (w + tail);
    assert t[1..] == marker[1..] + (w + tail);
    assert t[1..][|t| - 2] == (w + tail)[|w + tail| - 1];
    UpperConcat(marker, w + tail);
    UpperConcat(marker[1..], w + tail);
    assert MARKERS[i] <= Upper(t);
  }

  lemma MarkerShape(i: nat)
    requires i < |MARKERS|
    ensures MARKERS[i][0] == ' ' && |MARKERS[i]| > 1 && !IsWhitespace(MARKERS[i][1])
    ensures Upper(MARKERS[i]) == MARKERS[i] && Upper(MARKERS[i][1..]) == MARKERS[i][1..]
  {
  }

  lemma OffsetTailText(q: Query)
    ensures IsClauseTail(OffsetTail(q))
    ensures q.offset > 0 ==> AfterSpace(OffsetTail(q)) == "OFFSET " + (Text.Decimal(q.offset) + "")
  {
    hide Upper;
    if q.offset > 0 {
      DecimalBytes(q.offset);
      var w := Text.Decimal(q.offset);
      KeywordTail(" OFFSET ", w, "", 3);
      assert " OFFSET " + w + "" == " OFFSET " + w;
      assert " OFFSET "[1..] == "OFFSET ";
    }
  }

  lemma LimitTailText(q: Query)
    ensures IsClauseTail(LimitTail(q))
    ensures q.limit >= 0 ==> AfterSpace(LimitTail(q)) == "LIMIT " + (Text.Decimal(q.limit) + OffsetTail(q))
  {
    hide Upper, OffsetTail;
    OffsetTailText(q);
    if q.limit >= 0 {
      DecimalBytes(q.limit);
      KeywordTail(" LIMIT ", Text.Decimal(q.limit), OffsetTail(q), 2);
      assert " LIMIT "[1..] == "LIMIT ";
    } else {
      assert "" + OffsetTail(q) == OffsetTail(q);
    }
  }

  function DirectionTail(q: Query): string {
    (if q.orderDesc then " DESC" else "") + LimitTail(q)
  }

  lemma DescTail(tail: string)
    requires IsTail(tail)
    ensures IsTail(" DESC" + tail) && AfterSpace(" DESC" + tail) == "DESC" + tail
  {
    DescIsWord();
    WordIsTight("DESC");
    TightWithTail("DESC", tail);
    assert " " + "DESC" == " DESC";
    assert (" DESC" + tail)[1..] == "DESC" + tail;
  }

  lemma DirectionTailText(q: Query)
    ensures IsTail(DirectionTail(q))
    ensures q.orderDesc ==> AfterSpace(DirectionTail(q)) == "DESC" + LimitTail(q)
    ensures !q.orderDesc ==> DirectionTail(q) == LimitTail(q)
  {
    hide Upper, LimitTail;
    LimitTailText(q);
    if q.orderDesc {
      ClauseTailIsTail(LimitTail(q));
      DescTail(LimitTail(q));
    } else {
      assert "" + LimitTail(q) == LimitTail(q);
    }
  }

  lemma OrderByTailText(q: Query)
    requires q.orderBy == "" || IsName(q.orderBy)
    ensures IsClauseTail(OrderByTail(q))
    ensures q.orderBy != "" ==> AfterSpace(OrderByTail(q)) == "ORDER BY " + (q.orderBy + DirectionTail(q))
  {
    hide Upper, LimitTail, IsName;
    LimitTailText(q);
    DirectionTailText(q);
    if q.orderBy != "" {
      L.NameIsWord(q.orderBy);
      KeywordTail(" ORDER BY ", q.orderBy, DirectionTail(q), 1);
      assert OrderByTail(q) == " ORDER BY " + q.orderBy + DirectionTail(q);
      assert " ORDER BY "[1..] == "ORDER BY ";
    } else {
      assert "" + LimitTail(q) == LimitTail(q);
    }
  }

  lemma GroupByTailText(q: Query)
    requires (q.orderBy == "" || IsName(q.orderBy)) && (q.groupBy == "" || IsName(q.groupBy))
    ensures IsClauseTail(GroupByTail(q))
    ensures q.groupBy != "" ==> AfterSpace(GroupByTail(q)) == "GROUP BY " + (q.groupBy + OrderByTail(q))
  {
    hide Upper, OrderByTail, IsName;
    OrderByTailText(q);
    if q.groupBy != "" {
      L.NameIsWord(q.groupBy);
      KeywordTail(" GROUP BY ", q.groupBy, OrderByTail(q), 0);
      assert " GROUP BY "[1..] == "GROUP BY ";
    } else {
      assert "" + OrderByTail(q) == OrderByTail(q);
    }
  }

  // --- one clause ---

  lemma NameStart(s: string)
    requires IsName(s)
    ensures s[0] != '`'
  {
  }

  lemma UpperStarts(k: string, x: string)
    requires Upper(k) == k
    ensures k <= Upper(k + x)
  {
    UpperConcat(k, x);
  }

  lemma KeywordsAreUpper()
    ensures Upper("GROUP BY ") == "GROUP BY " && Upper("ORDER BY ") == "ORDER BY " && Upper("LIMIT ") == "LIMIT "
    ensures Upper("OFFSET ") == "OFFSET " && Upper("WHERE ") == "WHERE "
  {
  }

  lemma Dispatch(d: Decoder, p: Parsing)
    ensures "GROUP BY " <= Upper(p.rest) ==> Clause(d, p) == GroupByClause(p)
    ensures "ORDER BY " <= Upper(p.rest) ==> Clause(d, p) == OrderByClause(p)
    ensures "LIMIT " <= Upper(p.rest) ==> Clause(d, p) == LimitClause(p)
    ensures "OFFSET " <= Upper(p.rest) ==> Clause(d, p) == OffsetClause(p)
  {
    hide Upper, WhereClause, GroupByClause, OrderByClause, LimitClause, OffsetClause;
    var u := Upper(p.rest);
    assert "WHERE " <= u ==> u[0] == 'W';
    assert "GROUP BY " <= u ==> u[0] == 'G';
    assert "ORDER BY " <= u ==> u[0] == 'O' && u[1] == 'R';
    assert "LIMIT " <= u ==> u[0] == 'L';
    assert "OFFSET " <= u ==> u[0] == 'O' && u[1] == 'F';
  }

  /** What the clause functions do with the token that follows their keyword. */
  lemma TokenAfter(k: string, w: string, tail: string)
    requires IsWord(w) && w[0] != '`' && IsTail(tail)
    ensures var s := k + (w + tail);
            && |s| > |k| && s[|k|..] == w + tail && Trim(w + tail) == w + tail
            && NextToken(w + tail) == (w, AfterSpace(tail)) && Trim(AfterSpace(tail)) == AfterSpace(tail)
  {
    hide NextToken, Trim;
    TokenIsTaken(w, tail);
    TrimTight(w + tail);
    TrimTail(tail);
  }

  lemma GroupByStep(d: Decoder, q: Query, g: string, tail: string)
    requires IsName(g) && IsTail(tail)
    ensures Clause(d, Parsing("GROUP BY " + (g + tail), q)) == Ok(Parsing(AfterSpace(tail), q.(groupBy := g)))
  {
    hide IsName, Clause, NextToken, Trim, TrimMatches, Upper, IsTail;
    KeywordsAreUpper();
    L.NameIsWord(g);
    NameStart(g);
    TokenAfter("GROUP BY ", g, tail);
    UpperStarts("GROUP BY ", g + tail);
    Dispatch(d, Parsing("GROUP BY " + (g + tail), q));
  }

  lemma LimitStep(d: Decoder, q: Query, n: nat, tail: string)
    requires IsI64(n) && IsTail(tail)
    ensures Clause(d, Parsing("LIMIT " + (Text.Decimal(n) + tail), q)) == Ok(Parsing(AfterSpace(tail), q.(limit := n)))
  {
    hide Clause, NextToken, Trim, Upper, IsTail, ParseCount;
    KeywordsAreUpper();
    DecimalBytes(n);
    CountIsReadBack(n);
    TokenAfter("LIMIT ", Text.Decimal(n), tail);
    UpperStarts("LIMIT ", Text.Decimal(n) + tail);
    Dispatch(d, Parsing("LIMIT " + (Text.Decimal(n) + tail), q));
  }

  lemma OffsetStep(d: Decoder, q: Query, n: nat)
    requires IsI64(n)
    ensures Clause(d, Parsing("OFFSET " + (Text.Decimal(n) + ""), q)) == Ok(Parsing("", q.(offset := n)))
  {
    hide Clause, NextToken, Trim, Upper, ParseCount;
    KeywordsAreUpper();
    DecimalBytes(n);
    CountIsReadBack(n);
    TokenAfter("OFFSET ", Text.Decimal(n), "");
    UpperStarts("OFFSET ", Text.Decimal(n) + "");
    Dispatch(d, Parsing("OFFSET " + (Text.Decimal(n) + ""), q));
  }

  lemma DirectionIsRead(q: Query, p: Parsing)
    requires p.rest == AfterSpace(DirectionTail(q)) && !p.query.orderDesc
    ensures Direction(p) == Parsing(AfterSpace(LimitTail(q)), p.query.(orderDesc := q.orderDesc))
  {
    hide Trim, LimitTail, NextToken, Upper, Text.Decimal;
    DirectionTailText(q);
    LimitTailText(q);
    if q.orderDesc {
      DescIsWord();
      TokenAfter("", "DESC", LimitTail(q));
    } else {
      NoDirection(q);
    }
  }

  lemma DescIsWord()
    ensures IsWord("DESC") && Upper("DESC") == "DESC" && "DESC"[0] != '`'
  {
  }

  /** After ORDER BY and a field, LIMIT and OFFSET are not taken for a direction: they are too long. */
  lemma NoDirection(q: Query)
    ensures |NextToken(AfterSpace(LimitTail(q))).0| !in {3, 4}
  {
    hide LimitTail, OffsetTail, NextToken, Trim, Text.Decimal, Upper, IsTail, AfterSpace;
    LimitTailText(q);
    OffsetTailText(q);
    LimitIsOffset(q);
    TheWords();
    if q.limit >= 0 {
      DecimalBytes(q.limit);
      WordThenMore("LIMIT", Text.Decimal(q.limit), OffsetTail(q));
    } else if q.offset > 0 {
      DecimalBytes(q.offset);
      EmptyIsTail();
      WordThenMore("OFFSET", Text.Decimal(q.offset), "");
    } else {
      EmptyIsTail();
      EmptyToken();
    }
  }

  lemma TheWords()
    ensures IsWord("LIMIT") && IsWord("OFFSET") && "LIMIT" + " " == "LIMIT " && "OFFSET" + " " == "OFFSET "
  {
  }

  lemma EmptyIsTail()
    ensures IsTail("") && AfterSpace("") == ""
  {
  }

  lemma LimitIsOffset(q: Query)
    ensures q.limit < 0 ==> LimitTail(q) == OffsetTail(q)
    ensures q.limit < 0 && q.offset <= 0 ==> LimitTail(q) == ""
  {
  }

  lemma EmptyToken()
    ensures NextToken("").0 == ""
  {
  }

  lemma WordThenMore(k: string, w: string, tail: string)
    requires IsWord(k) && k[0] != '`' && IsWord(w) && IsTail(tail)
    ensures NextToken(k + " " + (w + tail)).0 == k
  {
    hide NextToken;
    WordIsTight(w);
    TightWithTail(w, tail);
    var t := " " + (w + tail);
    assert t[1..] == w + tail;
    TokenIsTaken(k, t);
    assert k + " " + (w + tail) == k + t;
  }

  lemma OrderByStep(d: Decoder, q0: Query, q: Query)
    requires IsName(q.orderBy) && !q0.orderDesc && (q0.aggregate.None? || q0.groupBy != "")
    ensures Clause(d, Parsing("ORDER BY " + (q.orderBy + DirectionTail(q)), q0))
            == Ok(Parsing(AfterSpace(LimitTail(q)), q0.(orderBy := q.orderBy, orderDesc := q.orderDesc)))
  {
    hide IsName, Clause, NextToken, Trim, TrimMatches, Upper, IsTail, Direction, DirectionTail, LimitTail;
    var f := q.orderBy;
    KeywordsAreUpper();
    L.NameIsWord(f);
    NameStart(f);
    DirectionTailText(q);
    TokenAfter("ORDER BY ", f, DirectionTail(q));
    UpperStarts("ORDER BY ", f + DirectionTail(q));
    Dispatch(d, Parsing("ORDER BY " + (f + DirectionTail(q)), q0));
    DirectionIsRead(q, Parsing(AfterSpace(DirectionTail(q)), q0.(orderBy := f)));
  }

  // --- WHERE ---

  lemma {:induction false} FirstMarkerIs(upper: string, markers: seq<string>, n: nat)
    requires n <= |upper|
    requires forall i, j: nat :: 0 <= i < |markers| && j < n ==> !OccursAt(upper, markers[i], j)
    requires forall i :: 0 <= i < |markers| ==> markers[i] != ""
    ensures n <= FirstMarker(upper, markers)
    ensures n == |upper| || (exists i :: 0 <= i < |markers| && OccursAt(upper, markers[i], n))
            ==> FirstMarker(upper, markers) == n
  {
    if markers != [] {
      FirstMarkerIs(upper, markers[1..], n);
      if exists i :: 0 <= i < |markers| && OccursAt(upper, markers[i], n) {
        var i :| 0 <= i < |markers| && OccursAt(upper, markers[i], n);
        if i > 0 { assert markers[1..][i - 1] == markers[i]; }
      }
    }
  }

  /** The first word of each marker. */
  const MARKER_WORDS: seq<string> := ["GROUP", "ORDER", "LIMIT", "OFFSET"]

  lemma MarkerHasWord(i: nat, t: string, j: nat)
    requires i < 4
    ensures OccursAt(t, MARKERS[i], j) ==> OccursAt(t, " " + MARKER_WORDS[i] + " ", j)
  {
    var (m, k) := (MARKERS[i], " " + MARKER_WORDS[i] + " ");
    MarkerPrefix(i);
    if OccursAt(t, m, j) { assert t[j..j + |k|] == t[j..j + |m|][..|k|]; }
  }

  lemma MarkerPrefix(i: nat)
    requires i < 4
    ensures " " + MARKER_WORDS[i] + " " <= MARKERS[i]
  {
  }

  lemma MarkerWord(i: nat)
    requires i < 4
    ensures IsWord(MARKER_WORDS[i]) && IsReserved(MARKER_WORDS[i]) && MARKER_WORDS[i] !in {"NOT", "AND", "OR"}
  {
  }

  lemma WhereEnds(words: seq<string>, tail: string)
    requires words != [] && AllWords(words) && IsClauseTail(tail)
    requires forall i :: 0 <= i < 4 ==> W.Lacks(words, MARKER_WORDS[i])
    ensures var s := "WHERE " + Join(words, " ");
            FirstMarker(Upper(s + tail), MARKERS) == |s|
  {
    hide Join, Upper, FirstMarker, OccursAt, AllWords;
    var s := "WHERE " + Join(words, " ");
    var upper := Upper(s + tail);
    UpperConcat(s, tail);
    forall i, j: nat | 0 <= i < |MARKERS| && j < |s|
      ensures !OccursAt(upper, MARKERS[i], j)
    {
      NoMarkerBefore(words, tail, i, j);
    }
    MarkersAreThere();
    FirstMarkerIs(upper, MARKERS, |s|);
    if tail != "" {
      var i :| 0 <= i < |MARKERS| && MARKERS[i] <= Upper(tail);
      MarkerAtTail(Upper(s), Upper(tail), MARKERS[i]);
    }
  }

  lemma MarkersAreThere()
    ensures forall i :: 0 <= i < |MARKERS| ==> MARKERS[i] != ""
  {
  }

  lemma MarkerAtTail(s: string, tail: string, marker: string)
    requires marker <= tail
    ensures OccursAt(s + tail, marker, |s|)
  {
    assert (s + tail)[|s|..|s| + |marker|] == tail[..|marker|];
  }

  lemma NoMarkerBefore(words: seq<string>, tail: string, i: nat, j: nat)
    requires words != [] && AllWords(words) && IsTail(tail) && i < 4 && W.Lacks(words, MARKER_WORDS[i])
    requires j < |"WHERE " + Join(words, " ")|
    ensures !OccursAt(Upper("WHERE " + Join(words, " ") + tail), MARKERS[i], j)
  {
    hide Join, Upper, OccursAt, IsWord;
    var all := ["WHERE"] + words;
    JoinConcat(["WHERE"], words, " ");
    WhereIsWord();
    assert Join(all, " ") == "WHERE " + Join(words, " ");
    UpperOfJoin(all);
    UpperConcat(Join(all, " "), tail);
    UpperTail(tail);
    MarkerWord(i);
    MarkerHasWord(i, Upper(Join(all, " ") + tail), j);
    assert MARKER_WORDS[i] !in UpperWords(all)[1..];
    NoEarlierWord(UpperWords(all), MARKER_WORDS[i], Upper(tail), j);
  }

  lemma WhereIsWord()
    ensures IsWord("WHERE") && Join(["WHERE"], " ") + " " == "WHERE "
  {
  }

  lemma UpperTail(tail: string)
    requires IsTail(tail)
    ensures Upper(tail) == "" || Upper(tail)[0] == ' '
  {
  }

  lemma WhereClauseIs(d: Decoder, q: Query, g: string, tail: string)
    ensures FirstMarker(Upper("WHERE " + g + tail), MARKERS) == 6 + |g| ==>
              Clause(d, Parsing("WHERE " + g + tail, q))
              == var groups := ParseWhere(d, Trim(g));
                 if groups.Err? then Err(groups.error) else Ok(Parsing(Trim(tail), q.(groups := groups.value)))
  {
    hide Upper, ParseWhere, FirstMarker, Trim;
    WherePieces(g, tail);
  }

  lemma GroupsEnd(d: Decoder, groups: seq<seq<Condition>>, tail: string)
    requires groups != [] && (forall k :: 0 <= k < |groups| ==> CleanGroup(d, groups[k])) && IsClauseTail(tail)
    ensures FirstMarker(Upper("WHERE " + PrintGroups(groups) + tail), MARKERS) == 6 + |PrintGroups(groups)|
  {
    assert |MARKER_WORDS| == 4;
    hide *;
    forall i | 0 <= i < 4
      ensures W.Lacks(W.GroupsWords(groups), MARKER_WORDS[i])
    {
      MarkerWord(i);
      W.GroupsLack(d, groups, MARKER_WORDS[i]);
    }
    W.GroupsHaveWords(d, groups);
    WhereEnds(W.GroupsWords(groups), tail);
  }

  lemma WhereStep(d: Decoder, q: Query, groups: seq<seq<Condition>>, tail: string)
    requires groups != [] && (forall i :: 0 <= i < |groups| ==> CleanGroup(d, groups[i])) && IsClauseTail(tail)
    ensures Clause(d, Parsing("WHERE " + PrintGroups(groups) + tail, q))
            == Ok(Parsing(AfterSpace(tail), q.(groups := MeantGroups(d, groups))))
  {
    assert IsTail(tail);
    assert |"WHERE "| == 6;
    hide *;
    W.WhereIsReadBack(d, groups);
    GroupsEnd(d, groups, tail);
    TrimTail(tail);
    WhereClauseIs(d, q, PrintGroups(groups), tail);
  }

  lemma WherePieces(g: string, tail: string)
    ensures var s := "WHERE " + g + tail;
            && "WHERE " <= Upper(s) && |s| >= 6 + |g| && s[6..6 + |g|] == g && s[6 + |g|..] == tail
  {
    assert "WHERE " + g + tail == "WHERE " + (g + tail);
    KeywordsAreUpper();
    UpperStarts("WHERE ", g + tail);
  }

  // --- the clauses, one after the other ---

  function Started(q: Query): Query {
    q.(groups := [], groupBy := "", orderBy := "", orderDesc := false, limit := -1, offset := 0)
  }

  lemma OneClause(d: Decoder, p: Parsing)
    requires p.rest != ""
    ensures Clauses(d, p) == if Clause(d, p).Err? then Err(Clause(d, p).error) else Clauses(d, Clause(d, p).value)
  {
  }

  lemma NonEmptyText(k: string, x: string)
    requires k != ""
    ensures k + x != ""
  {
    assert (k + x)[0] == k[0];
  }

  lemma WhereDone(d: Decoder, q: Query)
    requires CleanRest(d, q)
    ensures Clauses(d, Parsing(AfterSpace(WhereTail(q)), Started(q)))
            == Clauses(d, Parsing(AfterSpace(GroupByTail(q)), Started(q).(groups := MeantGroups(d, q.groups))))
  {
    TailNames(d, q);
    if q.groups == [] {
      assert "" + GroupByTail(q) == GroupByTail(q);
      assert Started(q).(groups := MeantGroups(d, q.groups)) == Started(q);
    } else {
      hide *;
      GroupByTailText(q);
      WhereTailIs(q);
      GroupsAreClean(d, q);
      WhereStep(d, Started(q), q.groups, GroupByTail(q));
      WhereTailIsSome(q);
      OneClause(d, Parsing(AfterSpace(WhereTail(q)), Started(q)));
    }
  }

  lemma WhereTailIsSome(q: Query)
    requires q.groups != []
    ensures AfterSpace(WhereTail(q)) != ""
  {
    hide PrintGroups, GroupByTail, AfterSpace, WhereTail;
    WhereTailIs(q);
  }

  lemma ClauseTailIsTail(t: string)
    requires IsClauseTail(t)
    ensures IsTail(t)
  {
  }

  lemma TailNames(d: Decoder, q: Query)
    requires CleanRest(d, q)
    ensures (q.orderBy == "" || IsName(q.orderBy)) && (q.groupBy == "" || IsName(q.groupBy))
  {
    hide IsName;
    if q.groupBy != "" && q.aggregate.Some? { assert q.selected[0] == q.groupBy; }
  }

  lemma GroupsAreClean(d: Decoder, q: Query)
    requires CleanRest(d, q)
    ensures forall i :: 0 <= i < |q.groups| ==> CleanGroup(d, q.groups[i])
  {
  }

  lemma WhereTailIs(q: Query)
    requires q.groups != []
    ensures AfterSpace(WhereTail(q)) == "WHERE " + PrintGroups(q.groups) + GroupByTail(q)
  {
    hide PrintGroups, GroupByTail;
    var x := PrintGroups(q.groups) + GroupByTail(q);
    assert WhereTail(q) == " WHERE " + x;
    assert (" WHERE " + x)[1..] == "WHERE " + x;
    assert "WHERE " + x == "WHERE " + PrintGroups(q.groups) + GroupByTail(q);
  }

  lemma GroupByDone(d: Decoder, q: Query, p: Query)
    requires CleanRest(d, q) && p.groupBy == ""
    ensures Clauses(d, Parsing(AfterSpace(GroupByTail(q)), p))
            == Clauses(d, Parsing(AfterSpace(OrderByTail(q)), p.(groupBy := q.groupBy)))
  {
    TailNames(d, q);
    if q.groupBy == "" {
      assert "" + OrderByTail(q) == OrderByTail(q);
      assert p.(groupBy := q.groupBy) == p;
    } else {
      hide *;
      GroupByTailText(q);
      OrderByTailText(q);
      ClauseTailIsTail(OrderByTail(q));
      GroupByStep(d, p, q.groupBy, OrderByTail(q));
      NonEmptyText("GROUP BY ", q.groupBy + OrderByTail(q));
      OneClause(d, Parsing(AfterSpace(GroupByTail(q)), p));
    }
  }

  lemma OrderByDone(d: Decoder, q: Query, p: Query)
    requires CleanRest(d, q) && p.orderBy == "" && !p.orderDesc && p.groupBy == q.groupBy && p.aggregate == q.aggregate
    ensures Clauses(d, Parsing(AfterSpace(OrderByTail(q)), p))
            == Clauses(d, Parsing(AfterSpace(LimitTail(q)), p.(orderBy := q.orderBy, orderDesc := q.orderDesc)))
  {
    TailNames(d, q);
    if q.orderBy == "" {
      assert "" + LimitTail(q) == LimitTail(q);
      assert p.(orderBy := q.orderBy, orderDesc := q.orderDesc) == p;
    } else {
      assert p.aggregate.None? || p.groupBy != "";
      hide *;
      OrderByTailText(q);
      OrderByStep(d, p, q);
      NonEmptyText("ORDER BY ", q.orderBy + DirectionTail(q));
      OneClause(d, Parsing(AfterSpace(OrderByTail(q)), p));
    }
  }

  lemma LimitDone(d: Decoder, q: Query, p: Query)
    requires -1 <= q.limit && IsI64(q.limit) && p.limit == -1
    ensures Clauses(d, Parsing(AfterSpace(LimitTail(q)), p))
            == Clauses(d, Parsing(AfterSpace(OffsetTail(q)), p.(limit := q.limit)))
  {
    if q.limit < 0 {
      LimitIsOffset(q);
      assert p.(limit := q.limit) == p;
    } else {
      hide *;
      LimitTailText(q);
      OffsetTailText(q);
      ClauseTailIsTail(OffsetTail(q));
      LimitStep(d, p, q.limit, OffsetTail(q));
      NonEmptyText("LIMIT ", Text.Decimal(q.limit) + OffsetTail(q));
      OneClause(d, Parsing(AfterSpace(LimitTail(q)), p));
    }
  }

  lemma OffsetDone(d: Decoder, q: Query, p: Query)
    requires 0 <= q.offset && IsI64(q.offset) && p.offset == 0
    ensures Clauses(d, Parsing(AfterSpace(OffsetTail(q)), p)) == Ok(p.(offset := q.offset))
  {
    if q.offset == 0 {
      assert p.(offset := q.offset) == p;
    } else {
      var next := Parsing("", p.(offset := q.offset));
      assert Clauses(d, next) == Ok(next.query);
      hide *;
      OffsetTailText(q);
      OffsetStep(d, p, q.offset);
      NonEmptyText("OFFSET ", Text.Decimal(q.offset) + "");
      OneClause(d, Parsing(AfterSpace(OffsetTail(q)), p));
    }
  }

  lemma CleanNumbers(d: Decoder, q: Query)
    requires CleanRest(d, q)
    ensures -1 <= q.limit && IsI64(q.limit) && 0 <= q.offset && IsI64(q.offset)
  {
  }

  lemma ClausesAreReadBack(d: Decoder, q: Query)
    requires CleanRest(d, q)
    ensures Clauses(d, Parsing(AfterSpace(WhereTail(q)), Started(q))) == Ok(Meant(d, q))
  {
    var q1 := Started(q).(groups := MeantGroups(d, q.groups));
    var q2 := q1.(groupBy := q.groupBy);
    var q3 := q2.(orderBy := q.orderBy, orderDesc := q.orderDesc);
    var q4 := q3.(limit := q.limit);
    assert q4.(offset := q.offset) == Meant(d, q);
    hide *;
    CleanNumbers(d, q);
    WhereDone(d, q);
    GroupByDone(d, q, q1);
    OrderByDone(d, q, q2);
    LimitDone(d, q, q3);
    OffsetDone(d, q, q4);
  }

  // --- the head ---

  function AggregateWords(a: Aggregate): seq<string> {
    [L.Call(a)] + (if a.alias == "" then [] else ["AS", a.alias])
  }

  function CommaWords(names: seq<string>): seq<string> {
    if names == [] then [] else if |names| == 1 then names else [names[0] + ","] + CommaWords(names[1..])
  }

  function ListWords(q: Query): seq<string> {
    if q.aggregate.None? then CommaWords(q.selected)
    else (if q.selected == [] then [] else [q.selected[0] + ","]) + AggregateWords(q.aggregate.value)
  }

  /** Words, none of them FROM. */
  predicate NoFrom(words: seq<string>) {
    words != [] && AllWords(words) && W.Lacks(words, "FROM")
  }

  lemma NameIsNotFrom(s: string)
    requires IsName(s)
    ensures NoFrom([s]) && NoFrom([s + ","])
  {
    L.NameIsWord(s);
    FromIsReserved();
    hide IsName, IsReserved;
    LastDecides(s + ",");
    assert (s + ",")[|s|] == ',';
  }

  lemma FromIsReserved()
    ensures IsReserved("FROM") && Upper("AS") != "FROM" && IsWord("AS")
  {
    assert Upper("AS")[0] == 'A';
  }

  lemma LastDecides(s: string)
    requires s != "" && (s[|s| - 1] == ',' || s[|s| - 1] == ')')
    ensures Upper(s) != "FROM"
  {
    assert Upper(s)[|s| - 1] == s[|s| - 1];
  }

  lemma NoFromConcat(a: seq<string>, b: seq<string>)
    requires NoFrom(a) && NoFrom(b)
    ensures NoFrom(a + b)
  {
    hide IsWord, Upper;
  }

  lemma AggregateHasWords(a: Aggregate)
    requires CleanAggregate(a)
    ensures NoFrom(AggregateWords(a)) && Join(AggregateWords(a), " ") == PrintAggregate(a)
  {
    hide IsName, IsReserved, Upper, L.Call;
    L.CallText(a);
    LastDecides(L.Call(a));
    FromIsReserved();
    CallIsPrinted(a);
    var call := L.Call(a);
    assert NoFrom([call]);
    if a.alias == "" {
      assert AggregateWords(a) == [call];
      assert call + "" == call;
    } else {
      NameIsNotFrom(a.alias);
      var rest := ["AS", a.alias];
      assert ["AS"] + [a.alias] == rest;
      assert NoFrom(["AS"]);
      NoFromConcat(["AS"], [a.alias]);
      NoFromConcat([call], rest);
      JoinConcat(["AS"], [a.alias], " ");
      JoinConcat([call], rest, " ");
      assert call + " " + ("AS" + " " + a.alias) == call + (" AS " + a.alias);
      assert call + (" AS " + a.alias) == call + " AS " + a.alias;
    }
  }

  lemma CallIsPrinted(a: Aggregate)
    ensures PrintAggregate(a) == L.Call(a) + (if a.alias == "" then "" else " AS " + a.alias)
  {
  }

  lemma {:induction false} NamesHaveWords(names: seq<string>)
    requires AllNames(names) && names != []
    ensures NoFrom(CommaWords(names)) && Join(CommaWords(names), " ") == Join(names, ", ")
  {
    hide IsName, NoFrom;
    NameIsNotFrom(names[0]);
    if |names| > 1 {
      NamesHaveWords(names[1..]);
      NoFromConcat([names[0] + ","], CommaWords(names[1..]));
      NoFromIsSome(CommaWords(names[1..]));
      JoinConcat([names[0] + ","], CommaWords(names[1..]), " ");
      assert names[0] + "," + " " + Join(names[1..], ", ") == names[0] + ", " + Join(names[1..], ", ");
    } else {
      assert names == [names[0]];
    }
  }

  lemma NoFromIsSome(words: seq<string>)
    requires NoFrom(words)
    ensures words != [] && AllWords(words)
  {
  }

  lemma ListHasWords(q: Query)
    requires CleanShape(q)
    ensures NoFrom(ListWords(q)) && Join(ListWords(q), " ") == PrintList(q)
  {
    hide IsName, CleanAggregate, NoFrom, AggregateWords, PrintAggregate, CommaWords;
    if q.aggregate.None? {
      NamesHaveWords(q.selected);
    } else {
      var a := q.aggregate.value;
      AggregateHasWords(a);
      if q.selected == [] {
        assert [] + AggregateWords(a) == AggregateWords(a);
        assert "" + PrintAggregate(a) == PrintAggregate(a);
      } else {
        var g := q.selected[0];
        NameIsNotFrom(g);
        NoFromConcat([g + ","], AggregateWords(a));
        NoFromIsSome(AggregateWords(a));
        JoinConcat([g + ","], AggregateWords(a), " ");
        assert g + "," + " " + PrintAggregate(a) == g + ", " + PrintAggregate(a);
      }
    }
  }

  /** The first FROM is the one after the list. */
  lemma FromIsFound(words: seq<string>, body: string)
    requires NoFrom(words)
    ensures Find(Upper("SELECT " + Join(words, " ") + " FROM " + body), " FROM ") == Some(7 + |Join(words, " ")|)
  {
    var all := ["SELECT"] + words;
    var rest := " FROM " + body;
    SelectIsWord();
    hide Upper, OccursAt, Join, IsWord;
    JoinConcat(["SELECT"], words, " ");
    var s := Join(all, " ");
    assert s == "SELECT " + Join(words, " ");
    UpperOfJoin(all);
    assert s + " FROM " + body == s + rest;
    UpperConcat(s, rest);
    UpperConcat(" FROM ", body);
    assert Upper(rest)[0] == ' ';
    forall j: nat | j < |s| ensures !OccursAt(Upper(s) + Upper(rest), " FROM ", j) {
      assert "FROM" !in UpperWords(all)[1..];
      NoEarlierWord(UpperWords(all), "FROM", Upper(rest), j);
      assert " " + "FROM" + " " == " FROM ";
    }
    MarkerAtTail(Upper(s), Upper(rest), " FROM ");
    FindIs(Upper(s) + Upper(rest), " FROM ", |s|);
  }

  lemma SelectIsWord()
    ensures IsWord("SELECT") && IsWord("FROM") && Join(["SELECT"], " ") + " " == "SELECT "
            && Upper(" FROM ") == " FROM "
  {
  }

  lemma TableIsReadBack(t: TableRef, project: string)
    requires IsTablePart(t.project) && IsTablePart(t.dataset) && IsTablePart(t.table)
    ensures TableIdentifier(PrintTable(t), project) == Ok(t)
    ensures IsWord(PrintTable(t)) && PrintTable(t)[0] != '`'
  {
    var s := PrintTable(t);
    TableIsPlain(t);
    WordIsTight(s);
    TrimTight(s);
    assert TrimMatches(s, '`') == s;
    hide TrimMatches, Trim, Split;
    var rest := t.dataset + "." + t.table;
    assert s == t.project + ['.'] + rest;
    assert rest == t.dataset + ['.'] + t.table;
    SplitFirst(t.project, '.', rest);
    SplitFirst(t.dataset, '.', t.table);
    SplitWithout(t.table, '.');
    assert Split(s, '.') == [t.project, t.dataset, t.table];
  }

  lemma TableIsPlain(t: TableRef)
    requires IsTablePart(t.project) && IsTablePart(t.dataset) && IsTablePart(t.table)
    ensures var s := PrintTable(t);
            IsWord(s) && s[0] != '`' && s[|s| - 1] != '`'
  {
    assert !IsWhitespace('.');
  }

  lemma ListIsFound(q: Query, body: string)
    requires CleanShape(q)
    ensures Find(Upper("SELECT " + PrintList(q) + " FROM " + body), " FROM ") == Some(7 + |PrintList(q)|)
  {
    hide *;
    ListHasWords(q);
    FromIsFound(ListWords(q), body);
  }

  lemma TableThenTail(t: TableRef, tail: string, project: string)
    requires IsTablePart(t.project) && IsTablePart(t.dataset) && IsTablePart(t.table) && IsTail(tail)
    ensures var table := PrintTable(t);
            && NextToken(table + tail) == (table, AfterSpace(tail)) && Trim(AfterSpace(tail)) == AfterSpace(tail)
            && TableIdentifier(table, project) == Ok(t) && Tight(table + tail)
  {
    hide *;
    TableIsReadBack(t, project);
    TokenAfter("", PrintTable(t), tail);
    WordIsTight(PrintTable(t));
    TightWithTail(PrintTable(t), tail);
  }

  /** The text is taken as one token, whatever tail follows, and names this table. */
  predicate Names(text: string, t: TableRef, tail: string, project: string) {
    && NextToken(text + tail) == (text, AfterSpace(tail)) && Tight(text + tail)
    && TableIdentifier(text, project) == Ok(t)
  }

  /** The list and the table are read back whatever tail follows. */
  lemma HeadWithTable(q: Query, table: string, tail: string, project: string)
    requires CleanShape(q) && IsTail(tail) && Names(table, q.source, tail, project)
    ensures var text := "SELECT " + PrintList(q) + " FROM " + (table + tail);
            Tight(text) && Head(text, project) == Ok(Parsing(AfterSpace(tail), Started(q)))
  {
    assert NextToken(table + tail) == (table, AfterSpace(tail)) && Tight(table + tail)
           && TableIdentifier(table, project) == Ok(q.source);
    hide *;
    var (list, body) := (PrintList(q), table + tail);
    TrimTail(tail);
    ListIsFound(q, body);
    L.ListIsReadBack(q);
    HeadText(list, body);
    HeadIs(list, body, project);
    StartedIs(q);
  }

  lemma HeadWithTail(q: Query, tail: string, project: string)
    requires CleanShape(q) && IsTail(tail)
    requires IsTablePart(q.source.project) && IsTablePart(q.source.dataset) && IsTablePart(q.source.table)
    ensures var text := "SELECT " + PrintList(q) + " FROM " + (PrintTable(q.source) + tail);
            Tight(text) && Head(text, project) == Ok(Parsing(AfterSpace(tail), Started(q)))
  {
    assert Names(PrintTable(q.source), q.source, tail, project) by {
      hide NextToken, TableIdentifier, Tight;
      TableThenTail(q.source, tail, project);
    }
    hide *;
    HeadWithTable(q, PrintTable(q.source), tail, project);
  }

  lemma PrintIs(q: Query)
    ensures Print(q) == "SELECT " + PrintList(q) + " FROM " + (PrintTable(q.source) + WhereTail(q))
  {
    hide PrintList, PrintTable, WhereTail;
  }

  lemma FourParts(a: string, b: string, c: string, e: string)
    requires a != "" && e != ""
    ensures var s := a + b + c + e;
            && s[|a|..|a| + |b|] == b && s[|a| + |b| + |c|..] == e && s[0] == a[0] && s[|s| - 1] == e[|e| - 1]
            && s == a + (b + c + e)
  {
  }

  lemma HeadText(list: string, body: string)
    requires Tight(list) && Tight(body)
    ensures var s := "SELECT " + list + " FROM " + body;
            && Tight(s) && "SELECT " <= Upper(s) && s[7..7 + |list|] == list && s[7 + |list| + 6..] == body
  {
    hide Upper;
    FourParts("SELECT ", list, " FROM ", body);
    SelectIsUpper();
    UpperStarts("SELECT ", list + " FROM " + body);
  }

  lemma SelectIsUpper()
    ensures Upper("SELECT ") == "SELECT "
  {
  }

  lemma HeadIs(list: string, body: string, project: string)
    requires Tight(list) && Tight(body)
    ensures Find(Upper("SELECT " + list + " FROM " + body), " FROM ") == Some(7 + |list|) ==>
              Head("SELECT " + list + " FROM " + body, project)
              == var (table, rest) := NextToken(body);
                 var (source, names) := (TableIdentifier(table, project), SelectList(list));
                 if source.Err? then Err(source.error)
                 else if names.Err? then Err(names.error)
                 else Ok(Parsing(Trim(rest),
                                 Query(source.value, names.value.0, names.value.1, [], "", "", false, -1, 0)))
  {
    hide NextToken, Trim, TableIdentifier, SelectList, Find, Upper;
    TrimTight(list);
    TrimTight(body);
    HeadText(list, body);
  }

  lemma StartedIs(q: Query)
    ensures Started(q) == Query(q.source, q.selected, q.aggregate, [], "", "", false, -1, 0)
  {
  }

  lemma GroupByTailIsTail(d: Decoder, q: Query)
    requires CleanRest(d, q)
    ensures IsTail(GroupByTail(q))
  {
    hide *;
    TailNames(d, q);
    GroupByTailText(q);
    ClauseTailIsTail(GroupByTail(q));
  }

  lemma WhereTailText(d: Decoder, q: Query)
    requires CleanRest(d, q)
    ensures IsTail(WhereTail(q))
  {
    WhereTailUnfolds(q);
    hide *;
    GroupByTailIsTail(d, q);
    if q.groups != [] {
      GroupsAreClean(d, q);
      W.WhereIsReadBack(d, q.groups);
      TightWithTail(PrintGroups(q.groups), GroupByTail(q));
      WhereTailTight(PrintGroups(q.groups) + GroupByTail(q));
    }
  }

  lemma WhereTailUnfolds(q: Query)
    ensures WhereTail(q)
            == if q.groups == [] then GroupByTail(q) else " WHERE " + (PrintGroups(q.groups) + GroupByTail(q))
  {
    hide PrintGroups, GroupByTail;
  }

  lemma WhereTailTight(x: string)
    requires Tight(x)
    ensures IsTail(" WHERE " + x)
  {
    var t := " WHERE " + x;
    assert t[1..] == "WHERE " + x && t[1..][|t| - 2] == x[|x| - 1];
  }

  // --- the whole query ---

  lemma GroupingHolds(d: Decoder, q: Query)
    requires CleanRest(d, q)
    ensures CheckGrouping(Meant(d, q)) == Ok(Meant(d, q))
  {
  }

  lemma ParseSelectUnfolds(d: Decoder, text: string, project: string)
    ensures var head := Head(Trim(WithoutSemicolon(text)), project);
            ParseSelect(d, text, project)
            == if head.Err? then Err(head.error)
               else if Clauses(d, head.value).Err? then Clauses(d, head.value)
               else CheckGrouping(Clauses(d, head.value).value)
  {
    hide Head, Clauses, CheckGrouping, Trim, WithoutSemicolon;
  }

  predicate EndsInSemicolon(s: string) {
    s != "" && s[|s| - 1] == ';'
  }

  lemma Semicolons(s: string)
    ensures !EndsInSemicolon(s) ==> WithoutSemicolon(s) == s
    ensures WithoutSemicolon(s + ";") == s
  {
    assert (s + ";")[..|s|] == s;
  }

  /** A query written out with this text for its table. */
  function PrintWith(q: Query, table: string): string {
    "SELECT " + PrintList(q) + " FROM " + (table + WhereTail(q))
  }

  lemma ParsesFrom(d: Decoder, text: string, q: Query, table: string, project: string)
    requires CleanRest(d, q) && Names(table, q.source, WhereTail(q), project)
    requires Trim(WithoutSemicolon(text)) == PrintWith(q, table)
    ensures ParseSelect(d, text, project) == Ok(Meant(d, q))
  {
    assert CleanShape(q);
    hide *;
    WhereTailText(d, q);
    HeadWithTable(q, table, WhereTail(q), project);
    ClausesAreReadBack(d, q);
    GroupingHolds(d, q);
    ParseSelectUnfolds(d, text, project);
  }

  /** Every clean query, written out in any way that names its table, and parsed with a semicolon after it, is
      what it means; and without one, if the text does not end in one of its own. */
  lemma WrittenIsRead(d: Decoder, q: Query, table: string, project: string)
    requires CleanRest(d, q) && Names(table, q.source, WhereTail(q), project)
    ensures var text := PrintWith(q, table);
            && ParseSelect(d, text + ";", project) == Ok(Meant(d, q))
            && (!EndsInSemicolon(text) ==> ParseSelect(d, text, project) == Ok(Meant(d, q)))
  {
    assert CleanShape(q);
    hide *;
    var text := PrintWith(q, table);
    WhereTailText(d, q);
    HeadWithTable(q, table, WhereTail(q), project);
    TrimTight(text);
    Semicolons(text);
    ParsesFrom(d, text + ";", q, table, project);
    if !EndsInSemicolon(text) { ParsesFrom(d, text, q, table, project); }
  }

  // --- the table in its forms ---

  /** `project.dataset.table` or `dataset.table`, bare or between backquotes. */
  datatype TableForm = TableForm(parts: nat, quoted: bool)

  predicate IsForm(form: TableForm) {
    form.parts == 2 || form.parts == 3
  }

  function TableText(form: TableForm, t: TableRef): string {
    var name := if form.parts == 2 then t.dataset + "." + t.table else t.project + "." + t.dataset + "." + t.table;
    if form.quoted then "`" + name + "`" else name
  }

  /** Between backquotes a part may hold white space. */
  predicate IsQuotedPart(s: string) {
    forall i :: 0 <= i < |s| ==> s[i] != '`' && s[i] != '.'
  }

  predicate FitsForm(form: TableForm, t: TableRef) {
    && IsForm(form)
    && if form.quoted then
         (form.parts == 3 ==> IsQuotedPart(t.project)) && IsQuotedPart(t.dataset) && IsQuotedPart(t.table)
       else (form.parts == 3 ==> IsTablePart(t.project)) && IsTablePart(t.dataset) && IsTablePart(t.table)
  }

  /** The table a text of this form names: without a project, that of the request, or `devcloud`. */
  function Named(form: TableForm, t: TableRef, project: string): TableRef {
    if form.parts == 3 then t else if project == "" then t.(project := "devcloud") else t.(project := project)
  }

  lemma PartsAreSplit(form: TableForm, t: TableRef, name: string, project: string)
    requires IsForm(form) && IsQuotedPart(t.dataset) && IsQuotedPart(t.table)
             && (form.parts == 3 ==> IsQuotedPart(t.project))
    requires name == if form.parts == 2 then t.dataset + "." + t.table else t.project + "." + t.dataset + "." + t.table
    ensures Split(name, '.') == if form.parts == 2 then [t.dataset, t.table] else [t.project, t.dataset, t.table]
  {
    hide Split;
    var rest := t.dataset + "." + t.table;
    assert rest == t.dataset + ['.'] + t.table;
    SplitFirst(t.dataset, '.', t.table);
    SplitWithout(t.table, '.');
    assert [t.dataset] + [t.table] == [t.dataset, t.table];
    if form.parts == 3 {
      assert name == t.project + ['.'] + rest;
      SplitFirst(t.project, '.', rest);
    }
  }

  lemma NoQuoteInName(form: TableForm, t: TableRef)
    requires FitsForm(form, t)
    ensures var name := TableText(form.(quoted := false), t);
            && name != "" && (forall i :: 0 <= i < |name| ==> name[i] != '`')
            && (!form.quoted ==> forall i :: 0 <= i < |name| ==> !IsWhitespace(name[i]))
            && IsQuotedPart(t.dataset) && IsQuotedPart(t.table) && (form.parts == 3 ==> IsQuotedPart(t.project))
  {
    assert !IsWhitespace('.');
    hide IsWhitespace;
  }

  lemma QuotesAreTrimmed(name: string)
    requires name != "" && forall i :: 0 <= i < |name| ==> name[i] != '`'
    ensures TrimMatches("`" + name + "`", '`') == name && TrimMatches(name, '`') == name
    ensures Tight("`" + name + "`") && Trim("`" + name + "`") == "`" + name + "`"
  {
    hide TrimMatches, Trim;
    var s := "`" + name + "`";
    NothingToTrim(name);
    FinalQuoteIsTrimmed(name);
    FirstQuoteIsTrimmed(name + "`");
    assert s == "`" + (name + "`");
    QuotedIsTight(name);
    TrimTight(s);
  }

  lemma QuotedIsTight(name: string)
    ensures Tight("`" + name + "`")
  {
    var s := "`" + name + "`";
    assert s[0] == '`' && s[|s| - 1] == '`';
  }

  lemma FirstQuoteIsTrimmed(s: string)
    ensures TrimMatches("`" + s, '`') == TrimMatches(s, '`')
  {
    assert ("`" + s)[0] == '`' && ("`" + s)[1..] == s;
  }

  lemma NothingToTrim(name: string)
    requires name != "" && forall i :: 0 <= i < |name| ==> name[i] != '`'
    ensures TrimMatches(name, '`') == name
  {
  }

  lemma FinalQuoteIsTrimmed(name: string)
    requires name != "" && forall i :: 0 <= i < |name| ==> name[i] != '`'
    ensures TrimMatches(name + "`", '`') == name
  {
    NothingToTrim(name);
    var s := name + "`";
    assert s[0] == name[0] && s[..|s| - 1] == name && s[|s| - 1] == '`';
    hide IsWhitespace;
  }

  lemma FormIsIdentified(form: TableForm, t: TableRef, project: string)
    requires FitsForm(form, t)
    ensures TableIdentifier(TableText(form, t), project) == Ok(Named(form, t, project))
  {
    var name := TableText(form.(quoted := false), t);
    NoQuoteInName(form, t);
    QuotesAreTrimmed(name);
    PartsAreSplit(form, t, name, project);
    if !form.quoted { TrimOfTight(name); }
    hide Trim, TrimMatches, Split;
  }

  lemma QuotedIsTaken(name: string, tail: string)
    requires name != "" && (forall i :: 0 <= i < |name| ==> name[i] != '`') && IsTail(tail)
    ensures NextToken("`" + name + "`" + tail) == ("`" + name + "`", AfterSpace(tail))
    ensures Tight("`" + name + "`" + tail)
  {
    var token := "`" + name + "`";
    var v := token + tail;
    QuotesAreTrimmed(name);
    TightWithTail(token, tail);
    TrimTight(v);
    TrimTail(tail);
    hide Trim;
    assert v[1..] == name + "`" + tail;
    forall j: nat | j < |name| ensures !OccursAt(v[1..], "`", j) {
      assert v[1..][j..j + 1][0] == name[j];
    }
    assert v[1..][|name|..|name| + 1] == "`";
    FindIs(v[1..], "`", |name|);
    assert v[..|token|] == token && v[|token|..] == tail;
  }

  lemma FormNames(form: TableForm, t: TableRef, tail: string, project: string)
    requires FitsForm(form, t) && IsTail(tail)
    ensures Names(TableText(form, t), Named(form, t, project), tail, project)
  {
    FormIsIdentified(form, t, project);
    NoQuoteInName(form, t);
    hide TableIdentifier, NextToken, Named;
    var name := TableText(form.(quoted := false), t);
    if form.quoted {
      QuotedIsTaken(name, tail);
    } else {
      TokenIsTaken(name, tail);
    }
  }

  /** Every clean query, with its table written in any of the four forms, is read as the query meant, on the
      table named: without a project, in that of the request, or in `devcloud`. */
  lemma FormsAreRead(d: Decoder, q: Query, form: TableForm, project: string)
    requires CleanRest(d, q) && FitsForm(form, q.source)
    ensures var text := PrintWith(q, TableText(form, q.source));
            var meant := Meant(d, q.(source := Named(form, q.source, project)));
            && ParseSelect(d, text + ";", project) == Ok(meant)
            && (!EndsInSemicolon(text) ==> ParseSelect(d, text, project) == Ok(meant))
  {
    hide *;
    var p := q.(source := Named(form, q.source, project));
    OtherSource(d, q, p.source);
    WhereTailText(d, q);
    FormNames(form, q.source, WhereTail(q), project);
    WrittenIsRead(d, p, TableText(form, q.source), project);
  }

  lemma OtherSource(d: Decoder, q: Query, source: TableRef)
    ensures var p := q.(source := source);
            && (CleanRest(d, p) <==> CleanRest(d, q)) && WhereTail(p) == WhereTail(q)
            && forall table :: PrintWith(p, table) == PrintWith(q, table)
  {
    hide IsName, AllNames, CleanAggregate, CleanGroup, PrintGroups, PrintAggregate;
    assert OffsetTail(q.(source := source)) == OffsetTail(q);
  }

  // --- the theorem ---

  /** Every clean query, written out and parsed with a semicolon after it, is what it means, whatever the
      default project; and without one, if the text does not end in one of its own. */
  lemma PrintThenParse(d: Decoder, q: Query, project: string)
    requires Clean(d, q)
    ensures ParseSelect(d, Print(q) + ";", project) == Ok(Meant(d, q))
    ensures !EndsInSemicolon(Print(q)) ==> ParseSelect(d, Print(q), project) == Ok(Meant(d, q))
  {
    assert CleanRest(d, q) && Names(PrintTable(q.source), q.source, WhereTail(q), project) by {
      hide NextToken, TableIdentifier, Tight, CleanRest;
      WhereTailText(d, q);
      TableThenTail(q.source, WhereTail(q), project);
    }
    hide *;
    PrintIs(q);
    PrintWithIs(q, PrintTable(q.source));
    WrittenIsRead(d, q, PrintTable(q.source), project);
  }

  lemma PrintWithIs(q: Query, table: string)
    ensures PrintWith(q, table) == "SELECT " + PrintList(q) + " FROM " + (table + WhereTail(q))
  {
  }

  /** Where each literal is JSON text already, what is meant is what is written. */
  predicate MeansItself(d: Decoder, q: Query) {
    forall g: seq<Condition>, i :: g in q.groups && 0 <= i < |g| ==> Literal(d, g[i].literal) == Ok(g[i].literal)
  }

  lemma MeantIsItself(d: Decoder, q: Query)
    requires MeansItself(d, q)
    ensures Meant(d, q) == q
  {
    hide Literal;
    forall k | 0 <= k < |q.groups| ensures MeantGroup(d, q.groups[k]) == q.groups[k] {
      var g := q.groups[k];
      assert g in q.groups;
      assert forall i :: 0 <= i < |g| ==> MeantCondition(d, g[i]) == g[i];
    }
    assert MeantGroups(d, q.groups) == q.groups;
  }
}
