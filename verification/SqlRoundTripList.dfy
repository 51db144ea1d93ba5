/** The SELECT list, written and parsed. */
module SqlRoundTripList {
  import opened Common
  import opened RustStr
  import opened SqlAst
  import opened SqlParser
  import opened SqlPrinter
  import opened Words

  lemma NameIsWord(s: string)
    requires IsName(s)
    ensures IsWord(s) && Tight(s) && Trim(s) == s && Trim(" " + s) == s && TrimMatches(s, '`') == s
    ensures ',' !in s && !HasParenthesis(s) && ' ' !in s
  {
    TrimTight(s);
    assert IsWhitespace(' ');
  }

  lemma NoSpaceNoMarker(s: string, marker: string)
    requires ' ' !in s && marker != "" && marker[0] == ' '
    ensures Find(s, marker) == None
  {
    var f := Find(s, marker);
    if f.Some? { OccursStarts(s, marker, f.value); }
  }

  // --- names ---

  lemma NameIsNoAggregate(s: string)
    requires IsName(s)
    ensures AggregateSelection(s) == Ok(None)
  {
    NameIsWord(s);
    NoSpaceNoMarker(s, " AS ");
    NoSpaceNoMarker(s, " as ");
    FunctionNeedsParenthesis(s);
  }

  lemma FunctionNeedsParenthesis(s: string)
    ensures FunctionOf(Upper(s)).Some? ==> '(' in s
  {
    var fn := FunctionOf(Upper(s));
    if fn.Some? {
      var n := |FunctionName(fn.value)|;
      assert Upper(s)[n] == (FunctionName(fn.value) + "(")[n] == '(';
      assert s[n] == '(';
    }
  }

  lemma {:induction false} NamesAreReadBack(names: seq<string>, lead: string)
    requires AllNames(names) && names != [] && (lead == "" || lead == " ")
    ensures NonEmptyNames(Split(lead + Join(names, ", "), ',')) == names
    ensures |Split(lead + Join(names, ", "), ',')| == |names|
    ensures |names| == 2 ==> Split(lead + Join(names, ", "), ',') == [lead + names[0], " " + names[1]]
  {
    hide Split, IsName, Trim, TrimMatches;
    var first := lead + names[0];
    NameIsWord(names[0]);
    assert ',' !in first;
    assert "" + names[0] == names[0];
    if |names| == 1 {
      assert lead + Join(names, ", ") == first;
      SplitWithout(first, ',');
      assert NonEmptyNames([first]) == [names[0]] by { assert [first][1..] == []; assert NonEmptyNames([]) == []; }
    } else {
      var rest := " " + Join(names[1..], ", ");
      assert lead + Join(names, ", ") == first + [','] + rest;
      SplitFirst(first, ',', rest);
      NamesAreReadBack(names[1..], " ");
      assert ([first] + Split(rest, ','))[1..] == Split(rest, ',');
      assert names == [names[0]] + names[1..];
      if |names| == 2 {
        assert Join(names[1..], ", ") == names[1];
        NameIsWord(names[1]);
        SplitWithout(rest, ',');
      }
    }
  }

  lemma JoinedNamesTrim(names: seq<string>)
    requires AllNames(names) && names != []
    ensures Tight(Join(names, ", ")) && Trim(Join(names, ", ")) == Join(names, ", ")
    ensures |names| > 1 ==> ',' in Join(names, ", ")
  {
    hide IsName;
    JoinedNamesTight(names);
    TrimTight(Join(names, ", "));
    if |names| > 1 { assert Join(names, ", ")[|names[0]|] == ','; }
  }

  lemma {:induction false} JoinedNamesTight(names: seq<string>)
    requires AllNames(names) && names != []
    ensures Tight(Join(names, ", "))
  {
    hide IsName;
    NameIsWord(names[0]);
    if |names| > 1 {
      JoinedNamesTight(names[1..]);
      var s := Join(names, ", ");
      assert s[0] == names[0][0] && s[|s| - 1] == Join(names[1..], ", ")[|Join(names[1..], ", ")| - 1];
    }
  }

  lemma PlainList(names: seq<string>)
    requires AllNames(names) && names != []
    ensures SelectList(Join(names, ", ")) == Ok((names, None))
  {
    hide IsName, Split, NonEmptyNames, AggregateCall;
    var s := Join(names, ", ");
    JoinedNamesTrim(names);
    NamesAreReadBack(names, "");
    assert "" + s == s;
    if |names| == 1 {
      NameIsNoAggregate(names[0]);
      assert names == [names[0]];
    } else {
      assert AggregateSelection(s) == Ok(None);
      if |names| == 2 {
        NameIsWord(names[0]);
        NameIsWord(names[1]);
        NameIsNoAggregate(names[0]);
        NameIsNoAggregate(names[1]);
        assert "" + names[0] == names[0];
      }
    }
    FieldListOfNames(names);
  }

  lemma FieldListOfNames(names: seq<string>)
    requires AllNames(names) && names != []
    ensures FieldList(Join(names, ", ")) == names
  {
    hide IsName, Split, NonEmptyNames;
    var s := Join(names, ", ");
    JoinedNamesTrim(names);
    NamesAreReadBack(names, "");
    assert "" + s == s;
    if s == "*" {
      assert ',' !in s;
      assert names == [names[0]];
    }
  }

  // --- aggregates ---

  function Call(a: Aggregate): string {
    FunctionName(a.function_) + "(" + a.field + ")"
  }

  lemma CallText(a: Aggregate)
    requires CleanAggregate(a)
    ensures IsWord(Call(a)) && ',' !in Call(a) && Call(a)[|Call(a)| - 1] == ')'
    ensures Call(a)[0] != '`' && Call(a)[0] != '*'
  {
    NameIsWord(a.field);
    FunctionNameIsWord(a.function_);
    hide IsName, FunctionName, Trim, TrimMatches, Tight;
    assert !IsWhitespace('(') && !IsWhitespace(')');
  }

  lemma FunctionNameIsWord(fn: AggregateFunction)
    ensures var n := FunctionName(fn); IsWord(n) && ',' !in n && n[0] != '`' && n[0] != '*'
  {
  }

  lemma CallIsParsed(a: Aggregate)
    requires CleanAggregate(a)
    ensures AggregateCall(Call(a), a.alias) == Ok(Some(a))
  {
    hide FunctionOf;
    var n := FunctionName(a.function_);
    NameIsWord(a.field);
    hide IsName, TrimMatches, Trim, Upper;
    CallIsUpper(a.function_, a.field);
    assert Call(a)[|n| + 1..|Call(a)| - 1] == a.field;
    assert EndsWith(Call(a), ")");
  }

  lemma CallIsUpper(fn: AggregateFunction, field: string)
    ensures FunctionOf(Upper(FunctionName(fn) + "(" + field + ")")) == Some(fn)
  {
    var (n, rest) := (FunctionName(fn), field + ")");
    FunctionIsFound(fn, Upper(rest));
    assert n + "(" + field + ")" == (n + "(") + rest;
    UpperConcat(n + "(", rest);
    assert Upper(n + "(") == n + "(";
  }

  lemma FunctionIsFound(fn: AggregateFunction, rest: string)
    ensures FunctionOf(FunctionName(fn) + "(" + rest) == Some(fn)
  {
    var t := FunctionName(fn) + "(" + rest;
    assert t[0] == FunctionName(fn)[0] && t[1] == FunctionName(fn)[1];
    assert FunctionName(fn) + "(" <= t;
  }

  lemma CallWithoutAlias(call: string)
    requires IsWord(call)
    ensures Tight(call) && Trim(call) == call && WithoutAlias(call) == Ok((call, ""))
  {
    hide Trim, TrimMatches, Find;
    TrimTight(call);
    assert ' ' !in call by { assert IsWhitespace(' '); }
    NoSpaceNoMarker(call, " AS ");
    NoSpaceNoMarker(call, " as ");
  }

  lemma CallWithAlias(call: string, alias: string)
    requires IsWord(call) && ',' !in call && IsName(alias)
    ensures var s := call + " AS " + alias;
            Tight(s) && Trim(s) == s && ',' !in s && s[0] == call[0] && s[|s| - 1] != '`'
            && WithoutAlias(s) == Ok((call, alias))
  {
    NameIsWord(alias);
    NameEnds(alias);
    hide IsName, Trim, TrimMatches, WithoutAlias;
    TrimTight(call);
    TrimTight(call + " AS " + alias);
    AliasIsFound(call, alias);
  }

  lemma AggregateText(a: Aggregate)
    requires CleanAggregate(a)
    ensures var s := PrintAggregate(a);
            Tight(s) && ',' !in s && s[0] != '`' && s[0] != '*' && s[|s| - 1] != '`'
            && AggregateSelection(s) == Ok(Some(a))
  {
    hide IsName, AggregateCall, WithoutAlias, Trim, Tight, Call;
    PrintedCall(a);
    CallText(a);
    CallIsParsed(a);
    CallWithoutAlias(Call(a));
    if a.alias != "" { CallWithAlias(Call(a), a.alias); }
  }

  lemma PrintedCall(a: Aggregate)
    ensures PrintAggregate(a) == if a.alias == "" then Call(a) else Call(a) + " AS " + a.alias
  {
    hide FunctionName;
    if a.alias != "" { assert Call(a) + (" AS " + a.alias) == Call(a) + " AS " + a.alias; }
  }

  lemma NameEnds(s: string)
    requires IsName(s)
    ensures s[|s| - 1] != '`'
  {
  }

  lemma AliasIsFound(call: string, alias: string)
    requires IsWord(call) && Trim(call) == call
    requires alias != "" && Trim(alias) == alias && TrimMatches(alias, '`') == alias
    ensures WithoutAlias(call + " AS " + alias) == Ok((call, alias))
  {
    var s := call + " AS " + alias;
    var n := |call|;
    assert s[n..n + 4] == " AS ";
    assert IsWhitespace(' ');
    forall j: nat | j < n ensures !OccursAt(s, " AS ", j) {
      OccursStarts(s, " AS ", j);
    }
    FindIs(s, " AS ", n);
    assert s[n + 4..] == alias && s[..n] == call;
  }

  lemma AggregateFieldList(s: string)
    requires Tight(s) && ',' !in s && s[0] != '`' && s[0] != '*' && s[|s| - 1] != '`'
    ensures FieldList(s) != []
  {
    hide Split;
    TrimTight(s);
    SplitWithout(s, ',');
  }

  lemma AggregateList(a: Aggregate)
    requires CleanAggregate(a)
    ensures SelectList(PrintAggregate(a)) == Ok(([], Some(a)))
  {
    hide CleanAggregate, PrintAggregate, AggregateSelection, FieldList;
    AggregateText(a);
    AggregateFieldList(PrintAggregate(a));
  }

  lemma TwoPieces(g: string, t: string)
    requires IsName(g) && ',' !in t && Tight(t)
    ensures var s := g + ", " + t; Split(s, ',') == [g, " " + t] && ',' in s && Tight(s) && Trim(s) == s
  {
    hide Split;
    NameIsWord(g);
    hide IsName, Trim;
    var s := g + ", " + t;
    assert s == g + [','] + (" " + t);
    SplitFirst(g, ',', " " + t);
    SplitWithout(" " + t, ',');
    assert s[|g|] == ',';
    assert s[|s| - 1] == t[|t| - 1];
    TrimTight(s);
  }

  lemma PairIsGrouped(g: string, t: string, a: Aggregate)
    requires IsName(g) && Tight(t) && AggregateSelection(t) == Ok(Some(a))
    requires Split(g + ", " + t, ',') == [g, " " + t]
    ensures GroupedSelection(g + ", " + t) == Ok(Some((g, a)))
  {
    hide IsName, Split, Trim, TrimMatches, AggregateSelection, HasParenthesis;
    NameIsWord(g);
    TrimTight(t);
    NameIsNoAggregate(g);
  }

  lemma PairHasNames(s: string, g: string, rest: string)
    requires IsName(g) && Split(s, ',') == [g, rest] && ',' in s && Trim(s) == s
    ensures FieldList(s) != []
  {
    hide IsName, Split, Trim, TrimMatches;
    NameIsWord(g);
    assert g != "" by { NameIsSome(g); }
    assert NonEmptyNames([g, rest])[0] == g;
    assert ',' !in "*";
  }

  lemma NameIsSome(g: string)
    requires IsName(g)
    ensures g != ""
  {
  }

  lemma GroupedList(g: string, a: Aggregate)
    requires IsName(g) && CleanAggregate(a)
    ensures SelectList(g + ", " + PrintAggregate(a)) == Ok(([g], Some(a)))
    ensures Tight(g + ", " + PrintAggregate(a))
  {
    hide CleanAggregate, PrintAggregate, IsName, Split, GroupedSelection, FieldList, WithoutAlias, AggregateCall, Trim;
    var (t, s) := (PrintAggregate(a), g + ", " + PrintAggregate(a));
    AggregateText(a);
    TwoPieces(g, t);
    PairIsGrouped(g, t, a);
    PairHasNames(s, g, " " + t);
  }

  /** The SELECT list of a clean query is read back. */
  lemma ListIsReadBack(q: Query)
    requires CleanShape(q)
    ensures SelectList(PrintList(q)) == Ok((q.selected, q.aggregate)) && Tight(PrintList(q))
  {
    hide IsName, CleanAggregate, PrintAggregate, SelectList;
    if q.aggregate.None? {
      PlainList(q.selected);
      JoinedNamesTrim(q.selected);
    } else if q.selected == [] {
      AggregateList(q.aggregate.value);
      AggregateText(q.aggregate.value);
      assert "" + PrintAggregate(q.aggregate.value) == PrintAggregate(q.aggregate.value);
    } else {
      GroupedList(q.selected[0], q.aggregate.value);
      assert q.selected == [q.selected[0]];
    }
  }
}
