/** `read_csv` of the load jobs, against the format of section 2 of RFC 4180. */
module Csv {
  import opened Common

  // --- the reader as a function of the text ---

  /** Skips empty lines. */
  function SkipBlank(s: string): (r: string)
    ensures |r| <= |s|
  {
    if s != "" && s[0] == '\n' then SkipBlank(s[1..])
    else if |s| > 1 && s[0] == '\r' && s[1] == '\n' then SkipBlank(s[2..])
    else if s != "" && s[0] == '\r' then SkipBlank(s[1..])
    else s
  }

  datatype Scanned = Bad | Record(fields: seq<string>, rest: string)

  /** The rest of one record: `fields` are complete, `field` is being read. */
  function ScanRecord(s: string, fields: seq<string>, field: string, started: bool, inQuotes: bool): (r: Scanned)
    ensures r.Record? ==> |r.rest| <= |s| && (s != "" ==> |r.rest| < |s|)
    decreases |s|
  {
    if s == "" then Record(fields + [field], "")
    else if s[0] == '"' && !started && field == "" && !inQuotes then ScanRecord(s[1..], fields, field, true, true)
    else if s[0] == '"' && inQuotes then
      if |s| > 1 && s[1] == '"' then ScanRecord(s[2..], fields, field + "\"", started, inQuotes)
      else ScanRecord(s[1..], fields, field, started, false)
    else if s[0] == '"' then Bad
    else if s[0] == ',' && !inQuotes then ScanRecord(s[1..], fields + [field], "", false, inQuotes)
    else if s[0] == '\r' && !inQuotes && |s| > 1 && s[1] == '\n' then Record(fields + [field], s[2..])
    else if s[0] == '\n' && !inQuotes then Record(fields + [field], s[1..])
    else ScanRecord(s[1..], fields, field + [s[0]], true, inQuotes)
  }

  function ReadAll(s: string, fieldsPerRecord: nat): Result<seq<seq<string>>, ()>
    decreases |s|
  {
    var t := SkipBlank(s);
    if t == "" then Ok([])
    else
      var r := ScanRecord(t, [], "", false, false);
      if r.Bad? || |r.fields| != fieldsPerRecord then Err(())
      else
        var more := ReadAll(r.rest, fieldsPerRecord);
        if more.Err? then more else Ok([r.fields] + more.value)
  }

  // --- the reader as the source writes it: a cursor and flags ---

  /** The loop that skips line ends before a record. */
  method SkipBlankLines(text: string, start: nat) returns (i: nat)
    requires start <= |text|
    ensures start <= i <= |text| && text[i..] == SkipBlank(text[start..])
  {
    i := start;
    while i < |text|
      invariant start <= i <= |text| && SkipBlank(text[i..]) == SkipBlank(text[start..])
    {
      if text[i] == '\n' {
        i := i + 1;
      } else if text[i] == '\r' {
        i := i + 1;
        if i < |text| && text[i] == '\n' { i := i + 1; }
      } else {
        break;
      }
    }
  }

  /** The loop over the characters of one record, with its two flags. */
  method ReadRecord(text: string, start: nat) returns (ok: bool, record: seq<string>, i: nat)
    requires start < |text|
    ensures var spec := ScanRecord(text[start..], [], "", false, false);
            && (ok <==> spec.Record?)
            && (ok ==> start < i <= |text| && spec == Record(record, text[i..]))
  {
    i, record := start, [];
    var field, inQuotes, started := "", false, false;
    ghost var spec := ScanRecord(text[start..], [], "", false, false);
    while i < |text|
      invariant start <= i <= |text|
      invariant ScanRecord(text[i..], record, field, started, inQuotes) == spec
    {
      var c := text[i];
      i := i + 1;
      assert text[i - 1..][1..] == text[i..];
      assert i < |text| ==> text[i - 1..][1] == text[i] && text[i - 1..][2..] == text[i + 1..];
      if c == '"' && !started && field == "" && !inQuotes {
        inQuotes, started := true, true;
      } else if c == '"' && inQuotes {
        if i < |text| && text[i] == '"' {
          i := i + 1;
          field := field + "\"";
        } else {
          inQuotes := false;
        }
      } else if c == '"' {
        return false, record, i;
      } else if c == ',' && !inQuotes {
        record := record + [field];
        field, started := "", false;
      } else if c == '\r' && !inQuotes && i < |text| && text[i] == '\n' {
        return true, record + [field], i + 1;
      } else if c == '\n' && !inQuotes {
        return true, record + [field], i;
      } else {
        field := field + [c];
        started := true;
      }
    }
    assert text[i..] == "";
    return true, record + [field], i;
  }

  /** `read_csv`, on text that is UTF-8. */
  method ReadCsv(text: string, fieldsPerRecord: nat) returns (r: Result<seq<seq<string>>, ()>)
    ensures r == ReadAll(text, fieldsPerRecord)
  {
    hide ScanRecord, SkipBlank;
    var records: seq<seq<string>> := [];
    var i := 0;
    assert text[0..] == text;
    PrependNone(ReadAll(text, fieldsPerRecord));
    while true
      invariant i <= |text|
      invariant ReadAll(text, fieldsPerRecord) == Prepend(records, ReadAll(text[i..], fieldsPerRecord))
      decreases |text| - i
    {
      i := SkipBlankLines(text, i);
      if i == |text| {
        assert records + [] == records;
        return Ok(records);
      }
      var ok, record;
      ok, record, i := ReadRecord(text, i);
      if !ok || |record| != fieldsPerRecord { return Err(()); }
      PrependOne(records, record, ReadAll(text[i..], fieldsPerRecord));
      records := records + [record];
    }
  }

  function Prepend(records: seq<seq<string>>, more: Result<seq<seq<string>>, ()>): Result<seq<seq<string>>, ()> {
    if more.Err? then more else Ok(records + more.value)
  }

  lemma PrependNone(more: Result<seq<seq<string>>, ()>)
    ensures Prepend([], more) == more
  {
    if more.Ok? { assert [] + more.value == more.value; }
  }

  lemma PrependOne(records: seq<seq<string>>, record: seq<string>, more: Result<seq<seq<string>>, ()>)
    ensures Prepend(records, Prepend([record], more)) == Prepend(records + [record], more)
  {
    if more.Ok? { assert records + ([record] + more.value) == (records + [record]) + more.value; }
  }

  // --- the format ---

  /** A field and whether its writer chose to quote it. */
  datatype Field = Field(text: string, quoted: bool)

  /** A record and whether its line ends in CRLF or LF. */
  datatype Line = Line(fields: seq<Field>, crlf: bool)

  /** Quotes are always allowed; without them the text must hold no quote, comma or line break. */
  predicate Allowed(f: Field) {
    f.quoted || forall i :: 0 <= i < |f.text| ==> f.text[i] !in {'"', ',', '\r', '\n'}
  }

  function Doubled(text: string): string {
    if text == "" then "" else (if text[0] == '"' then "\"\"" else [text[0]]) + Doubled(text[1..])
  }

  function EncodeField(f: Field): string {
    if f.quoted then "\"" + Doubled(f.text) + "\"" else f.text
  }

  function EncodeFields(fields: seq<Field>): string {
    if fields == [] then ""
    else if |fields| == 1 then EncodeField(fields[0])
    else EncodeField(fields[0]) + "," + EncodeFields(fields[1..])
  }

  function LineEnd(l: Line): string {
    if l.crlf then "\r\n" else "\n"
  }

  /** The lines of a file; the last one may lack its line end. */
  function EncodeFile(lines: seq<Line>, lastEnds: bool): string {
    if lines == [] then ""
    else EncodeFields(lines[0].fields)
         + (if |lines| > 1 || lastEnds then LineEnd(lines[0]) else "")
         + EncodeFile(lines[1..], lastEnds)
  }

  predicate IsFile(lines: seq<Line>, fieldsPerRecord: nat) {
    forall i :: 0 <= i < |lines| ==>
      |lines[i].fields| == fieldsPerRecord && forall j :: 0 <= j < fieldsPerRecord ==> Allowed(lines[i].fields[j])
  }

  function Texts(fields: seq<Field>): (r: seq<string>)
    ensures |r| == |fields|
  {
    seq(|fields|, i requires 0 <= i < |fields| => fields[i].text)
  }

  /** A record written as an empty line: one empty field without quotes. */
  predicate IsBlank(l: Line) {
    l.fields == [Field("", false)]
  }

  function Records(lines: seq<Line>): seq<seq<string>> {
    if lines == [] then [] else [Texts(lines[0].fields)] + Records(lines[1..])
  }

  function WithoutBlank(lines: seq<Line>): seq<Line> {
    if lines == [] then []
    else if IsBlank(lines[0]) then WithoutBlank(lines[1..])
    else [lines[0]] + WithoutBlank(lines[1..])
  }

  // --- scanning what was written ---

  lemma {:induction false} ScanQuoted(text: string, rest: string, fields: seq<string>, field: string)
    requires rest == "" || rest[0] != '"'
    ensures ScanRecord(Doubled(text) + "\"" + rest, fields, field, true, true)
            == ScanRecord(rest, fields, field + text, true, false)
  {
    var s := Doubled(text) + "\"" + rest;
    if text == "" {
      assert s == "\"" + rest && s[1..] == rest && field + text == field;
    } else {
      ScanQuoted(text[1..], rest, fields, field + [text[0]]);
      assert field + [text[0]] + text[1..] == field + text;
      var t := Doubled(text[1..]) + "\"" + rest;
      if text[0] == '"' {
        assert s == "\"\"" + t && s[2..] == t;
      } else {
        assert s == [text[0]] + t && s[1..] == t;
      }
    }
  }

  lemma {:induction false} ScanPlain(text: string, rest: string, fields: seq<string>, field: string, started: bool)
    requires Allowed(Field(text, false))
    ensures ScanRecord(text + rest, fields, field, started, false)
            == ScanRecord(rest, fields, field + text, started || text != "", false)
  {
    if text == "" {
      assert text + rest == rest && field + text == field;
    } else {
      assert (text + rest)[0] == text[0] && (text + rest)[1..] == text[1..] + rest;
      ScanPlain(text[1..], rest, fields, field + [text[0]], true);
      assert field + [text[0]] + text[1..] == field + text;
    }
  }

  predicate EndsField(rest: string) {
    rest == "" || rest[0] == ',' || rest[0] == '\n' || (|rest| > 1 && rest[0] == '\r' && rest[1] == '\n')
  }

  /** What scanning does at the end of a field, whether or not the field was started. */
  function AtFieldEnd(rest: string, fields: seq<string>): Scanned
    requires EndsField(rest)
  {
    if rest == "" then Record(fields, "")
    else if rest[0] == ',' then ScanRecord(rest[1..], fields, "", false, false)
    else if rest[0] == '\n' then Record(fields, rest[1..])
    else Record(fields, rest[2..])
  }

  lemma ScanAtEnd(rest: string, fields: seq<string>, field: string, started: bool)
    requires EndsField(rest)
    ensures ScanRecord(rest, fields, field, started, false) == AtFieldEnd(rest, fields + [field])
  {
  }

  lemma ScanOpeningQuote(body: string, fields: seq<string>)
    ensures ScanRecord("\"" + body, fields, "", false, false) == ScanRecord(body, fields, "", true, true)
  {
    assert ("\"" + body)[1..] == body;
  }

  lemma ScanField(f: Field, rest: string, fields: seq<string>)
    requires Allowed(f) && EndsField(rest)
    ensures ScanRecord(EncodeField(f) + rest, fields, "", false, false) == AtFieldEnd(rest, fields + [f.text])
  {
    hide ScanRecord, AtFieldEnd, Doubled;
    assert "" + f.text == f.text;
    if f.quoted {
      var body := Doubled(f.text) + "\"" + rest;
      assert EncodeField(f) + rest == "\"" + body;
      ScanOpeningQuote(body, fields);
      ScanQuoted(f.text, rest, fields, "");
      ScanAtEnd(rest, fields, f.text, true);
    } else {
      ScanPlain(f.text, rest, fields, "", false);
      ScanAtEnd(rest, fields, f.text, f.text != "");
    }
  }

  lemma AtComma(more: string, fields: seq<string>)
    ensures EndsField("," + more) && AtFieldEnd("," + more, fields) == ScanRecord(more, fields, "", false, false)
  {
    assert ("," + more)[1..] == more;
  }

  lemma {:induction false} ScanFields(line: seq<Field>, rest: string, fields: seq<string>)
    requires line != [] && (forall j :: 0 <= j < |line| ==> Allowed(line[j]))
    requires EndsField(rest)
    ensures ScanRecord(EncodeFields(line) + rest, fields, "", false, false) == AtFieldEnd(rest, fields + Texts(line))
  {
    hide ScanRecord, AtFieldEnd, EncodeField, EndsField, Allowed;
    if |line| == 1 {
      ScanField(line[0], rest, fields);
      assert Texts(line) == [line[0].text];
    } else {
      var more := EncodeFields(line[1..]) + rest;
      AtComma(more, fields + [line[0].text]);
      ScanField(line[0], "," + more, fields);
      assert EncodeFields(line) + rest == EncodeField(line[0]) + ("," + more);
      ScanFields(line[1..], rest, fields + [line[0].text]);
      assert fields + [line[0].text] + Texts(line[1..]) == fields + Texts(line);
    }
  }

  lemma {:induction false} SkipBlankStops(s: string)
    requires s == "" || (s[0] != '\n' && s[0] != '\r')
    ensures SkipBlank(s) == s
  {
  }

  lemma FirstOfLine(l: Line, rest: string)
    requires l.fields != [] && !IsBlank(l) && Allowed(l.fields[0])
    ensures var s := EncodeFields(l.fields) + rest; s != "" && s[0] != '\n' && s[0] != '\r'
  {
    var f := l.fields[0];
    if |l.fields| == 1 {
      assert l.fields == [f];
    }
  }

  // --- main results ---

  lemma ReadOneLine(l: Line, rest: string, fieldsPerRecord: nat)
    requires l.fields != [] && !IsBlank(l)
    requires forall j :: 0 <= j < |l.fields| ==> Allowed(l.fields[j])
    requires EndsField(rest) && (rest == "" || rest[0] != ',')
    ensures ReadAll(EncodeFields(l.fields) + rest, fieldsPerRecord)
            == if |l.fields| != fieldsPerRecord then Err(())
               else Prepend([Texts(l.fields)], ReadAll(AfterLineEnd(rest), fieldsPerRecord))
  {
    hide ScanRecord, Allowed, IsBlank, EncodeFields, SkipBlank, EndsField;
    var s := EncodeFields(l.fields) + rest;
    FirstOfLine(l, rest);
    SkipBlankStops(s);
    ScanFields(l.fields, rest, []);
    assert [] + Texts(l.fields) == Texts(l.fields);
    EndOfLine(rest, Texts(l.fields));
  }

  function AfterLineEnd(s: string): string {
    if s == "" then "" else if s[0] == '\n' then s[1..] else if |s| > 1 then s[2..] else ""
  }

  lemma EndOfLine(rest: string, fields: seq<string>)
    requires EndsField(rest) && (rest == "" || rest[0] != ',')
    ensures AtFieldEnd(rest, fields) == Record(fields, AfterLineEnd(rest))
  {
  }

  lemma LineEndIsSkipped(l: Line, rest: string)
    ensures SkipBlank(LineEnd(l) + rest) == SkipBlank(rest)
    ensures AfterLineEnd(LineEnd(l) + rest) == rest
    ensures EndsField(LineEnd(l) + rest) && (LineEnd(l) + rest)[0] != ','
  {
    var s := LineEnd(l) + rest;
    if l.crlf { assert s[2..] == rest; } else { assert s[1..] == rest; }
  }

  lemma ReadSkipsBlank(s: string, t: string, fieldsPerRecord: nat)
    requires SkipBlank(s) == SkipBlank(t)
    ensures ReadAll(s, fieldsPerRecord) == ReadAll(t, fieldsPerRecord)
  {
    hide ScanRecord, SkipBlank;
  }

  /** A file of records with any numbers of fields, each at least one. */
  predicate IsAnyFile(lines: seq<Line>) {
    forall i :: 0 <= i < |lines| ==>
      lines[i].fields != [] && forall j :: 0 <= j < |lines[i].fields| ==> Allowed(lines[i].fields[j])
  }

  /** Every record that is not an empty line has this many fields. */
  predicate AllHave(lines: seq<Line>, fieldsPerRecord: nat) {
    forall i :: 0 <= i < |lines| ==> IsBlank(lines[i]) || |lines[i].fields| == fieldsPerRecord
  }

  /** Whatever each writer's choice of quotes and line ends, the reader returns the records, except those written
      as an empty line, which it skips; or it refuses the file, when some other record has a wrong number of
      fields. */
  lemma {:induction false} ReadsBackOrRefuses(lines: seq<Line>, lastEnds: bool, fieldsPerRecord: nat)
    requires IsAnyFile(lines)
    ensures ReadAll(EncodeFile(lines, lastEnds), fieldsPerRecord)
            == if AllHave(lines, fieldsPerRecord) then Ok(Records(WithoutBlank(lines))) else Err(())
  {
    hide Allowed, ReadAll, SkipBlank, EndsField, AfterLineEnd, EncodeFile, EncodeFields, Texts, IsBlank;
    if lines == [] {
      ReadNothing(fieldsPerRecord);
      NoLines(lastEnds);
    } else {
      var l, after := lines[0], EncodeFile(lines[1..], lastEnds);
      ReadsBackOrRefuses(lines[1..], lastEnds, fieldsPerRecord);
      var rest := FirstLine(lines, lastEnds);
      ReadLineOrSkip(l, rest, after, fieldsPerRecord);
      FirstHas(lines, fieldsPerRecord);
    }
  }

  lemma FirstHas(lines: seq<Line>, fieldsPerRecord: nat)
    requires lines != []
    ensures AllHave(lines, fieldsPerRecord)
            <==> (IsBlank(lines[0]) || |lines[0].fields| == fieldsPerRecord) && AllHave(lines[1..], fieldsPerRecord)
  {
    hide IsBlank;
    assert lines == [lines[0]] + lines[1..];
  }

  /** Where every record has the right number of fields, all come back but those written as an empty line. */
  lemma ReadsBackAllButBlank(lines: seq<Line>, lastEnds: bool, fieldsPerRecord: nat)
    requires fieldsPerRecord > 0 && IsFile(lines, fieldsPerRecord)
    ensures ReadAll(EncodeFile(lines, lastEnds), fieldsPerRecord) == Ok(Records(WithoutBlank(lines)))
  {
    hide ReadAll, EncodeFile, Allowed, IsBlank;
    ReadsBackOrRefuses(lines, lastEnds, fieldsPerRecord);
  }

  lemma NoLines(lastEnds: bool)
    ensures EncodeFile([], lastEnds) == ""
  {
  }

  lemma FirstLine(lines: seq<Line>, lastEnds: bool) returns (rest: string)
    requires lines != []
    ensures EncodeFile(lines, lastEnds) == EncodeFields(lines[0].fields) + rest
    ensures var after := EncodeFile(lines[1..], lastEnds);
            EndsField(rest) && (rest == "" || rest[0] != ',') && AfterLineEnd(rest) == after
            && SkipBlank(rest) == SkipBlank(after)
  {
    var after := EncodeFile(lines[1..], lastEnds);
    if |lines| > 1 || lastEnds {
      LineEndIsSkipped(lines[0], after);
      rest := LineEnd(lines[0]) + after;
    } else {
      rest := "";
    }
  }

  lemma ReadNothing(fieldsPerRecord: nat)
    ensures ReadAll("", fieldsPerRecord) == Ok([])
  {
  }

  lemma ReadLineOrSkip(l: Line, rest: string, after: string, fieldsPerRecord: nat)
    requires l.fields != [] && forall j :: 0 <= j < |l.fields| ==> Allowed(l.fields[j])
    requires EndsField(rest) && (rest == "" || rest[0] != ',') && AfterLineEnd(rest) == after
             && SkipBlank(rest) == SkipBlank(after)
    ensures ReadAll(EncodeFields(l.fields) + rest, fieldsPerRecord)
            == if IsBlank(l) then ReadAll(after, fieldsPerRecord)
               else if |l.fields| != fieldsPerRecord then Err(())
               else Prepend([Texts(l.fields)], ReadAll(after, fieldsPerRecord))
  {
    hide Allowed, ReadAll, SkipBlank, EndsField, AfterLineEnd;
    if IsBlank(l) {
      assert EncodeFields(l.fields) + rest == rest;
      ReadSkipsBlank(rest, after, fieldsPerRecord);
    } else {
      ReadOneLine(l, rest, fieldsPerRecord);
    }
  }

  lemma {:induction false} WithoutBlankLength(lines: seq<Line>)
    ensures |Records(lines)| == |lines| && |WithoutBlank(lines)| <= |lines|
    ensures |WithoutBlank(lines)| == |lines| <==> forall i :: 0 <= i < |lines| ==> !IsBlank(lines[i])
    ensures |WithoutBlank(lines)| == |lines| ==> WithoutBlank(lines) == lines
  {
    if lines != [] {
      WithoutBlankLength(lines[1..]);
      assert forall i :: 0 < i < |lines| ==> lines[i] == lines[1..][i - 1];
    }
  }

  /** A file gives back all its records exactly when no record is written as an empty line. */
  lemma ReadsBackExactlyWithoutBlankLines(lines: seq<Line>, lastEnds: bool, fieldsPerRecord: nat)
    requires fieldsPerRecord > 0 && IsFile(lines, fieldsPerRecord)
    ensures ReadAll(EncodeFile(lines, lastEnds), fieldsPerRecord) == Ok(Records(lines))
            <==> forall i :: 0 <= i < |lines| ==> !IsBlank(lines[i])
  {
    hide ReadAll, EncodeFile, IsBlank, Records, WithoutBlank;
    ReadsBackAllButBlank(lines, lastEnds, fieldsPerRecord);
    WithoutBlankLength(lines);
    WithoutBlankLength(WithoutBlank(lines));
  }

  // --- outside the format ---

  lemma {:induction false} ScanUnclosed(text: string, fields: seq<string>, field: string)
    ensures ScanRecord(Doubled(text), fields, field, true, true) == Record(fields + [field + text], "")
  {
    var s := Doubled(text);
    if text == "" {
      assert field + text == field;
    } else {
      ScanUnclosed(text[1..], fields, field + [text[0]]);
      assert field + [text[0]] + text[1..] == field + text;
      if text[0] == '"' {
        assert s == "\"\"" + Doubled(text[1..]) && s[2..] == Doubled(text[1..]);
      } else {
        assert s == [text[0]] + Doubled(text[1..]) && s[1..] == Doubled(text[1..]);
      }
    }
  }

  lemma ScanStrayQuote(rest: string, fields: seq<string>, field: string)
    requires field != ""
    ensures ScanRecord("\"" + rest, fields, field, true, false) == Bad
  {
  }

  lemma OneRecord(s: string, fields: seq<string>)
    requires s != "" && s[0] !in {'\r', '\n'} && ScanRecord(s, [], "", false, false) == Record(fields, "")
    ensures ReadAll(s, |fields|) == Ok([fields])
  {
    hide ScanRecord;
    ReadNothing(|fields|);
    assert SkipBlank(s) == s;
    assert [fields] + [] == [fields];
  }

  /** A quote in a field that does not begin with one refuses the file. */
  lemma StrayQuoteIsRefused(text: string, rest: string, fieldsPerRecord: nat)
    requires text != "" && Allowed(Field(text, false))
    ensures ReadAll(text + ("\"" + rest), fieldsPerRecord) == Err(())
  {
    hide ScanRecord;
    var s := text + ("\"" + rest);
    assert s[0] == text[0];
    assert SkipBlank(s) == s;
    assert "" + text == text;
    ScanPlain(text, "\"" + rest, [], "", false);
    ScanStrayQuote(rest, [], text);
  }

  /** Two things the format does not have are taken: text after a closing quote goes on in its field, and a field
      whose quote is never closed ends with the file. */
  lemma LooseQuotesAreTaken(x: string, y: string)
    requires Allowed(Field(y, false))
    ensures ReadAll("\"" + (Doubled(x) + "\"" + y), 1) == Ok([[x + y]])
    ensures ReadAll("\"" + Doubled(x), 1) == Ok([[x]])
  {
    hide ScanRecord, Doubled;
    assert "" + x == x && [] + [x] == [x] && [] + [x + y] == [x + y] && y + "" == y;
    ScanOpeningQuote(Doubled(x) + "\"" + y, []);
    ScanQuoted(x, y, [], "");
    ScanPlain(y, "", [], x, true);
    ScanAtEnd("", [], x + y, true);
    ScanOpeningQuote(Doubled(x), []);
    ScanUnclosed(x, [], "");
    OneRecord("\"" + (Doubled(x) + "\"" + y), [x + y]);
    OneRecord("\"" + Doubled(x), [x]);
  }
}
