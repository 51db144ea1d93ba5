/** Which cells a column takes, and which are null, said without the code that decides it. */
module JsonCells {
  import opened Common
  import opened JsonDecoding
  import opened JsonText
  import opened Numerals
  import opened RowStore
  import opened RustStr
  import opened TableSchemas

  // --- null ---

  /** The white space that is trimmed from a cell. */
  predicate IsBlank(s: Bytes) {
    forall i :: 0 <= i < |s| ==> s[i] in {9, 10, 11, 12, 13, 32}
  }

  predicate IsNullWord(n: Bytes) {
    |n| == 4 && forall i :: 0 <= i < 4 ==> n[i] as char == "null"[i] || n[i] as char == "NULL"[i]
  }

  ghost predicate IsNull(raw: Bytes) {
    exists a, n, b :: raw == a + n + b && IsBlank(a) && IsNullWord(n) && IsBlank(b)
  }

  lemma {:induction false} TrimmedParts(s: Bytes) returns (a: Bytes, b: Bytes)
    ensures s == a + TrimSpace(s) + b && IsBlank(a) && IsBlank(b)
  {
    if s != [] && IsSpace(s[0]) {
      a, b := TrimmedParts(s[1..]);
      a := [s[0]] + a;
      assert s == [s[0]] + s[1..];
    } else if s != [] && IsSpace(s[|s| - 1]) {
      a, b := TrimmedParts(s[..|s| - 1]);
      b := b + [s[|s| - 1]];
      assert s == s[..|s| - 1] + [s[|s| - 1]];
    } else {
      a, b := [], [];
    }
  }

  lemma {:induction false} TrimsAround(a: Bytes, t: Bytes, b: Bytes)
    requires IsBlank(a) && IsBlank(b) && t != [] && !IsSpace(t[0]) && !IsSpace(t[|t| - 1])
    ensures TrimSpace(a + t + b) == t
    decreases |a| + |b|
  {
    var s := a + t + b;
    if a != [] {
      assert s[0] == a[0] && s[1..] == a[1..] + t + b;
      TrimsAround(a[1..], t, b);
    } else if b != [] {
      assert s[0] == t[0] && s[|s| - 1] == b[|b| - 1] && s[..|s| - 1] == a + t + b[..|b| - 1];
      TrimsAround(a, t, b[..|b| - 1]);
    } else {
      assert s == t;
    }
  }

  lemma NullWordIsUpper(n: Bytes)
    ensures IsNullWord(n) <==> |n| == 4 && UpperByte(n[0]) == 78 && UpperByte(n[1]) == 85 && UpperByte(n[2]) == 76
                               && UpperByte(n[3]) == 76
    ensures IsNullWord(n) ==> !IsSpace(n[0]) && !IsSpace(n[3])
  {
    if |n| == 4 {
      NullLetter(n[0], 0);
      NullLetter(n[1], 1);
      NullLetter(n[2], 2);
      NullLetter(n[3], 3);
    }
  }

  lemma NullLetter(b: Byte, i: nat)
    requires i < 4
    ensures b as char == "null"[i] || b as char == "NULL"[i] <==> UpperByte(b) == [78, 85, 76, 76][i]
    ensures UpperByte(b) == [78, 85, 76, 76][i] ==> !IsSpace(b)
  {
  }

  /** A cell is null exactly when it is the word, in any letter case, with white space around it or none. */
  lemma NullExactly(raw: Bytes)
    ensures IsJsonNull(raw) <==> IsNull(raw)
  {
    hide TrimSpace, UpperByte, IsNullWord, IsBlank;
    NullWordIsUpper(TrimSpace(raw));
    if IsJsonNull(raw) {
      var a, b := TrimmedParts(raw);
    }
    forall a, n, b | raw == a + n + b && IsBlank(a) && IsNullWord(n) && IsBlank(b)
      ensures TrimSpace(raw) == n
    {
      NullWordIsUpper(n);
      NullWordLength(n);
      TrimsAround(a, n, b);
    }
  }

  lemma NullWordLength(n: Bytes)
    requires IsNullWord(n)
    ensures |n| == 4
  {
  }

  // --- the type of a column ---

  /** The column's type is one of these, in any letter case; a column without a type is a STRING. */
  ghost predicate HasType(field: Field, names: set<string>) {
    exists name :: name in names
                   && (if field.fieldType == "" then name == "STRING" else Spells(field.fieldType, name))
  }

  lemma TypeIsKind(field: Field, names: set<string>)
    requires forall name :: name in names ==> InCapitals(name)
    ensures HasType(field, names) <==> KindOf(field) in names
  {
    hide Spells, InCapitals, Upper;
    StringIsUpper();
    forall name | name in names
      ensures KindOf(field) == name
              <==> (if field.fieldType == "" then name == "STRING" else Spells(field.fieldType, name))
    {
      SpelledIsUpper(field.fieldType, name);
    }
  }

  lemma StringIsUpper()
    ensures Upper("STRING") == "STRING"
  {
  }

  // --- which cells fit ---

  /** The text that is read as a number: a string's content, or a number as it stands. */
  ghost predicate Reads(d: Decoder, raw: Bytes, text: Bytes) {
    d.asString(raw) == Some(text) || (d.asString(raw) == None && d.first(raw) == Some(Number(text)))
  }

  /** The field that counts of those with its name: the last. */
  predicate IsLastOfName(fields: seq<Field>, k: int)
    requires 0 <= k < |fields|
  {
    forall l :: k < l < |fields| ==> fields[l].name != fields[k].name
  }

  /** Every member belongs to a field and fits it, and every required field has a member that is not null. */
  ghost predicate IsRecord(d: Decoder, members: seq<Cell>, fields: seq<Field>) {
    && (forall m :: m in members ==>
          exists k :: 0 <= k < |fields| && fields[k].name == m.key && IsLastOfName(fields, k)
                      && FitsField(d, m.raw, fields[k]))
    && (forall f :: f in fields && Spells(f.mode, "REQUIRED") ==>
          exists m :: m in members && m.key == f.name && !IsNull(m.raw))
  }

  /** A null fits unless it is required; an array fits a repeated column if each element fits the column by itself;
      any other cell fits by its column's type. */
  ghost predicate Fits(d: Decoder, raw: Bytes, field: Field) {
    if IsNull(raw) then !Spells(field.mode, "REQUIRED")
    else if Spells(field.mode, "REPEATED") then
      d.asArray(raw).Some? && forall item :: item in d.asArray(raw).value ==> FitsField(d, item, field.(mode := ""))
    else FitsType(d, raw, field)
  }

  /** The types whose cells are strings. */
  const TEXT_TYPES: set<string> :=
    {"STRING", "BYTES", "NUMERIC", "BIGNUMERIC", "TIMESTAMP", "DATE", "TIME", "DATETIME", "GEOGRAPHY"}

  ghost predicate FitsType(d: Decoder, raw: Bytes, field: Field) {
    || (HasType(field, TEXT_TYPES) && d.asString(raw).Some?)
    || (HasType(field, {"INTEGER", "INT64"})
        && exists text, n :: Reads(d, raw, text) && IsDecimalText(text, n)
                             && -0x8000_0000_0000_0000 <= n <= 0x7fff_ffff_ffff_ffff)
    || (HasType(field, {"FLOAT", "FLOAT64"}) && exists text :: Reads(d, raw, text) && d.parseFloat(text).Some?)
    || (HasType(field, {"BOOLEAN", "BOOL"}) && d.asBool(raw).Some?)
    || HasType(field, {"JSON"})
    || (HasType(field, {"RECORD", "STRUCT"}) && d.asObject(raw).Some?
        && IsRecord(d, d.asObject(raw).value, field.fields))
  }

  lemma ReadsIsNumeral(d: Decoder, raw: Bytes, text: Bytes)
    ensures Reads(d, raw, text) <==> NumeralOf(d, raw) == Some(text)
  {
  }

  lemma IntegersRead(d: Decoder, raw: Bytes)
    ensures RawInt(d, raw).Some? <==> exists text, n :: Reads(d, raw, text) && IsDecimalText(text, n)
                                        && -0x8000_0000_0000_0000 <= n <= 0x7fff_ffff_ffff_ffff
  {
    hide NumeralOf, Reads, ParseI64, IsDecimalText;
    forall text, n
      ensures Reads(d, raw, text) <==> NumeralOf(d, raw) == Some(text)
      ensures ParseI64(text) == Some(n)
              <==> IsDecimalText(text, n) && -0x8000_0000_0000_0000 <= n <= 0x7fff_ffff_ffff_ffff
    {
      ReadsIsNumeral(d, raw, text);
      ParseIsDecimal(text, n);
    }
    var n := RawInt(d, raw);
    if n.Some? { assert Reads(d, raw, NumeralOf(d, raw).value) && IsDecimalText(NumeralOf(d, raw).value, n.value); }
  }

  lemma FloatsRead(d: Decoder, raw: Bytes)
    ensures RawFloat(d, raw).Some? <==> exists text :: Reads(d, raw, text) && d.parseFloat(text).Some?
  {
    hide NumeralOf, Reads;
    forall text ensures Reads(d, raw, text) <==> NumeralOf(d, raw) == Some(text) { ReadsIsNumeral(d, raw, text); }
  }

  lemma {:induction false} LastOfName(fields: seq<Field>, name: string)
    ensures forall k :: 0 <= k < |fields| && fields[k].name == name && IsLastOfName(fields, k) ==>
                          FieldNamed(fields, name) == Some(fields[k])
    ensures FieldNamed(fields, name).Some? ==>
              exists k :: 0 <= k < |fields| && fields[k].name == name && IsLastOfName(fields, k)
  {
    if fields != [] {
      var init := fields[..|fields| - 1];
      LastOfName(init, name);
      if fields[|fields| - 1].name == name {
        assert IsLastOfName(fields, |fields| - 1);
      } else {
        forall k | 0 <= k < |init| && fields[k].name == name
          ensures IsLastOfName(fields, k) <==> IsLastOfName(init, k)
        {
          assert forall l :: k < l < |init| ==> init[l] == fields[l];
        }
      }
    }
  }

  lemma RecordExactly(d: Decoder, members: seq<Cell>, fields: seq<Field>)
    ensures FitsRecord(d, members, fields) <==> IsRecord(d, members, fields)
  {
    hide FitsField, Spells, FieldNamed, IsJsonNull, IsNull, IsLastOfName;
    ModesAreSpelled();
    forall m | m in members
      ensures IsJsonNull(m.raw) <==> IsNull(m.raw)
    {
      NullExactly(m.raw);
    }
    forall f | f in fields
      ensures EqIgnoreAsciiCase(f.mode, "REQUIRED") <==> Spells(f.mode, "REQUIRED")
    {
      SpelledIsUpper(f.mode, "REQUIRED");
    }
    forall i | 0 <= i < |members|
      ensures MemberFits(d, members[i], fields) <==>
                exists k :: 0 <= k < |fields| && fields[k].name == members[i].key && IsLastOfName(fields, k)
                            && FitsField(d, members[i].raw, fields[k])
    {
      LastOfName(fields, members[i].key);
    }
  }

  predicate MemberFits(d: Decoder, m: Cell, fields: seq<Field>) {
    && FieldNamed(fields, m.key).Some?
    && forall k :: 0 <= k < |fields| && FieldNamed(fields, m.key) == Some(fields[k]) ==> FitsField(d, m.raw, fields[k])
  }

  lemma ModesAreSpelled()
    ensures InCapitals("REQUIRED") && InCapitals("REPEATED")
    ensures Upper("REQUIRED") == "REQUIRED" && Upper("REPEATED") == "REPEATED"
  {
  }

  const TYPES: set<string> :=
    TEXT_TYPES + {"INTEGER", "INT64", "FLOAT", "FLOAT64", "BOOLEAN", "BOOL", "JSON", "RECORD", "STRUCT"}

  lemma TypesAreInCapitals()
    ensures forall name :: name in TYPES ==> InCapitals(name)
  {
  }

  lemma TypeExactly(d: Decoder, raw: Bytes, field: Field)
    ensures FitsKind(d, raw, field) <==> FitsType(d, raw, field)
  {
    hide FitsRecord, IsRecord, KindOf, InCapitals, HasType, RawInt, RawFloat, Reads, IsDecimalText;
    TypesAreInCapitals();
    TypeIsKind(field, TEXT_TYPES);
    TypeIsKind(field, {"INTEGER", "INT64"});
    TypeIsKind(field, {"FLOAT", "FLOAT64"});
    TypeIsKind(field, {"BOOLEAN", "BOOL"});
    TypeIsKind(field, {"JSON"});
    TypeIsKind(field, {"RECORD", "STRUCT"});
    IntegersRead(d, raw);
    FloatsRead(d, raw);
    if d.asObject(raw).Some? { RecordExactly(d, d.asObject(raw).value, field.fields); }
  }

  lemma ElementFits(d: Decoder, item: Bytes, field: Field)
    ensures FitsField(d, item, field.(mode := "")) <==> IsJsonNull(item) || FitsKind(d, item, field)
  {
    ModesAreSpelled();
    assert Upper("") == "";
    hide FitsRecord;
    assert KindOf(field.(mode := "")) == KindOf(field);
    assert FitsKind(d, item, field.(mode := "")) == FitsKind(d, item, field);
  }

  /** A cell is accepted for a column exactly when it fits. */
  lemma FitsExactly(d: Decoder, raw: Bytes, field: Field)
    ensures FitsField(d, raw, field) <==> Fits(d, raw, field)
  {
    hide FitsKind, FitsType, IsJsonNull, IsNull, Spells;
    NullExactly(raw);
    ModesAreSpelled();
    SpelledIsUpper(field.mode, "REQUIRED");
    SpelledIsUpper(field.mode, "REPEATED");
    TypeExactly(d, raw, field);
    if d.asArray(raw).Some? {
      var items := d.asArray(raw).value;
      forall i | 0 <= i < |items|
        ensures FitsField(d, items[i], field.(mode := "")) <==> IsJsonNull(items[i]) || FitsKind(d, items[i], field)
      {
        ElementFits(d, items[i], field);
      }
      assert FitsEach(d, items, field) <==> forall i :: 0 <= i < |items| ==> FitsField(d, items[i], field.(mode := ""));
    }
  }
}
