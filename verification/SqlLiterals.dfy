/** A quoted literal of a query is the JSON text that the services write for the same string. */
module SqlLiterals {
  import opened Common
  import opened JsonDecoding
  import opened JsonText
  import opened RustStr
  import opened SqlAst
  import opened SqlParser
  import JsonStrings
  import Utf8
  import WireJson

  lemma {:induction false} BodyConcat(a: Bytes, b: Bytes)
    ensures StringBody(a + b) == StringBody(a) + StringBody(b)
  {
    hide CharText;
    if a == [] {
      assert a + b == b;
    } else {
      assert (a + b)[1..] == a[1..] + b;
      BodyConcat(a[1..], b);
    }
  }

  lemma {:induction false} HighBytesStay(s: Bytes)
    requires forall i :: 0 <= i < |s| ==> s[i] >= 0x80
    ensures StringBody(s) == s
  {
    if s != [] { HighBytesStay(s[1..]); }
  }

  predicate StartsCharacter(s: Bytes) {
    s == [] || !(0x80 <= s[0] < 0xC0)
  }

  lemma CharStarts(c: char)
    ensures StartsCharacter(StringBody(Utf8.EncodeChar(c))) && StringBody(Utf8.EncodeChar(c)) != []
  {
    var e := Utf8.EncodeChar(c);
    if c as int < 0x80 { OneByte(e[0]); } else { HighBytesStay(e); }
  }

  lemma OneByte(b: Byte)
    ensures StringBody([b]) == CharText(b)
  {
    assert [b][1..] == [];
  }

  lemma TextStarts(s: string)
    ensures StartsCharacter(StringBody(Utf8.Encode(s)))
  {
    hide Utf8.EncodeChar, CharText;
    if s != "" {
      CharStarts(s[0]);
      BodyConcat(Utf8.EncodeChar(s[0]), Utf8.Encode(s[1..]));
    }
  }

  lemma NoStraddle(a: Bytes, b: Bytes)
    requires StartsCharacter(b)
    ensures !WireJson.Straddles(a, b)
  {
  }

  // --- one character ---

  lemma AsciiText(s: string)
    requires |s| <= 6 && forall i :: 0 <= i < |s| ==> s[i] as int < 0x80
    ensures |Utf8.Encode(s)| == |s| && forall i :: 0 <= i < |s| ==> Utf8.Encode(s)[i] == s[i] as int
    decreases s
  {
    if s != "" { AsciiText(s[1..]); }
  }

  lemma PlainStays(s: Bytes)
    requires forall i :: 0 <= i < |s| ==> !WireJson.NeedsEscape(s[i])
    ensures WireJson.Escape(s) == s
  {
    WireJson.NothingToEscape(s);
  }

  lemma MarkupChar(c: char)
    requires c == '<' || c == '>' || c == '&'
    ensures WireJson.Escape([c as int]) == Utf8.Encode(QuoteChar(c))
  {
    var b: Byte := c as int;
    AsciiText(QuoteChar(c));
    hide Utf8.Encode;
    assert [b][1..] == [];
    assert WireJson.Escape([b]) == WireJson.EscapeOf([b]) + WireJson.Escape([]);
  }

  lemma CharTextPlain(b: Byte)
    requires b < 0x80 && b != 60 && b != 62 && b != 38
    ensures WireJson.Escape(CharText(b)) == CharText(b)
  {
    if b < 32 { HexIsPlain(b / 16); HexIsPlain(b % 16); }
    hide LowerHex, WireJson.Escape;
    PlainStays(CharText(b));
  }

  lemma HexIsPlain(n: nat)
    requires n < 16
    ensures !WireJson.NeedsEscape(LowerHex(n))
  {
  }

  lemma QuotedIsCharText(c: char)
    requires c as int < 0x80 && c != '<' && c != '>' && c != '&'
    ensures Utf8.Encode(QuoteChar(c)) == CharText(c as int)
  {
    AsciiText(QuoteChar(c));
    hide Utf8.Encode;
  }

  lemma AsciiChar(c: char)
    requires c as int < 0x80
    ensures WireJson.Escape(StringBody(Utf8.EncodeChar(c))) == Utf8.Encode(QuoteChar(c))
  {
    var b: Byte := c as int;
    OneByte(b);
    if c == '<' || c == '>' || c == '&' {
      MarkupChar(c);
    } else {
      hide QuoteChar, CharText, WireJson.Escape;
      QuotedIsCharText(c);
      CharTextPlain(b);
    }
  }

  predicate IsSeparator(c: char) {
    c as int == 0x2028 || c as int == 0x2029
  }

  lemma SeparatorBytes(c: char)
    requires IsSeparator(c)
    ensures Utf8.EncodeChar(c) == [0xE2, 0x80, 0x80 + c as int % 0x40]
  {
  }

  lemma SeparatorChar(c: char)
    requires IsSeparator(c)
    ensures WireJson.Escape(Utf8.EncodeChar(c)) == Utf8.Encode(QuoteChar(c))
  {
    SeparatorBytes(c);
    hide Utf8.EncodeChar;
    var e := Utf8.EncodeChar(c);
    AsciiText(QuoteChar(c));
    hide Utf8.Encode;
    assert e[3..] == [] && WireJson.SpecialLength(e) == 3;
    assert WireJson.Escape(e) == WireJson.EscapeOf(e) + WireJson.Escape([]);
  }

  lemma OtherChar(c: char)
    requires c as int >= 0x80 && !IsSeparator(c)
    ensures Utf8.Encode(QuoteChar(c)) == Utf8.EncodeChar(c)
  {
    hide Utf8.EncodeChar;
    assert QuoteChar(c) == [c] && [c][1..] == "";
  }

  lemma HighBytes(c: char)
    requires c as int >= 0x80
    ensures forall i :: 0 <= i < |Utf8.EncodeChar(c)| ==> Utf8.EncodeChar(c)[i] >= 0x80
  {
  }

  lemma HighChar(c: char)
    requires c as int >= 0x80
    ensures WireJson.Escape(StringBody(Utf8.EncodeChar(c))) == Utf8.Encode(QuoteChar(c))
  {
    hide Utf8.EncodeChar, Utf8.Encode, QuoteChar, WireJson.Escape, StringBody;
    HighBytes(c);
    HighBytesStay(Utf8.EncodeChar(c));
    if IsSeparator(c) {
      SeparatorChar(c);
    } else {
      OtherChar(c);
      HighStays(c);
    }
  }

  lemma HighStays(c: char)
    requires c as int >= 0x80 && !IsSeparator(c)
    ensures WireJson.Escape(Utf8.EncodeChar(c)) == Utf8.EncodeChar(c)
  {
    var e := Utf8.EncodeChar(c);
    assert WireJson.SpecialLength(e) == 0;
    assert forall i :: 1 <= i < |e| ==> !WireJson.NeedsEscape(e[i]);
    PlainStays(e[1..]);
    assert e == [e[0]] + e[1..];
  }

  lemma OneChar(c: char)
    ensures WireJson.Escape(StringBody(Utf8.EncodeChar(c))) == Utf8.Encode(QuoteChar(c))
  {
    if c as int < 0x80 { AsciiChar(c); } else { HighChar(c); }
  }

  // --- whole strings ---

  lemma {:induction false} BodyIsMarshalled(s: string)
    ensures WireJson.Escape(StringBody(Utf8.Encode(s))) == Utf8.Encode(QuoteBody(s))
  {
    hide Utf8.EncodeChar, CharText, QuoteChar, WireJson.Escape;
    if s == "" {
      WireJson.NothingToEscape([]);
    } else {
      var (c, rest) := (s[0], s[1..]);
      BodyIsMarshalled(rest);
      OneChar(c);
      BodyConcat(Utf8.EncodeChar(c), Utf8.Encode(rest));
      TextStarts(rest);
      NoStraddle(StringBody(Utf8.EncodeChar(c)), StringBody(Utf8.Encode(rest)));
      WireJson.EscapeConcat(StringBody(Utf8.EncodeChar(c)), StringBody(Utf8.Encode(rest)));
      Utf8.EncodeConcat(QuoteChar(c), QuoteBody(rest));
    }
  }

  /** The text made of a single-quoted literal, as bytes, is the marshalled string. */
  lemma QuoteIsMarshal(s: string)
    ensures Utf8.Encode(Quote(s)) == Marshal(Str(Utf8.Encode(s)))
  {
    hide QuoteBody, StringBody, Utf8.Encode, WireJson.Escape;
    var body := StringBody(Utf8.Encode(s));
    BodyIsMarshalled(s);
    Utf8.EncodeConcat("\"" + QuoteBody(s), "\"");
    Utf8.EncodeConcat("\"", QuoteBody(s));
    QuoteMark();
    NoStraddle([34] + body, [34]);
    WireJson.EscapeConcat([34] + body, [34]);
    TextStarts(s);
    NoStraddle([34], body);
    WireJson.EscapeConcat([34], body);
  }

  lemma QuoteMark()
    ensures Utf8.Encode("\"") == [34] && WireJson.Escape([34]) == [34] && StartsCharacter([34])
  {
    assert "\""[1..] == "";
    WireJson.NothingToEscape([34]);
  }

  // --- the forms of a literal ---

  /** No single quotation mark at either end. */
  predicate IsUnquoted(x: string) {
    x != "" ==> x[0] != '\'' && x[|x| - 1] != '\''
  }

  lemma MarksAreTrimmed(x: string)
    requires IsUnquoted(x)
    ensures var s := "'" + x + "'"; Trim(s) == s && TrimMatches(s, '\'') == x
  {
    var s := "'" + x + "'";
    TrimOfTight(s);
    hide Trim;
    assert s[1..] == x + "'" && (x + "'")[..|x|] == x;
    LastMarkIsTrimmed(x);
  }

  lemma LastMarkIsTrimmed(x: string)
    requires IsUnquoted(x)
    ensures TrimMatches(x + "'", '\'') == x
  {
    var s := x + "'";
    assert s[..|x|] == x;
    if x == "" {
      assert s == "'" && s[1..] == "";
    } else {
      assert s[0] == x[0] && TrimMatches(x, '\'') == x;
    }
  }

  /** `'x'` is the JSON string x: its text is the marshalled string, and read by section 7 of RFC 8259 it says x. */
  lemma SingleQuotedIsTheString(d: Decoder, x: string)
    requires IsUnquoted(x)
    ensures var r := Literal(d, "'" + x + "'");
            && r.Ok? && |r.value| >= 2 && r.value[0] == '"' && r.value[|r.value| - 1] == '"'
            && Utf8.Encode(r.value) == Marshal(Str(Utf8.Encode(x)))
            && JsonStrings.ReadString(Utf8.Encode(r.value[1..|r.value| - 1])) == Some(Utf8.Encode(x))
  {
    hide Trim, TrimMatches, QuoteBody, Utf8.Encode, StringBody, JsonStrings.ReadString, WireJson.Escape;
    MarksAreTrimmed(x);
    QuoteIsMarshal(x);
    BodyIsMarshalled(x);
    JsonStrings.EscapedIsRead(Utf8.Encode(x));
    assert Quote(x)[1..|Quote(x)| - 1] == QuoteBody(x);
  }

  /** The words TRUE, FALSE and NULL in any case are the JSON words. */
  lemma WordsAreTheWords(d: Decoder, s: string)
    requires Trim(s) == s
    ensures Upper(s) == "TRUE" ==> Literal(d, s) == Ok("true")
    ensures Upper(s) == "FALSE" ==> Literal(d, s) == Ok("false")
    ensures Upper(s) == "NULL" ==> Literal(d, s) == Ok("null")
  {
    hide Trim, TrimMatches, Quote;
    assert s != "" ==> Upper(s)[0] == UpperChar(s[0]);
  }

  /** Anything else is JSON text and stands for itself, or is refused: in double quotes it has to be a JSON string,
      without them it has to begin with a JSON value. */
  lemma OtherLiterals(d: Decoder, s: string)
    requires Trim(s) == s && s != "" && s[0] != '\'' && Upper(s) !in {"TRUE", "FALSE", "NULL"}
    ensures s[0] == '"' && s[|s| - 1] == '"' ==>
              Literal(d, s) == if d.asString(Utf8.Encode(s)).Some? then Ok(s) else Err(InvalidString)
    ensures !(s[0] == '"' && s[|s| - 1] == '"') ==>
              Literal(d, s) == if d.first(Utf8.Encode(s)).Some? then Ok(s) else Err(WhereNeedsLiteral)
  {
    hide Trim, TrimMatches, Quote, Upper;
  }
}
