/** Strings of JSON (section 7 of RFC 8259) read back: neither serializing nor escaping changes what a string
    says. */
module JsonStrings {
  import opened Common
  import opened JsonText
  import opened WireJson
  import Utf8

  // --- a reader ---

  /** The value of a hexadecimal digit in either case. */
  function DigitValue(b: Byte): (v: Option<nat>)
    ensures v.Some? ==> v.value < 16
  {
    var c := b as char;
    if '0' <= c <= '9' then Some(c as int - '0' as int)
    else if 'a' <= c <= 'f' then Some(c as int - 'a' as int + 10)
    else if 'A' <= c <= 'F' then Some(c as int - 'A' as int + 10)
    else None
  }

  /** The code unit of four digits. */
  function CodeUnit(s: Bytes): (v: Option<nat>)
    requires |s| == 4
    ensures v.Some? ==> v.value < 0x1_0000
  {
    var (a, b, c, d) := (DigitValue(s[0]), DigitValue(s[1]), DigitValue(s[2]), DigitValue(s[3]));
    if a.Some? && b.Some? && c.Some? && d.Some?
    then Some(0x1000 * a.value + 0x100 * b.value + 0x10 * c.value + d.value) else None
  }

  /** The byte a short escape stands for. */
  function ShortEscape(b: Byte): Option<Byte> {
    match b as char
    case '"' => Some('"' as int)
    case '\\' => Some('\\' as int)
    case '/' => Some('/' as int)
    case 'b' => Some(8)
    case 'f' => Some(12)
    case 'n' => Some(10)
    case 'r' => Some(13)
    case 't' => Some(9)
    case _ => None
  }

  function Prepended(head: Bytes, rest: Option<Bytes>): Option<Bytes> {
    if rest.Some? then Some(head + rest.value) else None
  }

  /** What stands between the quotation marks, as bytes of UTF-8; a surrogate is not read. */
  function ReadString(s: Bytes): Option<Bytes>
    decreases |s|
  {
    if s == [] then Some([])
    else if s[0] as char == '"' || s[0] < 0x20 then None
    else if s[0] as char != '\\' then Prepended([s[0]], ReadString(s[1..]))
    else if |s| >= 2 && ShortEscape(s[1]).Some? then Prepended([ShortEscape(s[1]).value], ReadString(s[2..]))
    else if |s| >= 6 && s[1] as char == 'u' && CodeUnit(s[2..6]).Some? then
      var n := CodeUnit(s[2..6]).value;
      if 0xD800 <= n < 0xE000 then None else Prepended(Utf8.EncodeChar(n as char), ReadString(s[6..]))
    else None
  }

  // --- one character ---

  lemma CharIsRead(b: Byte, rest: Bytes)
    ensures ReadString(CharText(b) + rest) == Prepended([b], ReadString(rest))
  {
    var s := CharText(b) + rest;
    if |CharText(b)| == 1 {
      assert s[1..] == rest && s[0] == b;
    } else if |CharText(b)| == 2 {
      assert s[2..] == rest && s[0] == 92 && s[1] == CharText(b)[1];
    } else {
      ControlIsRead(b, rest);
    }
  }

  lemma ControlIsRead(b: Byte, rest: Bytes)
    requires |CharText(b)| == 6
    ensures ReadString(CharText(b) + rest) == Prepended([b], ReadString(rest))
  {
    var s := CharText(b) + rest;
    assert s[6..] == rest && s[0] == 92 && s[1] == 117;
    assert s[2..6] == [48, 48, LowerHex(b / 16), LowerHex(b % 16)];
    LowerHexIsRead(b / 16);
    LowerHexIsRead(b % 16);
    LowerHexIsRead(0);
    hide LowerHex, DigitValue;
    assert CodeUnit(s[2..6]) == Some(b as nat);
    assert b < 32 && Utf8.EncodeChar(b as char) == [b];
  }

  lemma LowerHexIsRead(d: nat)
    requires d < 16
    ensures DigitValue(LowerHex(d)) == Some(d) && LowerHex(0) == 48
  {
  }

  /** A serialized string says what it was made of. */
  lemma {:induction false} SerializedIsRead(s: Bytes)
    ensures ReadString(StringBody(s)) == Some(s)
  {
    hide CharText, ReadString;
    if s == [] {
      NothingIsRead();
    } else {
      SerializedIsRead(s[1..]);
      CharIsRead(s[0], StringBody(s[1..]));
      assert [s[0]] + s[1..] == s;
    }
  }

  lemma NothingIsRead()
    ensures ReadString([]) == Some([])
  {
  }

  // --- and escaped ---

  /** What each of the five escapes stands for. */
  lemma EscapeIsRead(s: Bytes, rest: Bytes)
    requires SpecialLength(s) > 0
    ensures ReadString(EscapeOf(s) + rest) == Prepended(s[..SpecialLength(s)], ReadString(rest))
  {
    var t := EscapeOf(s) + rest;
    assert t[6..] == rest && t[2..6] == EscapeOf(s)[2..];
    if SpecialLength(s) == 1 {
      assert EscapeOf(s)[2..] == [48, 48, EscapeOf(s)[4], EscapeOf(s)[5]];
      assert CodeUnit(t[2..6]) == Some(s[0] as nat) && Utf8.EncodeChar(s[0] as char) == [s[0]] == s[..1];
    } else {
      SeparatorIsRead(s);
      assert s[..3] == [s[0], s[1], s[2]];
    }
  }

  lemma SeparatorIsRead(s: Bytes)
    requires SpecialLength(s) == 3
    ensures var n := if s[2] == 0xA8 then 0x2028 else 0x2029;
            CodeUnit(EscapeOf(s)[2..]) == Some(n) && Utf8.EncodeChar(n as char) == [s[0], s[1], s[2]]
  {
    assert EscapeOf(s)[2..] == [50, 48, 50, if s[2] == 0xA8 then 56 else 57];
  }

  /** Escaping has to do with what was special before serializing, and with nothing else. */
  lemma SpecialInBody(s: Bytes)
    requires s != []
    ensures SpecialLength(StringBody(s)) == SpecialLength(s)
    ensures SpecialLength(s) > 0 ==>
              EscapeOf(StringBody(s)) == EscapeOf(s)
              && StringBody(s)[SpecialLength(s)..] == StringBody(s[SpecialLength(s)..])
  {
    BodyStarts(s);
    if SpecialLength(s) == 3 {
      BodyStarts(s[1..]);
      BodyStarts(s[2..]);
      assert s[1..][1..] == s[2..] && s[2..][1..] == s[3..];
      var t := StringBody(s);
      assert t == [s[0]] + ([s[1]] + ([s[2]] + StringBody(s[3..])));
      assert t[3..] == StringBody(s[3..]);
    } else if SpecialLength(s) == 1 {
      assert StringBody(s)[1..] == StringBody(s[1..]);
    } else if s[0] == 0xE2 && |StringBody(s)| > 2 {
      SecondInBody(s);
    }
  }

  lemma BodyStarts(s: Bytes)
    requires s != []
    ensures StringBody(s) == CharText(s[0]) + StringBody(s[1..])
    ensures s[0] >= 0x80 || s[0] == 60 || s[0] == 62 || s[0] == 38 ==> CharText(s[0]) == [s[0]]
    ensures CharText(s[0]) != [] && (CharText(s[0])[0] == s[0] || CharText(s[0])[0] == 92)
    ensures s[0] != 60 && s[0] != 62 && s[0] != 38 && s[0] < 0x80 ==>
              CharText(s[0])[0] < 0x80 && CharText(s[0])[0] != 60 && CharText(s[0])[0] != 62 && CharText(s[0])[0] != 38
  {
  }

  lemma SecondInBody(s: Bytes)
    requires s != [] && s[0] == 0xE2 && SpecialLength(s) == 0
    ensures SpecialLength(StringBody(s)) == 0
  {
    BodyStarts(s);
    hide CharText;
    var t := StringBody(s);
    if |s| > 1 {
      BodyStarts(s[1..]);
      assert t[1..] == StringBody(s[1..]);
      if |s| > 2 {
        BodyStarts(s[2..]);
        assert s[1..][1..] == s[2..];
      } else {
        assert s[1..][1..] == [] && StringBody([]) == [];
      }
    } else {
      assert s[1..] == [] && StringBody([]) == [];
    }
  }

  /** Escaping leaves the text of one plain character alone. */
  lemma CharIsNotEscaped(b: Byte, rest: Bytes)
    requires SpecialLength(CharText(b) + rest) == 0
    ensures Escape(CharText(b) + rest) == CharText(b) + Escape(rest)
  {
    var e := CharText(b);
    if |e| == 1 {
      assert (e + rest)[1..] == rest;
    } else {
      EscapePlainHead(e, rest);
    }
  }

  /** A string that was serialized and escaped is read as the string it was: also its markup characters and line
      separators, in whatever bytes. */
  lemma {:induction false} EscapedIsRead(s: Bytes)
    ensures ReadString(Escape(StringBody(s))) == Some(s)
    decreases |s|
  {
    hide CharText, ReadString, EscapeOf, SpecialLength;
    if s == [] {
      NothingIsRead();
      EscapeOfNothing();
    } else {
      SpecialInBody(s);
      var n := SpecialLength(s);
      if n > 0 {
        EscapedIsRead(s[n..]);
        EscapeIsRead(s, Escape(StringBody(s[n..])));
        assert s[..n] + s[n..] == s;
      } else {
        EscapedIsRead(s[1..]);
        CharIsNotEscaped(s[0], StringBody(s[1..]));
        CharIsRead(s[0], Escape(StringBody(s[1..])));
        assert [s[0]] + s[1..] == s;
      }
    }
  }

  // --- what escaping leaves ---

  /** None of the characters that mean something in HTML, and no line or paragraph separator. */
  predicate IsInert(t: Bytes) {
    && (forall i :: 0 <= i < |t| ==> t[i] as char !in {'<', '>', '&'})
    && (forall i :: 0 <= i <= |t| - 3 ==> !IsSeparator(t[i], t[i + 1], t[i + 2]))
  }

  /** U+2028 and U+2029 in UTF-8. */
  predicate IsSeparator(a: Byte, b: Byte, c: Byte) {
    a == 0xE2 && b == 0x80 && (c == 0xA8 || c == 0xA9)
  }

  lemma EscapeUnfolds(s: Bytes)
    requires s != []
    ensures Escape(s) == HeadText(s) + Escape(s[HeadLength(s)..])
    ensures SpecialLength(s) > 0 ==> Escape(s) != [] && Escape(s)[0] == BACKSLASH
    ensures SpecialLength(s) == 0 ==> Escape(s) == [s[0]] + Escape(s[1..])
  {
    hide SpecialLength;
  }

  lemma KeptIsNoSeparator(s: Bytes)
    requires s != [] && SpecialLength(s) == 0
    ensures s[0] as char !in {'<', '>', '&'}
    ensures |s| > 2 ==> !IsSeparator(s[0], s[1], s[2])
  {
  }

  lemma EscapeIsPlain(s: Bytes)
    requires SpecialLength(s) > 0
    ensures forall i :: 0 <= i < |HeadText(s)| ==> HeadText(s)[i] < 0x80 && HeadText(s)[i] as char !in {'<', '>', '&'}
  {
    hide SpecialLength, EscapeOf;
    var e := EscapeOf(s);
    forall i | 0 <= i < |e| ensures e[i] < 0x80 && e[i] as char !in {'<', '>', '&'} {
      if i >= 2 { assert 48 <= e[i] <= 102; }
    }
  }

  /** Two bytes that stay at the head of the rest were there before. */
  lemma NoSeparatorAtHead(s: Bytes)
    requires s != [] && SpecialLength(s) == 0
    ensures var rest := Escape(s[1..]); |rest| < 2 || !IsSeparator(s[0], rest[0], rest[1])
  {
    hide SpecialLength, Escape, HeadText, HeadLength;
    KeptIsNoSeparator(s);
    EscapeOfNothing();
    var t := s[1..];
    if t != [] {
      EscapeUnfolds(t);
      if SpecialLength(t) == 0 && t[1..] != [] { EscapeUnfolds(t[1..]); }
    }
  }

  lemma InertAfter(head: Bytes, rest: Bytes)
    requires IsInert(rest) && forall i :: 0 <= i < |head| ==> head[i] as char !in {'<', '>', '&'}
    requires (forall i :: 0 <= i < |head| ==> head[i] < 0x80)
             || (|head| == 1 && (|rest| < 2 || !IsSeparator(head[0], rest[0], rest[1])))
    ensures IsInert(head + rest)
  {
    var t := head + rest;
    forall i | 0 <= i <= |t| - 3 ensures !IsSeparator(t[i], t[i + 1], t[i + 2]) {
      if i >= |head| {
        var j := i - |head|;
        assert t[i] == rest[j] && t[i + 1] == rest[j + 1] && t[i + 2] == rest[j + 2];
      }
    }
  }

  /** Nothing of the kind is left after escaping, in any bytes. */
  lemma {:induction false} EscapedIsInert(s: Bytes)
    ensures IsInert(Escape(s))
    decreases |s|
  {
    hide SpecialLength, Escape, IsSeparator;
    if s == [] {
      EscapeOfNothing();
    } else {
      var (head, rest) := (HeadText(s), Escape(s[HeadLength(s)..]));
      EscapeUnfolds(s);
      EscapedIsInert(s[HeadLength(s)..]);
      if SpecialLength(s) > 0 {
        EscapeIsPlain(s);
        InertAfter(head, rest);
      } else {
        KeptIsNoSeparator(s);
        NoSeparatorAtHead(s);
        InertAfter(head, rest);
      }
    }
  }
}
