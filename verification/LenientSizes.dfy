/** The sizes that the Cloud Run decoder reads from a line, said without its trimming. */
module LenientSizes {
  import opened Common
  import opened ChunkGrammar
  import opened ChunkedCloudRun
  import opened Utf8
  import opened Words
  import RustStr

  /** White space as `char::is_whitespace` has it, the digits of a size, white space, and after them nothing or a
      semicolon and an extension. */
  ghost predicate AnnouncesLeniently(text: Bytes, n: nat) {
    exists a, digits, b, extension ::
      text == Encode(a) + digits + Encode(b) + extension && IsBlank(a) && IsBlank(b) && IsHexText(digits, n)
      && (extension == [] || extension[0] as char == ';')
  }

  // --- one white-space character ---

  lemma SpaceBytes(c: char)
    requires RustStr.IsWhitespace(c)
    ensures var e := EncodeChar(c);
            || (|e| == 1 && (9 <= e[0] <= 13 || e[0] == 32))
            || (|e| == 2 && IsSpace2(e[0], e[1]))
            || (|e| == 3 && IsSpace3(e[0], e[1], e[2]))
  {
  }

  lemma SpaceTakenAtHead(c: char, rest: Bytes)
    requires RustStr.IsWhitespace(c)
    ensures var s := EncodeChar(c) + rest;
            SpaceAtHead(s) == |EncodeChar(c)| > 0 && s[|EncodeChar(c)|..] == rest
  {
    SpaceBytes(c);
    var e := EncodeChar(c);
    assert forall i :: 0 <= i < |e| ==> (e + rest)[i] == e[i];
    hide EncodeChar, RustStr.IsWhitespace;
  }

  lemma SpaceTakenAtEnd(before: Bytes, c: char)
    requires RustStr.IsWhitespace(c)
    ensures var s := before + EncodeChar(c);
            SpaceAtEnd(s) == |EncodeChar(c)| > 0 && s[..|s| - |EncodeChar(c)|] == before
  {
    SpaceBytes(c);
    var e := EncodeChar(c);
    var s := before + e;
    assert forall i :: 0 <= i < |e| ==> s[|before| + i] == e[i];
    hide EncodeChar, RustStr.IsWhitespace;
  }

  lemma OneByte(b: Byte) returns (c: char)
    requires 9 <= b <= 13 || b == 32
    ensures EncodeChar(c) == [b] && RustStr.IsWhitespace(c)
  {
    c := b as char;
  }

  lemma TwoByteSpace(a: Byte, b: Byte) returns (c: char)
    requires IsSpace2(a, b)
    ensures EncodeChar(c) == [a, b] && RustStr.IsWhitespace(c)
  {
    c := b as char;
  }

  lemma ThreeByteSpace(x: Byte, y: Byte, z: Byte) returns (c: char)
    requires IsSpace3(x, y, z)
    ensures EncodeChar(c) == [x, y, z] && RustStr.IsWhitespace(c)
  {
    var n: int := (x - 0xE0) * 0x1000 + (y - 0x80) * 0x40 + (z - 0x80);
    c := n as char;
  }

  lemma SpaceOfHead(s: Bytes) returns (c: char)
    requires SpaceAtHead(s) > 0
    ensures s[..SpaceAtHead(s)] == EncodeChar(c) && RustStr.IsWhitespace(c)
  {
    hide EncodeChar, RustStr.IsWhitespace;
    var n := SpaceAtHead(s);
    if n == 1 { c := OneByte(s[0]); }
    else if n == 2 { c := TwoByteSpace(s[0], s[1]); }
    else { c := ThreeByteSpace(s[0], s[1], s[2]); }
  }

  lemma SpaceOfEnd(s: Bytes) returns (c: char)
    requires SpaceAtEnd(s) > 0
    ensures s[|s| - SpaceAtEnd(s)..] == EncodeChar(c) && RustStr.IsWhitespace(c)
  {
    hide EncodeChar, RustStr.IsWhitespace;
    var (n, k) := (SpaceAtEnd(s), |s|);
    if n == 1 { c := OneByte(s[k - 1]); }
    else if n == 2 { c := TwoByteSpace(s[k - 2], s[k - 1]); }
    else { c := ThreeByteSpace(s[k - 3], s[k - 2], s[k - 1]); }
  }

  // --- trimming ---

  lemma {:induction false} HeadIsBlank(s: Bytes) returns (a: string)
    ensures s == Encode(a) + TrimStart(s) && IsBlank(a)
  {
    hide EncodeChar, RustStr.IsWhitespace, SpaceAtHead;
    var n := SpaceAtHead(s);
    if n == 0 {
      a := "";
    } else {
      var c := SpaceOfHead(s);
      var more := HeadIsBlank(s[n..]);
      a := [c] + more;
      assert a[1..] == more;
      assert s == s[..n] + s[n..];
    }
  }

  lemma {:induction false} EndIsBlank(s: Bytes) returns (b: string)
    ensures s == TrimEnd(s) + Encode(b) && IsBlank(b)
  {
    hide EncodeChar, RustStr.IsWhitespace, SpaceAtEnd;
    var n := SpaceAtEnd(s);
    if n == 0 {
      b := "";
    } else {
      var k := |s|;
      var c := SpaceOfEnd(s);
      var more := EndIsBlank(s[..k - n]);
      b := more + [c];
      EncodeConcat(more, [c]);
      assert [c][1..] == "" && Encode([c]) == EncodeChar(c) + Encode("");
      assert s == s[..k - n] + s[k - n..];
    }
  }

  lemma {:induction false} BlankHeadGoes(a: string, s: Bytes)
    requires IsBlank(a) && SpaceAtHead(s) == 0
    ensures TrimStart(Encode(a) + s) == s
  {
    hide EncodeChar, RustStr.IsWhitespace, SpaceAtHead;
    if a == "" {
      assert Encode(a) + s == s;
    } else {
      BlankHeadGoes(a[1..], s);
      assert Encode(a) + s == EncodeChar(a[0]) + (Encode(a[1..]) + s);
      SpaceTakenAtHead(a[0], Encode(a[1..]) + s);
    }
  }

  lemma {:induction false} BlankEndGoes(s: Bytes, b: string)
    requires IsBlank(b) && SpaceAtEnd(s) == 0
    ensures TrimEnd(s + Encode(b)) == s
  {
    hide EncodeChar, RustStr.IsWhitespace, SpaceAtEnd;
    if b == "" {
      assert s + Encode(b) == s;
    } else {
      var (init, c) := (b[..|b| - 1], b[|b| - 1]);
      BlankEndGoes(s, init);
      assert b == init + [c];
      EncodeConcat(init, [c]);
      assert [c][1..] == "" && Encode([c]) == EncodeChar(c) + Encode("");
      assert s + Encode(b) == (s + Encode(init)) + EncodeChar(c);
      SpaceTakenAtEnd(s + Encode(init), c);
    }
  }

  // --- sizes ---

  lemma DigitsAreNoSpace(digits: Bytes, rest: Bytes)
    requires digits != [] && AllHex(digits)
    ensures SpaceAtHead(digits + rest) == 0 && SpaceAtEnd(digits) == 0 && digits[0] != 43 && SEMICOLON !in digits
  {
    assert (digits + rest)[0] == digits[0];
    assert IsHexDigit(digits[|digits| - 1]);
  }

  lemma {:induction false} BlanksHoldNoSemicolon(a: string)
    requires IsBlank(a)
    ensures SEMICOLON !in Encode(a)
  {
    if a != "" {
      BlanksHoldNoSemicolon(a[1..]);
      SpaceBytes(a[0]);
      hide EncodeChar, RustStr.IsWhitespace;
    }
  }

  lemma ReadsTrimmed(text: Bytes, n: nat)
    ensures SizeOfText(text) == Some(n)
            <==> IsHexText(TrimEnd(TrimStart(SizeField(text))), n) && n <= 0xFFFF_FFFF_FFFF_FFFF
  {
    hide TrimEnd, TrimStart, SizeField, HexValue, AllHex, IsHexText;
    var s := TrimEnd(TrimStart(SizeField(text)));
    HexTextIsValue(s, n);
    PlusIsNoDigit(s);
  }

  lemma PlusIsNoDigit(s: Bytes)
    ensures s != [] && s[0] == 43 ==> !AllHex(s)
  {
  }

  lemma AnnouncedIsTrimmed(a: string, digits: Bytes, b: string, extension: Bytes, n: nat)
    requires IsBlank(a) && IsBlank(b) && IsHexText(digits, n) && (extension == [] || extension[0] as char == ';')
    ensures TrimEnd(TrimStart(SizeField(Encode(a) + digits + Encode(b) + extension))) == digits
  {
    hide SizeField, TrimStart, TrimEnd, IsHexText, AllHex, Encode;
    HexTextIsValue(digits, n);
    DigitsAreNoSpace(digits, Encode(b));
    BlanksHoldNoSemicolon(a);
    BlanksHoldNoSemicolon(b);
    FieldBefore(Encode(a) + digits + Encode(b), extension);
    assert Encode(a) + digits + Encode(b) == Encode(a) + (digits + Encode(b));
    BlankHeadGoes(a, digits + Encode(b));
    BlankEndGoes(digits, b);
  }

  /** A line's text announces the size that it says, if the size fits 64 bits; any other text announces none. */
  lemma SizeIsAnnouncedLeniently(text: Bytes, n: nat)
    ensures SizeOfText(text) == Some(n) <==> AnnouncesLeniently(text, n) && n <= 0xFFFF_FFFF_FFFF_FFFF
  {
    hide SizeField, TrimStart, TrimEnd, IsHexText, SizeOfText, Encode, IsBlank;
    ReadsTrimmed(text, n);
    var s := SizeField(text);
    if IsHexText(TrimEnd(TrimStart(s)), n) {
      FieldIsCut(text);
      var a := HeadIsBlank(s);
      var b := EndIsBlank(TrimStart(s));
      assert text == s + text[|s|..];
      var extension := text[|s|..];
      assert text == Encode(a) + TrimEnd(TrimStart(s)) + Encode(b) + extension;
      assert AnnouncesLeniently(text, n);
    }
    if AnnouncesLeniently(text, n) {
      var a, digits, b, extension :|
        text == Encode(a) + digits + Encode(b) + extension && IsBlank(a) && IsBlank(b) && IsHexText(digits, n)
        && (extension == [] || extension[0] as char == ';');
      AnnouncedIsTrimmed(a, digits, b, extension, n);
    }
  }
}
