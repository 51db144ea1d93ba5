/** `String::from_utf8_lossy`: each maximal piece of bytes that is not UTF-8 becomes one U+FFFD. */
module Utf8 {
  import opened Common

  const REPLACEMENT: Bytes := [0xEF, 0xBF, 0xBD]

  predicate IsContinuation(b: Byte) {
    0x80 <= b <= 0xBF
  }

  /** How many bytes a character that starts with `b` takes; 0 if none starts so. */
  function Width(b: Byte): nat {
    if b < 0x80 then 1
    else if 0xC2 <= b <= 0xDF then 2
    else if 0xE0 <= b <= 0xEF then 3
    else if 0xF0 <= b <= 0xF4 then 4
    else 0
  }

  /** Whether `c` may follow the first byte `b` (no overlong form, no surrogate, nothing past U+10FFFF). */
  predicate SecondFits(b: Byte, c: Byte) {
    if b == 0xE0 then 0xA0 <= c <= 0xBF
    else if b == 0xED then 0x80 <= c <= 0x9F
    else if b == 0xF0 then 0x90 <= c <= 0xBF
    else if b == 0xF4 then 0x80 <= c <= 0x8F
    else IsContinuation(c)
  }

  /** How many bytes at the head of `s` are the beginning of one character, in full or cut short. */
  function Matched(s: Bytes): (n: nat)
    requires s != []
    ensures n <= |s| && n <= Width(s[0])
    ensures Width(s[0]) > 0 ==> n > 0
  {
    var w := Width(s[0]);
    if w <= 1 then w
    else if |s| < 2 || !SecondFits(s[0], s[1]) then 1
    else if w == 2 || |s| < 3 || !IsContinuation(s[2]) then 2
    else if w == 3 || |s| < 4 || !IsContinuation(s[3]) then 3
    else 4
  }

  predicate StartsWithChar(s: Bytes) {
    s != [] && Width(s[0]) > 0 && Matched(s) == Width(s[0])
  }

  function Lossy(s: Bytes): Bytes {
    if s == [] then []
    else if StartsWithChar(s) then s[..Matched(s)] + Lossy(s[Matched(s)..])
    else REPLACEMENT + Lossy(s[if Matched(s) == 0 then 1 else Matched(s)..])
  }

  predicate ValidUtf8(s: Bytes) {
    s == [] || (StartsWithChar(s) && ValidUtf8(s[Matched(s)..]))
  }

  /** Text that is UTF-8 already is left alone. */
  lemma {:induction false} LossyKeepsUtf8(s: Bytes)
    requires ValidUtf8(s)
    ensures Lossy(s) == s
  {
    if s != [] {
      LossyKeepsUtf8(s[Matched(s)..]);
    }
  }

  predicate IsAscii(s: Bytes) {
    forall i :: 0 <= i < |s| ==> s[i] < 0x80
  }

  /** An ASCII head is left alone whatever follows it. */
  lemma {:induction false} LossyKeepsAsciiHead(a: Bytes, rest: Bytes)
    requires IsAscii(a)
    ensures Lossy(a + rest) == a + Lossy(rest)
  {
    if a == [] {
      assert a + rest == rest;
    } else {
      assert (a + rest)[1..] == a[1..] + rest;
      assert (a + rest)[..1] == [a[0]];
      LossyKeepsAsciiHead(a[1..], rest);
    }
  }

  lemma LossyKeepsAscii(a: Bytes)
    requires IsAscii(a)
    ensures Lossy(a) == a
  {
    LossyKeepsAsciiHead(a, []);
    assert a + [] == a && Lossy([]) == [];
  }

  lemma LossyIsEmptyOnlyOnEmpty(s: Bytes)
    ensures Lossy(s) == [] <==> s == []
  {
  }

  lemma MatchedIgnoresTail(c: Bytes, rest: Bytes)
    requires StartsWithChar(c) && Matched(c) == |c|
    ensures StartsWithChar(c + rest) && Matched(c + rest) == |c|
  {
  }

  /** The result is always UTF-8. */
  lemma {:induction false} LossyIsUtf8(s: Bytes)
    ensures ValidUtf8(Lossy(s))
  {
    if s != [] {
      var c := if StartsWithChar(s) then s[..Matched(s)] else REPLACEMENT;
      var rest := if StartsWithChar(s) then s[Matched(s)..] else s[if Matched(s) == 0 then 1 else Matched(s)..];
      LossyIsUtf8(rest);
      OneChar(s);
      MatchedIgnoresTail(c, Lossy(rest));
      assert (c + Lossy(rest))[|c|..] == Lossy(rest);
    }
  }

  lemma OneChar(s: Bytes)
    ensures StartsWithChar(s) ==> StartsWithChar(s[..Matched(s)]) && Matched(s[..Matched(s)]) == Matched(s)
    ensures StartsWithChar(REPLACEMENT) && Matched(REPLACEMENT) == 3
  {
  }

  // --- encoding ---

  function EncodeChar(c: char): Bytes {
    var n := c as int;
    if n < 0x80 then [n]
    else if n < 0x800 then [0xC0 + n / 0x40, 0x80 + n % 0x40]
    else if n < 0x1_0000 then [0xE0 + n / 0x1000, 0x80 + n / 0x40 % 0x40, 0x80 + n % 0x40]
    else [0xF0 + n / 0x4_0000, 0x80 + n / 0x1000 % 0x40, 0x80 + n / 0x40 % 0x40, 0x80 + n % 0x40]
  }

  function Encode(s: string): Bytes {
    if s == "" then [] else EncodeChar(s[0]) + Encode(s[1..])
  }

  lemma {:induction false} EncodeConcat(a: string, b: string)
    ensures Encode(a + b) == Encode(a) + Encode(b)
  {
    hide EncodeChar;
    if a == "" {
      assert a + b == b;
    } else {
      assert (a + b)[1..] == a[1..] + b;
      EncodeConcat(a[1..], b);
    }
  }

  // --- what is UTF-8, and what becomes of the rest ---

  lemma CharMatches(c: char, s: Bytes)
    requires EncodeChar(c) <= s
    ensures StartsWithChar(s) && Matched(s) == |EncodeChar(c)|
  {
    var e := EncodeChar(c);
    assert forall i :: 0 <= i < |e| ==> s[i] == e[i];
  }

  lemma CharIsOne(c: char, rest: Bytes)
    ensures var e := EncodeChar(c);
            StartsWithChar(e + rest) && Matched(e + rest) == |e| && (e + rest)[..|e|] == e && (e + rest)[|e|..] == rest
  {
    CharMatches(c, EncodeChar(c) + rest);
  }

  /** The encoding of any text is UTF-8. */
  lemma {:induction false} EncodedIsUtf8(s: string, rest: Bytes)
    ensures ValidUtf8(Encode(s) + rest) <==> ValidUtf8(rest)
  {
    hide EncodeChar, Matched;
    if s == "" {
      assert [] + rest == rest;
    } else {
      EncodedIsUtf8(s[1..], rest);
      CharIsOne(s[0], Encode(s[1..]) + rest);
      assert Encode(s) + rest == EncodeChar(s[0]) + (Encode(s[1..]) + rest);
    }
  }

  lemma TwoBytes(a: Byte, b: Byte) returns (c: char)
    requires 0xC2 <= a <= 0xDF && IsContinuation(b)
    ensures EncodeChar(c) == [a, b]
  {
    var (x, y) := (a - 0xC0, b - 0x80);
    var n: int := x * 0x40 + y;
    assert n / 0x40 == x && n % 0x40 == y;
    c := n as char;
  }

  lemma ThreeBytes(a: Byte, b: Byte, e: Byte) returns (c: char)
    requires 0xE0 <= a <= 0xEF && SecondFits(a, b) && IsContinuation(e)
    ensures EncodeChar(c) == [a, b, e]
  {
    var (x, y, z) := (a - 0xE0, b - 0x80, e - 0x80);
    var n: int := x * 0x1000 + y * 0x40 + z;
    assert n / 0x40 == x * 0x40 + y && n % 0x40 == z;
    assert n / 0x1000 == x && (x * 0x40 + y) % 0x40 == y;
    c := n as char;
  }

  lemma FourDigits(x: nat, y: nat, z: nat, w: nat)
    requires y < 0x40 && z < 0x40 && w < 0x40
    ensures var n := x * 0x4_0000 + y * 0x1000 + z * 0x40 + w;
            n / 0x4_0000 == x && n / 0x1000 % 0x40 == y && n / 0x40 % 0x40 == z && n % 0x40 == w
  {
    var n := x * 0x4_0000 + y * 0x1000 + z * 0x40 + w;
    assert n / 0x40 == x * 0x1000 + y * 0x40 + z;
    assert n / 0x1000 == x * 0x40 + y;
  }

  lemma FourBytes(a: Byte, b: Byte, e: Byte, f: Byte) returns (c: char)
    requires 0xF0 <= a <= 0xF4 && SecondFits(a, b) && IsContinuation(e) && IsContinuation(f)
    ensures EncodeChar(c) == [a, b, e, f]
  {
    var n: int := (a - 0xF0) * 0x4_0000 + (b - 0x80) * 0x1000 + (e - 0x80) * 0x40 + (f - 0x80);
    assert 0x1_0000 <= n < 0x11_0000;
    FourDigits(a - 0xF0, b - 0x80, e - 0x80, f - 0x80);
    c := n as char;
  }

  lemma CharOf(s: Bytes) returns (c: char)
    requires StartsWithChar(s)
    ensures EncodeChar(c) == s[..Matched(s)]
  {
    var n := Width(s[0]);
    hide EncodeChar;
    if n == 1 {
      c := OneByteChar(s[0]);
    } else if n == 2 {
      c := TwoBytes(s[0], s[1]);
    } else if n == 3 {
      c := ThreeBytes(s[0], s[1], s[2]);
    } else {
      c := FourBytes(s[0], s[1], s[2], s[3]);
    }
  }

  lemma OneByteChar(a: Byte) returns (c: char)
    requires a < 0x80
    ensures EncodeChar(c) == [a]
  {
    c := a as char;
  }

  /** What is UTF-8 is the encoding of a text. */
  lemma {:induction false} Utf8IsEncoded(s: Bytes) returns (text: string)
    requires ValidUtf8(s)
    ensures Encode(text) == s
  {
    hide EncodeChar;
    text := "";
    if s != [] {
      var c := CharOf(s);
      var rest := Utf8IsEncoded(s[Matched(s)..]);
      text := [c] + rest;
      assert s == s[..Matched(s)] + s[Matched(s)..];
    }
  }

  /** Text before a damaged place is left alone. */
  lemma {:induction false} LossyKeepsTextHead(s: string, rest: Bytes)
    ensures Lossy(Encode(s) + rest) == Encode(s) + Lossy(rest)
  {
    hide EncodeChar, Matched, Lossy;
    if s == "" {
      assert [] + rest == rest;
    } else {
      LossyKeepsTextHead(s[1..], rest);
      LossyKeepsChar(s[0], Encode(s[1..]) + rest);
      assert Encode(s) + rest == EncodeChar(s[0]) + (Encode(s[1..]) + rest);
    }
  }

  lemma LossyKeepsChar(c: char, rest: Bytes)
    ensures Lossy(EncodeChar(c) + rest) == EncodeChar(c) + Lossy(rest)
  {
    hide EncodeChar, Matched;
    CharIsOne(c, rest);
  }

  /** A byte that begins no character becomes one replacement character, and so does a character that breaks off
      before its end; the text around is kept. */
  lemma DamageIsReplaced(before: string, damage: Bytes, after: string)
    requires IsDamage(damage)
    ensures Lossy(Encode(before) + (damage + Encode(after))) == Encode(before) + (REPLACEMENT + Encode(after))
  {
    LossyKeepsTextHead(before, damage + Encode(after));
    TextStarts(after);
    OneDamage(damage, Encode(after));
    LossyKeepsTextHead(after, []);
    assert Encode(after) + [] == Encode(after);
  }

  /** A lone byte of 80 to BF, C0, C1 or F5 to FF, or a part of a character's encoding without its end. */
  ghost predicate IsDamage(s: Bytes) {
    || (|s| == 1 && (0x80 <= s[0] <= 0xC1 || s[0] >= 0xF5))
    || exists c :: 0 < |s| < |EncodeChar(c)| && s <= EncodeChar(c)
  }

  lemma TextStarts(s: string)
    ensures Encode(s) == [] || Encode(s)[0] < 0x80 || Encode(s)[0] >= 0xC0
  {
  }

  lemma OneDamage(damage: Bytes, rest: Bytes)
    requires IsDamage(damage) && (rest == [] || rest[0] < 0x80 || rest[0] >= 0xC0)
    ensures Lossy(damage + rest) == REPLACEMENT + Lossy(rest)
  {
    var s := damage + rest;
    assert s[|damage|..] == rest;
    if |damage| == 1 && (0x80 <= damage[0] <= 0xC1 || damage[0] >= 0xF5) {
      assert Matched(s) == 0;
    } else {
      var c :| 0 < |damage| < |EncodeChar(c)| && damage <= EncodeChar(c);
      PartMatches(c, damage, rest);
    }
  }

  lemma PartMatches(c: char, part: Bytes, rest: Bytes)
    requires 0 < |part| < |EncodeChar(c)| && part <= EncodeChar(c) && (rest == [] || rest[0] < 0x80 || rest[0] >= 0xC0)
    ensures Matched(part + rest) == |part| && !StartsWithChar(part + rest)
  {
    var e := EncodeChar(c);
    assert forall i :: 0 <= i < |part| ==> part[i] == e[i];
  }
}
