/** The two byte passes every stored or sent JSON text goes through: `html_escape` and `compact`. */
module WireJson {
  import opened Common

  const BACKSLASH: Byte := 92
  const QUOTE: Byte := 34

  // --- html_escape ---

  /** `\u003c`, `\u003e`, `\u0026`, `\u2028` and `\u2029`. */
  const ESC_LT: Bytes := [92, 117, 48, 48, 51, 99]
  const ESC_GT: Bytes := [92, 117, 48, 48, 51, 101]
  const ESC_AMP: Bytes := [92, 117, 48, 48, 50, 54]
  const ESC_LS: Bytes := [92, 117, 50, 48, 50, 56]
  const ESC_PS: Bytes := [92, 117, 50, 48, 50, 57]

  /** How many bytes at the head of `s` are escaped together: 0, 1, or 3 for a line separator. */
  function SpecialLength(s: Bytes): (n: nat)
    ensures n <= |s| && (n == 0 || n == 1 || n == 3)
  {
    if s == [] then 0
    else if s[0] == 60 || s[0] == 62 || s[0] == 38 then 1
    else if s[0] == 0xE2 && |s| > 2 && s[1] == 0x80 && (s[2] == 0xA8 || s[2] == 0xA9) then 3
    else 0
  }

  function EscapeOf(s: Bytes): (e: Bytes)
    requires SpecialLength(s) > 0
    ensures |e| == 6 && e[0] == BACKSLASH && e[1] == 117
    ensures forall i :: 2 <= i < 6 ==> 48 <= e[i] <= 102 && e[i] != BACKSLASH && e[i] != 60 && e[i] != 62
  {
    if s[0] == 60 then ESC_LT
    else if s[0] == 62 then ESC_GT
    else if s[0] == 38 then ESC_AMP
    else if s[2] == 0xA8 then ESC_LS
    else ESC_PS
  }

  /** How many bytes at the head of `s` are dealt with together, and what becomes of them. */
  function HeadLength(s: Bytes): (n: nat)
    requires s != []
    ensures 0 < n <= |s|
  {
    if SpecialLength(s) > 0 then SpecialLength(s) else 1
  }

  function HeadText(s: Bytes): Bytes
    requires s != []
  {
    if SpecialLength(s) > 0 then EscapeOf(s) else [s[0]]
  }

  function Escape(s: Bytes): Bytes {
    if s == [] then [] else HeadText(s) + Escape(s[HeadLength(s)..])
  }

  predicate NeedsEscape(b: Byte) {
    b == 60 || b == 62 || b == 38 || b == 0xE2
  }

  lemma {:induction false} NothingToEscape(s: Bytes)
    requires forall i :: 0 <= i < |s| ==> !NeedsEscape(s[i])
    ensures Escape(s) == s
  {
    if s != [] { NothingToEscape(s[1..]); }
  }

  /** `html_escape`. */
  method HtmlEscape(input: Bytes) returns (out: Bytes)
    ensures out == Escape(input)
  {
    hide EscapeOf, SpecialLength, Escape;
    if forall i :: 0 <= i < |input| ==> !NeedsEscape(input[i]) {
      NothingToEscape(input);
      return input;
    }
    out := [];
    var i := 0;
    EscapeEnds(out, input);
    while i < |input|
      invariant 0 <= i <= |input|
      invariant out + Escape(input[i..]) == Escape(input)
    {
      EscapeStep(out, input, i);
      var n := SpecialLength(input[i..]);
      if n > 0 {
        out := out + EscapeOf(input[i..]);
        i := i + n;
      } else {
        out := out + [input[i]];
        i := i + 1;
      }
    }
    EscapeEnds(out, input);
  }

  lemma EscapeEnds(out: Bytes, s: Bytes)
    ensures [] + Escape(s[0..]) == Escape(s)
    ensures out + Escape(s[|s|..]) == out
  {
    hide Escape;
    EscapeOfNothing();
    assert s[0..] == s && s[|s|..] == [];
  }

  lemma EscapeOfNothing()
    ensures Escape([]) == []
  {
  }

  lemma EscapeStep(out: Bytes, s: Bytes, i: nat)
    requires i < |s|
    ensures i + HeadLength(s[i..]) <= |s|
    ensures out + Escape(s[i..]) == out + HeadText(s[i..]) + Escape(s[i + HeadLength(s[i..])..])
  {
    hide HeadText, HeadLength;
    assert s[i..][HeadLength(s[i..])..] == s[i + HeadLength(s[i..])..];
  }

  // --- compact ---

  datatype Mode = Outside | InString | Escaped

  predicate IsJsonSpace(b: Byte) {
    b == 32 || b == 9 || b == 10 || b == 13
  }

  function Next(m: Mode, b: Byte): Mode {
    match m
    case Outside => if b == QUOTE then InString else Outside
    case InString => if b == BACKSLASH then Escaped else if b == QUOTE then Outside else InString
    case Escaped => InString
  }

  /** `compact` of the rest of a document, read in mode `m`. */
  function CompactFrom(m: Mode, s: Bytes): Bytes
    decreases s
  {
    if s == [] then []
    else if m == Outside && IsJsonSpace(s[0]) then CompactFrom(m, s[1..])
    else [s[0]] + CompactFrom(Next(m, s[0]), s[1..])
  }

  function ModeAfter(m: Mode, s: Bytes): Mode
    decreases s
  {
    if s == [] then m else ModeAfter(Next(m, s[0]), s[1..])
  }

  function Compact(s: Bytes): Bytes {
    CompactFrom(Outside, s)
  }

  lemma CompactStep(m: Mode, out: Bytes, s: Bytes)
    requires s != []
    ensures out + CompactFrom(m, s) ==
            (if m == Outside && IsJsonSpace(s[0]) then out else out + [s[0]]) + CompactFrom(Next(m, s[0]), s[1..])
  {
    if !(m == Outside && IsJsonSpace(s[0])) {
      var rest := CompactFrom(Next(m, s[0]), s[1..]);
      assert out + ([s[0]] + rest) == (out + [s[0]]) + rest;
    }
  }

  /** The loop of `compact`, with its two flags. */
  method CompactLoop(input: Bytes) returns (out: Bytes)
    ensures out == Compact(input)
  {
    hide CompactFrom;
    out := [];
    var inString, escaped := false, false;
    ghost var mode := Outside;
    assert input[0..] == input;
    for i := 0 to |input|
      invariant mode == if escaped then Escaped else if inString then InString else Outside
      invariant escaped ==> inString
      invariant out + CompactFrom(mode, input[i..]) == Compact(input)
    {
      var b := input[i];
      assert input[i..][1..] == input[i + 1..];
      CompactStep(mode, out, input[i..]);
      mode := Next(mode, b);
      if inString {
        out := out + [b];
        if escaped {
          escaped := false;
        } else if b == BACKSLASH {
          escaped := true;
        } else if b == QUOTE {
          inString := false;
        }
      } else if !IsJsonSpace(b) {
        if b == QUOTE { inString := true; }
        out := out + [b];
      }
    }
    assert input[|input|..] == [] && out + CompactFrom(mode, []) == out by { CompactOfNothing(mode); }
  }

  lemma CompactOfNothing(m: Mode)
    ensures CompactFrom(m, []) == []
  {
  }

  // --- escaping twice is escaping once ---

  lemma EscapeKeepsFirst(s: Bytes)
    requires s != [] && SpecialLength(s) == 0
    ensures Escape(s) != [] && Escape(s)[0] == s[0] && Escape(s)[1..] == Escape(s[1..])
  {
  }

  lemma EscapeStartsPlain(s: Bytes)
    requires s != [] && SpecialLength(s) > 0
    ensures Escape(s) != [] && Escape(s)[0] == BACKSLASH
  {
  }

  /** A line separator at the head of the escaped text would have been one at the head of the text. */
  lemma EscapeMakesNoSeparator(s: Bytes, b: Byte)
    requires SpecialLength([b] + s) == 0
    ensures SpecialLength([b] + Escape(s)) == 0
  {
    if b == 0xE2 && s != [] && SpecialLength(s) == 0 {
      EscapeKeepsFirst(s);
      if s[1..] != [] {
        if SpecialLength(s[1..]) == 0 { EscapeKeepsFirst(s[1..]); } else { EscapeStartsPlain(s[1..]); }
      }
    } else if s != [] && SpecialLength(s) > 0 {
      EscapeStartsPlain(s);
    }
  }

  lemma {:induction false} EscapePlainHead(e: Bytes, s: Bytes)
    requires forall i :: 0 <= i < |e| ==> !NeedsEscape(e[i])
    ensures Escape(e + s) == e + Escape(s)
  {
    if e == [] {
      assert e + s == s;
    } else {
      assert (e + s)[1..] == e[1..] + s;
      EscapePlainHead(e[1..], s);
    }
  }

  lemma EscapeOfHead(s: Bytes)
    requires s != []
    ensures var e := Escape(s[HeadLength(s)..]);
            Escape(HeadText(s) + e) == HeadText(s) + Escape(e)
  {
    hide Escape, EscapeOf;
    var e := Escape(s[HeadLength(s)..]);
    if SpecialLength(s) > 0 {
      EscapeIsPlain(s);
      EscapePlainHead(EscapeOf(s), e);
    } else {
      assert s == [s[0]] + s[1..];
      EscapeMakesNoSeparator(s[1..], s[0]);
      EscapeUnescaped(s[0], e);
    }
  }

  lemma EscapeIsPlain(s: Bytes)
    requires SpecialLength(s) > 0
    ensures forall i :: 0 <= i < |EscapeOf(s)| ==> !NeedsEscape(EscapeOf(s)[i])
  {
  }

  lemma EscapeUnescaped(b: Byte, e: Bytes)
    requires SpecialLength([b] + e) == 0
    ensures Escape([b] + e) == [b] + Escape(e)
  {
    assert ([b] + e)[1..] == e;
  }

  /** Escaping is idempotent, on any bytes. */
  lemma {:induction false} EscapeIsIdempotent(s: Bytes)
    ensures Escape(Escape(s)) == Escape(s)
  {
    hide HeadText, HeadLength;
    if s != [] {
      EscapeIsIdempotent(s[HeadLength(s)..]);
      EscapeOfHead(s);
    }
  }

  // --- escaping and concatenation ---

  predicate IsSeparatorEnd(b: Byte) {
    b == 0xA8 || b == 0xA9
  }

  /** A line separator begins in `a` and ends in `b`. */
  predicate Straddles(a: Bytes, b: Bytes) {
    || (|a| >= 1 && a[|a| - 1] == 0xE2 && |b| >= 2 && b[0] == 0x80 && IsSeparatorEnd(b[1]))
    || (|a| >= 2 && a[|a| - 2] == 0xE2 && a[|a| - 1] == 0x80 && |b| >= 1 && IsSeparatorEnd(b[0]))
  }

  lemma SpecialInConcat(a: Bytes, b: Bytes)
    requires a != []
    ensures SpecialLength(a) > 0 ==> SpecialLength(a + b) == SpecialLength(a) && EscapeOf(a + b) == EscapeOf(a)
    ensures SpecialLength(a) == 0 && SpecialLength(a + b) > 0
            ==> |a| <= 2 && SpecialLength(a + b) == 3 && Straddles(a, b)
    ensures Straddles(a, b) && |a| <= 2 && SpecialLength(a + b) == 0 ==> |a| == 2 && Straddles(a[1..], b)
  {
  }

  lemma StraddlesTail(a: Bytes, b: Bytes)
    requires a != []
    ensures var n := if SpecialLength(a) > 0 then SpecialLength(a) else 1;
            && (Straddles(a[n..], b) ==> Straddles(a, b))
            && (Straddles(a, b) && (SpecialLength(a) > 0 || |a| > 2) ==> Straddles(a[n..], b))
  {
  }

  lemma HeadInConcat(a: Bytes, b: Bytes)
    requires a != [] && !Straddles(a, b)
    ensures HeadLength(a + b) == HeadLength(a) && HeadText(a + b) == HeadText(a)
    ensures (a + b)[HeadLength(a)..] == a[HeadLength(a)..] + b && !Straddles(a[HeadLength(a)..], b)
  {
    hide EscapeOf;
    SpecialInConcat(a, b);
    StraddlesTail(a, b);
  }

  lemma {:induction false} EscapeConcat(a: Bytes, b: Bytes)
    requires !Straddles(a, b)
    ensures Escape(a + b) == Escape(a) + Escape(b)
  {
    hide HeadText, HeadLength, Straddles;
    if a == [] {
      assert a + b == b;
    } else {
      HeadInConcat(a, b);
      EscapeConcat(a[HeadLength(a)..], b);
    }
  }

  lemma StraddlingHead(a: Bytes, b: Bytes)
    requires Straddles(a, b) && a != [] && SpecialLength(a) == 0 && SpecialLength(a + b) > 0
    ensures |Escape(a + b)| == |Escape(a)| + |Escape(b)| + 3
  {
    hide EscapeOf, Straddles;
    assert Escape(a + b) == EscapeOf(a + b) + Escape((a + b)[3..]);
    if |a| == 1 { StraddlingAfterOne(a, b); } else { StraddlingAfterTwo(a, b); }
  }

  lemma StraddlingAfterOne(a: Bytes, b: Bytes)
    requires |a| == 1 && Straddles(a, b)
    ensures |Escape(a)| == 1 && |Escape(b)| == 2 + |Escape((a + b)[3..])|
  {
    hide EscapeOf;
    assert b == [b[0], b[1]] + b[2..] && (a + b)[3..] == b[2..];
    EscapePlainHead([b[0], b[1]], b[2..]);
    assert a[1..] == [];
  }

  lemma StraddlingAfterTwo(a: Bytes, b: Bytes)
    requires |a| == 2 && Straddles(a, b) && SpecialLength(a) == 0 && SpecialLength(a + b) > 0
    ensures |Escape(a)| == 2 && |Escape(b)| == 1 + |Escape((a + b)[3..])|
  {
    hide EscapeOf;
    assert b == [b[0]] + b[1..] && (a + b)[3..] == b[1..];
    EscapePlainHead([b[0]], b[1..]);
    EscapeKeepsFirst(a);
    assert a[1..][1..] == [];
  }

  lemma {:induction false} EscapeStraddled(a: Bytes, b: Bytes)
    requires Straddles(a, b)
    ensures |Escape(a + b)| == |Escape(a)| + |Escape(b)| + 3
  {
    hide EscapeOf, SpecialLength;
    SpecialInConcat(a, b);
    if SpecialLength(a) == 0 && SpecialLength(a + b) > 0 {
      StraddlingHead(a, b);
    } else {
      StraddlesTail(a, b);
      var n := if SpecialLength(a) > 0 then SpecialLength(a) else 1;
      assert (a + b)[n..] == a[n..] + b;
      EscapeStraddled(a[n..], b);
    }
  }

  /** Escaping distributes over a concatenation exactly when no line separator is cut by it. */
  lemma EscapeDistributesExactly(a: Bytes, b: Bytes)
    ensures Escape(a + b) == Escape(a) + Escape(b) <==> !Straddles(a, b)
  {
    if Straddles(a, b) { EscapeStraddled(a, b); } else { EscapeConcat(a, b); }
  }

  // --- compact, and compact after escape ---

  lemma {:induction false} CompactConcat(m: Mode, a: Bytes, b: Bytes)
    ensures CompactFrom(m, a + b) == CompactFrom(m, a) + CompactFrom(ModeAfter(m, a), b)
    ensures ModeAfter(m, a + b) == ModeAfter(ModeAfter(m, a), b)
    decreases a
  {
    if a == [] {
      assert a + b == b;
    } else {
      assert (a + b)[1..] == a[1..] + b;
      CompactConcat(Next(m, a[0]), a[1..], b);
    }
  }

  lemma {:induction false} CompactIsIdempotent(m: Mode, s: Bytes)
    ensures CompactFrom(m, CompactFrom(m, s)) == CompactFrom(m, s)
    decreases s
  {
    if s != [] {
      CompactIsIdempotent(Next(m, s[0]), s[1..]);
      if !(m == Outside && IsJsonSpace(s[0])) {
        assert CompactFrom(m, s)[1..] == CompactFrom(Next(m, s[0]), s[1..]);
      }
    }
  }

  lemma {:induction false} CompactShrinks(m: Mode, s: Bytes)
    ensures |CompactFrom(m, s)| <= |s|
    decreases s
  {
    if s != [] { CompactShrinks(Next(m, s[0]), s[1..]); }
  }

  /** Text without space outside strings is compact. */
  predicate Tight(m: Mode, s: Bytes)
    decreases s
  {
    s == [] || (!(m == Outside && IsJsonSpace(s[0])) && Tight(Next(m, s[0]), s[1..]))
  }

  lemma {:induction false} TightIsCompact(m: Mode, s: Bytes)
    ensures Tight(m, s) <==> CompactFrom(m, s) == s
    decreases s
  {
    if s != [] {
      TightIsCompact(Next(m, s[0]), s[1..]);
      if m == Outside && IsJsonSpace(s[0]) {
        CompactShrinks(Next(m, s[0]), s[1..]);
      } else {
        assert CompactFrom(m, s)[1..] == CompactFrom(Next(m, s[0]), s[1..]);
      }
    }
  }

  lemma {:induction false} TightConcat(m: Mode, a: Bytes, b: Bytes)
    ensures Tight(m, a + b) <==> Tight(m, a) && Tight(ModeAfter(m, a), b)
    decreases a
  {
    if a == [] {
      assert a + b == b;
    } else {
      assert (a + b)[1..] == a[1..] + b;
      TightConcat(Next(m, a[0]), a[1..], b);
    }
  }

  /** An escape sequence leads from each mode where the bytes it stands for lead, and contains no
      space: also right after a backslash, which then escapes the sequence's own backslash. */
  lemma EscapeSequenceMode(m: Mode, s: Bytes)
    requires SpecialLength(s) > 0
    ensures Tight(m, EscapeOf(s)) && ModeAfter(m, EscapeOf(s)) == ModeAfter(m, s[..SpecialLength(s)])
  {
    var e := EscapeOf(s);
    var m' := if m == Outside then Outside else InString;
    assert e == [e[0]] + ([e[1]] + e[2..]);
    PlainKeepsMode(m', e[2..]);
    PlainKeepsMode(if m == InString then Escaped else m', [e[1]] + e[2..]);
    var n := SpecialLength(s);
    assert s[..n] == [s[0]] + s[1..n];
    PlainKeepsMode(Next(m, s[0]), s[1..n]);
  }

  lemma {:induction false} PlainKeepsMode(m: Mode, s: Bytes)
    requires forall i :: 0 <= i < |s| ==> s[i] != BACKSLASH && s[i] != QUOTE && !IsJsonSpace(s[i])
    ensures Tight(m, s)
    ensures ModeAfter(m, s) == if s == [] then m else if m == Outside then Outside else InString
    decreases s
  {
    if s != [] { PlainKeepsMode(Next(m, s[0]), s[1..]); }
  }

  lemma {:induction false} EscapeKeepsTight(m: Mode, s: Bytes)
    requires Tight(m, s)
    ensures Tight(m, Escape(s))
    decreases |s|
  {
    hide EscapeOf, SpecialLength;
    if s != [] {
      var n := SpecialLength(s);
      if n > 0 {
        assert s == s[..n] + s[n..];
        TightConcat(m, s[..n], s[n..]);
        EscapeSequenceMode(m, s);
        EscapeKeepsTight(ModeAfter(m, s[..n]), s[n..]);
        TightConcat(m, EscapeOf(s), Escape(s[n..]));
      } else {
        EscapeKeepsTight(Next(m, s[0]), s[1..]);
        assert Escape(s)[1..] == Escape(s[1..]);
      }
    }
  }

  /** What `append_rows` writes for a cell. */
  function Stored(cell: Bytes): Bytes {
    Escape(Compact(cell))
  }

  /** A stored cell is a fixpoint of both passes, on any bytes: reading it back and writing it again,
      or marshalling it, changes nothing. */
  lemma StoredIsFixpoint(cell: Bytes)
    ensures Compact(Stored(cell)) == Stored(cell)
    ensures Escape(Stored(cell)) == Stored(cell)
    ensures Stored(Stored(cell)) == Stored(cell)
  {
    var c := Compact(cell);
    CompactIsIdempotent(Outside, cell);
    TightIsCompact(Outside, c);
    EscapeKeepsTight(Outside, c);
    TightIsCompact(Outside, Escape(c));
    EscapeIsIdempotent(c);
  }
}
