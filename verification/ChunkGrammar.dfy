/** The chunked transfer coding of section 7.1 of RFC 9112, as a grammar: what a chunked
    message is and how it is written, independently of the two readers. */
module ChunkGrammar {
  import opened Common

  const SEMICOLON: Byte := 59
  const USIZE_LIMIT: nat := 0x1_0000_0000_0000_0000
  const MAX_HEADER_BYTES: nat := 65536
  const MAX_BODY_BYTES: nat := 134217728

  /** One chunk: the text of its size line (size and extensions, without CRLF), and its data. */
  datatype Chunk = Chunk(line: Bytes, data: Bytes)

  /** Chunks, the line of the zero chunk, and the trailer fields. */
  datatype Message = Message(chunks: seq<Chunk>, last: Bytes, trailers: seq<Bytes>)

  function RenderChunks(chunks: seq<Chunk>): Bytes {
    if chunks == [] then []
    else chunks[0].line + CRLF + chunks[0].data + CRLF + RenderChunks(chunks[1..])
  }

  function RenderTrailers(trailers: seq<Bytes>): Bytes {
    if trailers == [] then CRLF else trailers[0] + CRLF + RenderTrailers(trailers[1..])
  }

  function Render(m: Message): Bytes {
    RenderChunks(m.chunks) + m.last + CRLF + RenderTrailers(m.trailers)
  }

  function Payload(chunks: seq<Chunk>): Bytes {
    if chunks == [] then [] else chunks[0].data + Payload(chunks[1..])
  }

  // --- chunk sizes ---

  predicate IsHexDigit(b: Byte) {
    48 <= b <= 57 || 65 <= b <= 70 || 97 <= b <= 102
  }

  function HexDigitValue(b: Byte): (v: nat)
    requires IsHexDigit(b)
    ensures v < 16
  {
    if b <= 57 then b - 48 else if b <= 70 then b - 55 else b - 87
  }

  /** One of the sixteen digits, in either case. */
  predicate IsDigitOf(b: Byte, v: int)
    requires 0 <= v < 16
  {
    b as char == "0123456789abcdef"[v] || b as char == "0123456789ABCDEF"[v]
  }

  predicate AllHex(s: Bytes) {
    forall i :: 0 <= i < |s| ==> IsHexDigit(s[i])
  }

  function HexValue(s: Bytes): nat
    requires AllHex(s)
  {
    if s == [] then 0 else 16 * HexValue(s[..|s| - 1]) + HexDigitValue(s[|s| - 1])
  }

  /** The part of a line before its first semicolon. */
  function SizeField(line: Bytes): (s: Bytes)
    ensures s <= line
    ensures SEMICOLON !in s
  {
    if line == [] || line[0] == SEMICOLON then [] else [line[0]] + SizeField(line[1..])
  }

  /** The size a line announces: hexadecimal digits only, and a number that fits `usize`. */
  function SizeOf(line: Bytes): Option<nat> {
    var s := SizeField(line);
    if s == [] || !AllHex(s) || HexValue(s) >= USIZE_LIMIT then None else Some(HexValue(s))
  }

  /** Hexadecimal digits of `n` in either case, the last one for the remainder by sixteen. */
  predicate IsHexText(s: Bytes, n: nat) {
    && s != [] && IsDigitOf(s[|s| - 1], n % 16)
    && if |s| == 1 then n < 16 else IsHexText(s[..|s| - 1], n / 16)
  }

  lemma DigitCharacters(b: Byte, v: nat)
    requires v < 16
    ensures IsDigitOf(b, v) <==> IsHexDigit(b) && HexDigitValue(b) == v
  {
  }

  lemma HexStep(s: Bytes)
    requires s != []
    ensures AllHex(s) <==> AllHex(s[..|s| - 1]) && IsHexDigit(s[|s| - 1])
    ensures AllHex(s) ==> HexValue(s) == 16 * HexValue(s[..|s| - 1]) + HexDigitValue(s[|s| - 1])
  {
    hide IsHexDigit;
    var (init, last) := (s[..|s| - 1], s[|s| - 1]);
    assert s == init + [last];
  }

  lemma {:induction false} HexTextIsValue(s: Bytes, n: nat)
    ensures IsHexText(s, n) <==> s != [] && AllHex(s) && HexValue(s) == n
  {
    if s != [] {
      HexStep(s);
      DigitCharacters(s[|s| - 1], n % 16);
      hide AllHex, IsDigitOf, IsHexDigit, HexDigitValue;
      if |s| == 1 { NoDigits(s[..0]); } else { HexTextIsValue(s[..|s| - 1], n / 16); }
    }
  }

  lemma NoDigits(s: Bytes)
    requires s == []
    ensures AllHex(s) && HexValue(s) == 0
  {
  }

  lemma {:induction false} FieldIsCut(line: Bytes)
    ensures var s := SizeField(line); s == line || line[|s|] as char == ';'
  {
    if line != [] && line[0] != SEMICOLON { FieldIsCut(line[1..]); }
  }

  lemma {:induction false} FieldBefore(digits: Bytes, extension: Bytes)
    requires SEMICOLON !in digits && (extension == [] || extension[0] as char == ';')
    ensures SizeField(digits + extension) == digits
  {
    if digits == [] {
      assert digits + extension == extension;
    } else {
      assert (digits + extension)[1..] == digits[1..] + extension;
      FieldBefore(digits[1..], extension);
    }
  }

  /** The digits of a size, and after them nothing or a semicolon and an extension. */
  ghost predicate AnnouncesSize(line: Bytes, n: nat) {
    exists digits, extension :: line == digits + extension && IsHexText(digits, n)
                                && (extension == [] || extension[0] as char == ';')
  }

  /** A line announces the size that it says in hexadecimal digits, if the size fits 64 bits; any other line none. */
  lemma SizeIsAnnounced(line: Bytes, n: nat)
    ensures SizeOf(line) == Some(n) <==> AnnouncesSize(line, n) && n <= 0xFFFF_FFFF_FFFF_FFFF
  {
    var s := SizeField(line);
    HexTextIsValue(s, n);
    FieldIsCut(line);
    hide HexValue, AllHex, IsHexText, SizeField;
    if IsHexText(s, n) { assert line == s + line[|s|..]; }
    forall digits, extension | line == digits + extension && IsHexText(digits, n)
                               && (extension == [] || extension[0] as char == ';')
      ensures digits == s
    {
      HexTextIsValue(digits, n);
      NoSemicolon(digits);
      FieldBefore(digits, extension);
    }
  }

  lemma NoSemicolon(digits: Bytes)
    requires AllHex(digits)
    ensures SEMICOLON !in digits
  {
  }

  predicate IsLine(line: Bytes) {
    !Contains(line, CRLF)
  }

  /** A message of the grammar: every line is one line, every chunk is non-empty and as long as it
      says, the last chunk says zero, and no trailer field is empty. */
  predicate WellFormed(m: Message) {
    && (forall i :: 0 <= i < |m.chunks| ==> WellFormedChunk(m.chunks[i]))
    && IsLine(m.last) && SizeOf(m.last) == Some(0)
    && (forall i :: 0 <= i < |m.trailers| ==> m.trailers[i] != [] && IsLine(m.trailers[i]))
  }

  predicate WellFormedChunk(c: Chunk) {
    IsLine(c.line) && SizeOf(c.line) == Some(|c.data|) && c.data != []
  }

  // --- the minimal encoding ---

  function HexDigit(d: nat): Byte
    requires d < 16
  {
    if d < 10 then 48 + d else 87 + d
  }

  function Hex(n: nat): (s: Bytes)
    ensures |s| > 0 && AllHex(s)
    ensures HexValue(s) == n
  {
    if n < 16 then
      var s: Bytes := [HexDigit(n)];
      assert HexValue(s) == 16 * HexValue([]) + n by { assert s[..0] == []; }
      s
    else
      var s: Bytes := Hex(n / 16) + [HexDigit(n % 16)];
      assert s[..|s| - 1] == Hex(n / 16);
      s
  }

  lemma {:induction false} HexIsShort(n: nat)
    ensures n > 0 ==> |Hex(n)| <= n
    ensures n >= 3 ==> |Hex(n)| + 2 <= n
    ensures n > 0 ==> |Hex(n)| + 4 <= 5 * n
  {
    if n >= 16 { HexIsShort(n / 16); }
  }

  lemma {:induction false} HexFits(n: nat)
    ensures n < USIZE_LIMIT ==> |Hex(n)| <= 16
  {
    HexDigits(n, 16);
    assert Pow16(16) == USIZE_LIMIT by {
      assert Pow16(4) == 0x1_0000;
      assert Pow16(8) == 0x1_0000 * Pow16(4);
      assert Pow16(12) == 0x1_0000 * Pow16(8);
      assert Pow16(16) == 0x1_0000 * Pow16(12);
    }
  }

  function Pow16(k: nat): nat {
    if k == 0 then 1 else 16 * Pow16(k - 1)
  }

  lemma {:induction false} HexDigits(n: nat, k: nat)
    requires k > 0
    ensures n < Pow16(k) ==> |Hex(n)| <= k
  {
    if n >= 16 && n < Pow16(k) {
      assert k > 1 by { assert Pow16(1) == 16; }
      HexDigits(n / 16, k - 1);
    }
  }

  lemma {:induction false} SizeFieldOfHex(s: Bytes)
    requires AllHex(s)
    ensures SizeField(s) == s
  {
    if s != [] { SizeFieldOfHex(s[1..]); }
  }

  lemma HexIsLine(n: nat)
    ensures IsLine(Hex(n))
    ensures n < USIZE_LIMIT ==> SizeOf(Hex(n)) == Some(n)
  {
    var s := Hex(n);
    SizeFieldOfHex(s);
    forall i: nat
      ensures !OccursAt(s, CRLF, i)
    {
      OccursCrlf(s, i);
    }
  }

  /** Each piece of a body as one chunk with the shortest possible size line and no extension. */
  function Minimal(pieces: seq<Bytes>): Message {
    Message(seq(|pieces|, i requires 0 <= i < |pieces| => Chunk(Hex(|pieces[i]|), pieces[i])), Hex(0), [])
  }

  function Concat(pieces: seq<Bytes>): Bytes {
    if pieces == [] then [] else pieces[0] + Concat(pieces[1..])
  }

  lemma {:induction false} PieceIsShorter(pieces: seq<Bytes>, i: nat)
    requires i < |pieces|
    ensures |pieces[i]| <= |Concat(pieces)|
  {
    if i > 0 { PieceIsShorter(pieces[1..], i - 1); }
  }

  lemma {:induction false} MinimalPayload(pieces: seq<Bytes>)
    ensures Payload(Minimal(pieces).chunks) == Concat(pieces)
  {
    if pieces != [] {
      MinimalPayload(pieces[1..]);
      assert Minimal(pieces).chunks[1..] == Minimal(pieces[1..]).chunks;
    }
  }

  lemma MinimalIsWellFormed(pieces: seq<Bytes>)
    requires forall i :: 0 <= i < |pieces| ==> 0 < |pieces[i]| < USIZE_LIMIT
    ensures WellFormed(Minimal(pieces))
  {
    forall i | 0 <= i < |pieces|
      ensures WellFormedChunk(Minimal(pieces).chunks[i])
    {
      HexIsLine(|pieces[i]|);
    }
    HexIsLine(0);
  }

  // --- reading a rendered line back ---

  /** In a text that starts with a line and CRLF, that CRLF is the first one. */
  lemma FirstCrlf(line: Bytes, rest: Bytes)
    requires IsLine(line)
    ensures Find(line + CRLF + rest, CRLF) == Some(|line|)
  {
    var wire := line + CRLF + rest;
    assert OccursAt(wire, CRLF, |line|);
    forall j: nat | j < |line|
      ensures !OccursAt(wire, CRLF, j)
    {
      OccursCrlf(wire, j);
      OccursCrlf(line, j);
    }
  }

  lemma OccursCrlf(s: Bytes, i: nat)
    ensures OccursAt(s, CRLF, i) <==> i + 2 <= |s| && s[i] == 13 && s[i + 1] == 10
  {
    if i + 2 <= |s| { assert s[i..i + 2] == [s[i], s[i + 1]]; }
  }

  lemma FoundLineIsLine(wire: Bytes, end: nat)
    requires Find(wire, CRLF) == Some(end)
    ensures IsLine(wire[..end])
    ensures wire == wire[..end] + CRLF + wire[end + 2..]
  {
    FindInPrefix(wire[..end], wire[end..], CRLF);
    assert wire == wire[..end] + wire[end..];
    assert wire[end..] == CRLF + wire[end + 2..];
  }

  lemma EmptyLine()
    ensures IsLine([])
  {
  }

  // --- one chunk at a time ---

  lemma RenderFirst(m: Message, tail: Bytes)
    requires m.chunks != []
    ensures var c := m.chunks[0];
            Render(m) + tail == c.line + CRLF + (c.data + CRLF + (Render(m.(chunks := m.chunks[1..])) + tail))
  {
  }

  lemma RenderLast(m: Message, tail: Bytes)
    requires m.chunks == []
    ensures Render(m) + tail == m.last + CRLF + (RenderTrailers(m.trailers) + tail)
  {
  }

  lemma PayloadFirst(out: Bytes, chunks: seq<Chunk>)
    ensures chunks != [] ==> out + Payload(chunks) == (out + chunks[0].data) + Payload(chunks[1..])
    ensures chunks == [] ==> out + Payload(chunks) == out
  {
  }

  // --- a message cut short ---

  predicate IsProperPrefix(w: Bytes, s: Bytes) {
    w <= s && |w| < |s|
  }

  /** A line cut short, its line break included, holds no line break. */
  lemma NoLineInPrefix(line: Bytes, rest: Bytes, w: Bytes)
    requires IsLine(line) && w <= line + CRLF + rest && |w| < |line| + 2
    ensures Find(w, CRLF) == None
  {
    var s := line + CRLF + rest;
    FirstCrlf(line, rest);
    forall j: nat ensures !OccursAt(w, CRLF, j) {
      OccursCrlf(w, j);
      OccursCrlf(s, j);
    }
  }

  /** What comes after a line that is not cut short. */
  lemma RestOfPrefix(line: Bytes, rest: Bytes, w: Bytes)
    requires w <= line + CRLF + rest && |w| >= |line| + 2
    ensures w == line + CRLF + w[|line| + 2..] && w[|line| + 2..] <= rest
  {
    var s := line + CRLF + rest;
    assert w[..|line| + 2] == s[..|line| + 2] == line + CRLF;
    assert w[|line| + 2..] == s[|line| + 2..|w|];
    assert s[|line| + 2..] == rest;
  }
}
