/** What the Cloud Run decoder accepts, stated on the grammar of chunked messages. */
module ChunkedCloudRunProofs {
  import opened Common
  import opened ChunkGrammar
  import opened ChunkedCloudRun
  import opened Utf8
  import BP = ChunkedBigQueryProofs
  import BQ = ChunkedBigQuery
  import ChunkedAgreement

  // --- the grammar this reader goes by, and its limits ---

  /** The size a line announces once it is read as text and its size field is trimmed. */
  function LenientSize(line: Bytes): Option<nat> {
    SizeOfText(Lossy(line))
  }

  predicate LenientChunk(c: Chunk) {
    IsLine(c.line) && LenientSize(c.line) == Some(|c.data|) && c.data != []
  }

  /** As `WellFormed`, with sizes read leniently. */
  predicate Lenient(m: Message) {
    && (forall i :: 0 <= i < |m.chunks| ==> LenientChunk(m.chunks[i]))
    && IsLine(m.last) && LenientSize(m.last) == Some(0)
    && (forall i :: 0 <= i < |m.trailers| ==> m.trailers[i] != [] && IsLine(m.trailers[i]))
  }

  /** The framing after one more line: each is charged by its text. */
  function After(framing: nat, line: Bytes): nat {
    Charge(framing, Lossy(line))
  }

  predicate LineFits(line: Bytes, framing: nat, out: nat) {
    |line| <= MAX_LINE && !OverBudget(After(framing, line), out)
  }

  predicate ChunksFit(chunks: seq<Chunk>, out: nat, framing: nat, max: nat) {
    chunks == [] ||
    (&& LineFits(chunks[0].line, framing, out)
     && SaturatingAdd(out, |chunks[0].data|) <= max
     && ChunksFit(chunks[1..], out + |chunks[0].data|, After(framing, chunks[0].line), max))
  }

  function FramingAfter(chunks: seq<Chunk>, framing: nat): nat {
    if chunks == [] then framing else FramingAfter(chunks[1..], After(framing, chunks[0].line))
  }

  /** The trailer lines and the empty line at the end. */
  predicate TrailersFit(trailers: seq<Bytes>, framing: nat, out: nat) {
    if trailers == [] then LineFits([], framing, out)
    else LineFits(trailers[0], framing, out) && TrailersFit(trailers[1..], After(framing, trailers[0]), out)
  }

  predicate EndFits(last: Bytes, trailers: seq<Bytes>, framing: nat, out: nat) {
    LineFits(last, framing, out) && TrailersFit(trailers, After(framing, last), out)
  }

  /** Every line is at most 8192 bytes and comes while all lines so far exceed the body so far by no more
      than 64 KiB; no chunk takes the body past the maximum. */
  predicate FitsAllowance(m: Message, max: nat) {
    && ChunksFit(m.chunks, 0, 0, max)
    && EndFits(m.last, m.trailers, FramingAfter(m.chunks, 0), |Payload(m.chunks)|)
  }

  // --- a rendered message is decoded ---

  lemma LineOfRendered(line: Bytes, rest: Bytes)
    requires IsLine(line) && |line| <= MAX_LINE
    ensures Line(line + CRLF + rest) == Ok(Split(Lossy(line), rest))
  {
    hide Lossy;
    FirstCrlf(line, rest);
    var wire := line + CRLF + rest;
    assert wire[..|line|] == line && wire[|line| + 2..] == rest;
  }

  lemma DataOfRendered(data: Bytes, rest: Bytes)
    ensures Data(data + CRLF + rest, |data|) == Ok(Split(data, rest))
  {
    ChunkedAgreement.DataOfMinimal(data, rest);
  }

  lemma {:induction false} DecodeRenderedTrailers(trailers: seq<Bytes>, framing: nat, body: Bytes, tail: Bytes)
    requires forall i :: 0 <= i < |trailers| ==> trailers[i] != [] && IsLine(trailers[i])
    requires TrailersFit(trailers, framing, |body|)
    ensures DecodeTrailers(RenderTrailers(trailers) + tail, framing, body) == Ok(Decoded(body, tail))
  {
    hide Line, Lossy, OverBudget, Charge;
    if trailers == [] {
      EmptyLine();
      LineOfRendered([], tail);
      LossyIsEmptyOnlyOnEmpty([]);
      assert RenderTrailers(trailers) + tail == [] + CRLF + tail;
    } else {
      var (t, rest) := (trailers[0], RenderTrailers(trailers[1..]) + tail);
      LineOfRendered(t, rest);
      LossyIsEmptyOnlyOnEmpty(t);
      assert RenderTrailers(trailers) + tail == t + CRLF + rest;
      DecodeRenderedTrailers(trailers[1..], After(framing, t), body, tail);
    }
  }

  lemma LenientRest(m: Message)
    requires m.chunks != [] && Lenient(m)
    ensures LenientChunk(m.chunks[0]) && Lenient(m.(chunks := m.chunks[1..]))
  {
    hide LenientChunk, LenientSize, IsLine;
  }

  lemma {:induction false} DecodeRendered(m: Message, body: Bytes, framing: nat, max: nat, tail: Bytes)
    requires Lenient(m) && ChunksFit(m.chunks, |body|, framing, max)
    requires EndFits(m.last, m.trailers, FramingAfter(m.chunks, framing), |body| + |Payload(m.chunks)|)
    ensures Decode(Render(m) + tail, body, framing, max) == Ok(Decoded(body + Payload(m.chunks), tail))
    decreases |m.chunks|
  {
    hide Line, Data, SizeOfText, DecodeTrailers, TrailersFit, Render, RenderTrailers, Lossy, OverBudget, Charge,
      SaturatingAdd, IsLine;
    PayloadFirst(body, m.chunks);
    if m.chunks == [] {
      RenderLast(m, tail);
      LineOfRendered(m.last, RenderTrailers(m.trailers) + tail);
      DecodeRenderedTrailers(m.trailers, After(framing, m.last), body, tail);
    } else {
      var (c, more) := (m.chunks[0], m.(chunks := m.chunks[1..]));
      LenientRest(m);
      RenderFirst(m, tail);
      LineOfRendered(c.line, c.data + CRLF + (Render(more) + tail));
      DataOfRendered(c.data, Render(more) + tail);
      DecodeRendered(more, body + c.data, After(framing, c.line), max, tail);
    }
  }

  // --- what is decoded was a rendered message ---

  lemma LineIsRendered(wire: Bytes) returns (line: Bytes)
    requires Line(wire).Ok?
    ensures var s := Line(wire).value;
            wire == line + CRLF + s.rest && IsLine(line) && |line| <= MAX_LINE && s.head == Lossy(line)
  {
    hide Lossy;
    var i := Find(wire, CRLF).value;
    FoundLineIsLine(wire, i);
    line := wire[..i];
  }

  lemma DataIsRendered(rest: Bytes, size: nat)
    requires Data(rest, size).Ok?
    ensures var d := Data(rest, size).value; |d.head| == size && rest == d.head + CRLF + d.rest
  {
    var data := Exact(rest, size).value;
    assert rest == data.head + data.rest && data.rest == CRLF + Data(rest, size).value.rest;
  }

  lemma {:induction false} TrailersAreRendered(wire: Bytes, framing: nat, body: Bytes) returns (trailers: seq<Bytes>)
    requires DecodeTrailers(wire, framing, body).Ok?
    ensures var d := DecodeTrailers(wire, framing, body).value;
            && d.body == body
            && wire == RenderTrailers(trailers) + d.rest
            && (forall i :: 0 <= i < |trailers| ==> trailers[i] != [] && IsLine(trailers[i]))
            && TrailersFit(trailers, framing, |body|)
    decreases |wire|
  {
    hide Line, Lossy, OverBudget, Charge, IsLine;
    var line := LineIsRendered(wire);
    var rest := Line(wire).value.rest;
    LossyIsEmptyOnlyOnEmpty(line);
    if line == [] {
      trailers := [];
      assert wire == CRLF + rest;
    } else {
      var more := TrailersAreRendered(rest, After(framing, line), body);
      trailers := [line] + more;
      assert trailers[1..] == more;
      assert wire == line + CRLF + (RenderTrailers(more) + DecodeTrailers(wire, framing, body).value.rest);
    }
  }

  lemma {:induction false} DecodedIsRendered(wire: Bytes, body: Bytes, framing: nat, max: nat) returns (m: Message)
    requires Decode(wire, body, framing, max).Ok?
    ensures var d := Decode(wire, body, framing, max).value;
            && Lenient(m)
            && wire == Render(m) + d.rest
            && d.body == body + Payload(m.chunks)
            && ChunksFit(m.chunks, |body|, framing, max)
            && EndFits(m.last, m.trailers, FramingAfter(m.chunks, framing), |d.body|)
    decreases |wire|
  {
    hide Line, Data, SizeOfText, DecodeTrailers, TrailersFit, Render, RenderTrailers, IsLine, Lossy, OverBudget,
      Charge, SaturatingAdd;
    var line := LineIsRendered(wire);
    var rest := Line(wire).value.rest;
    var d := Decode(wire, body, framing, max).value;
    var size := LenientSize(line).value;
    if size == 0 {
      var trailers := TrailersAreRendered(rest, After(framing, line), body);
      m := Message([], line, trailers);
      RenderLast(m, d.rest);
    } else {
      DataIsRendered(rest, size);
      var data := Data(rest, size).value;
      var more := DecodedIsRendered(data.rest, body + data.head, After(framing, line), max);
      var c := Chunk(line, data.head);
      m := Message([c] + more.chunks, more.last, more.trailers);
      assert m.chunks[1..] == more.chunks && m.(chunks := m.chunks[1..]) == more;
      assert LenientChunk(c);
      RenderFirst(m, d.rest);
    }
    PayloadFirst(body, m.chunks);
  }

  // --- main results ---

  /** The reader accepts a wire, with this body and this remainder, exactly when the wire is a chunked
      message, its sizes read leniently, within the limits, carrying that body, followed by that remainder. */
  lemma AcceptsExactlyTheLenientGrammar(wire: Bytes, max: nat, body: Bytes, rest: Bytes)
    ensures Decode(wire, [], 0, max) == Ok(Decoded(body, rest)) <==>
            exists m :: Lenient(m) && FitsAllowance(m, max) && Payload(m.chunks) == body && wire == Render(m) + rest
  {
    hide Decode, Lenient, Render, ChunksFit, EndFits, FramingAfter, Payload;
    if Decode(wire, [], 0, max) == Ok(Decoded(body, rest)) {
      var m := DecodedIsRendered(wire, [], 0, max);
      assert [] + Payload(m.chunks) == Payload(m.chunks);
    }
    forall m | Lenient(m) && FitsAllowance(m, max) && Payload(m.chunks) == body && wire == Render(m) + rest
      ensures Decode(wire, [], 0, max) == Ok(Decoded(body, rest))
    {
      DecodeRendered(m, [], 0, max, rest);
      assert [] + Payload(m.chunks) == Payload(m.chunks);
    }
  }

  /** Every chunked message is one for this reader too. */
  lemma WellFormedIsLenient(m: Message)
    requires WellFormed(m)
    ensures Lenient(m)
  {
    hide SizeOf, LenientSize, IsLine;
    SameSizes(m.last);
    forall i | 0 <= i < |m.chunks|
      ensures LenientChunk(m.chunks[i])
    {
      assert WellFormedChunk(m.chunks[i]);
      SameSizes(m.chunks[i].line);
    }
  }

  lemma SameSizes(line: Bytes)
    requires SizeOf(line).Some?
    ensures LenientSize(line) == SizeOf(line)
  {
    ChunkedAgreement.SameSize(line);
  }

  // --- a wire that only this reader takes ---

  lemma SpacedSizeIsLenientOnly()
    ensures LenientSize([32, 49]) == Some(1) && SizeOf([32, 49]) == None && IsLine([32, 49])
  {
    var line: Bytes := [32, 49];
    HexIsOne();
    assert SizeField(line) == line by { assert SizeField([49]) == [49] by { assert SizeField([]) == []; } }
    LossyKeepsAscii(line);
    assert TrimStart(line) == [49] by { assert line[1..] == [49]; }
    NoCrlf(line);
  }

  lemma NoCrlf(line: Bytes)
    requires 13 !in line
    ensures IsLine(line)
  {
    forall i: nat
      ensures !OccursAt(line, CRLF, i)
    {
      OccursCrlf(line, i);
    }
  }

  lemma HexIsOne()
    ensures AllHex([49]) && HexValue([49]) == 1
  {
    var one: Bytes := [49];
    assert one[..0] == [];
  }

  lemma ZeroLine()
    ensures IsLine([48]) && LenientSize([48]) == Some(0) && Lossy([48]) == [48]
  {
    assert Hex(0) == [48];
    HexIsLine(0);
    SameSizes([48]);
    LossyKeepsAscii([48]);
  }

  /** One byte, its size written with a space before it. */
  const SPACED: Message := Message([Chunk([32, 49], [120])], [48], [])

  lemma SpacedFits(max: nat)
    requires max >= 1
    ensures Lenient(SPACED) && FitsAllowance(SPACED, max) && Payload(SPACED.chunks) == [120]
  {
    SpacedSizeIsLenientOnly();
    ZeroLine();
    SpacedLinesFit();
    hide Lossy, LenientSize, IsLine, LineFits, After;
    assert SPACED.chunks[1..] == [] && Payload([]) == [];
    assert ChunksFit([], 1, 4, max) && FramingAfter([], 4) == 4;
    assert SPACED.chunks[0] == Chunk([32, 49], [120]);
    assert ChunksFit(SPACED.chunks, 0, 0, max);
    assert EndFits(SPACED.last, SPACED.trailers, 4, 1);
  }

  lemma SpacedLinesFit()
    ensures LineFits([32, 49], 0, 0) && After(0, [32, 49]) == 4
    ensures LineFits([48], 4, 1) && After(4, [48]) == 7 && LineFits([], 7, 1)
  {
    ZeroLine();
    LossyKeepsAscii([32, 49]);
    LossyIsEmptyOnlyOnEmpty([]);
    hide Lossy, LenientSize, IsLine;
  }

  /** Not the other way round: a space beside the size is taken by this reader, and refused by the strict one. */
  lemma SpacedWireIsTakenHereOnly(max: nat, tail: Bytes)
    requires max >= 1
    ensures var wire := Render(SPACED) + tail;
            Decode(wire, [], 0, max) == Ok(Decoded([120], tail)) && BQ.Decode(wire, [], 0).Err?
  {
    SpacedFits(max);
    SpacedSizeIsLenientOnly();
    hide *;
    AcceptsExactlyTheLenientGrammar(Render(SPACED) + tail, max, [120], tail);
    StrictRefuses(tail);
  }

  lemma StrictRefuses(tail: Bytes)
    requires SizeOf([32, 49]) == None && IsLine([32, 49])
    ensures BQ.Decode(Render(SPACED) + tail, [], 0).Err?
  {
    hide Render, SizeOf, BQ.Line, IsLine;
    RenderFirst(SPACED, tail);
    var rest := Render(SPACED.(chunks := SPACED.chunks[1..])) + tail;
    BP.LineOfRendered([32, 49], [120] + CRLF + rest, MAX_HEADER_BYTES);
  }

  // --- a message cut short ---

  lemma LineOfPrefix(line: Bytes, rest: Bytes, w: Bytes)
    requires IsLine(line) && |line| <= MAX_LINE && w <= line + CRLF + rest
    ensures Line(w) == if |w| < |line| + 2 then Err(Truncated) else Ok(Split(Lossy(line), w[|line| + 2..]))
    ensures |w| >= |line| + 2 ==> w[|line| + 2..] <= rest
  {
    hide Lossy;
    if |w| < |line| + 2 {
      NoLineInPrefix(line, rest, w);
    } else {
      RestOfPrefix(line, rest, w);
      LineOfRendered(line, w[|line| + 2..]);
    }
  }

  lemma {:induction false} TrailersCutShort(trailers: seq<Bytes>, framing: nat, body: Bytes, w: Bytes)
    requires forall i :: 0 <= i < |trailers| ==> trailers[i] != [] && IsLine(trailers[i])
    requires TrailersFit(trailers, framing, |body|) && IsProperPrefix(w, RenderTrailers(trailers))
    ensures DecodeTrailers(w, framing, body) == Err(Truncated)
  {
    hide Line, Lossy, OverBudget, Charge;
    if trailers == [] {
      EmptyLine();
      assert RenderTrailers(trailers) == [] + CRLF + [];
      LineOfPrefix([], [], w);
    } else {
      var (t, rest) := (trailers[0], RenderTrailers(trailers[1..]));
      LineOfPrefix(t, rest, w);
      LossyIsEmptyOnlyOnEmpty(t);
      if |w| >= |t| + 2 { TrailersCutShort(trailers[1..], After(framing, t), body, w[|t| + 2..]); }
    }
  }

  lemma DataOfPrefix(data: Bytes, rest: Bytes, w: Bytes)
    requires w <= data + CRLF + rest
    ensures Data(w, |data|) == if |w| < |data| + 2 then Err(Truncated) else Ok(Split(data, w[|data| + 2..]))
    ensures |w| >= |data| + 2 ==> w[|data| + 2..] <= rest
  {
    if |w| >= |data| + 2 {
      RestOfPrefix(data, rest, w);
      DataOfRendered(data, w[|data| + 2..]);
    }
  }

  lemma {:induction false} DecodeCutShort(m: Message, body: Bytes, framing: nat, max: nat, w: Bytes)
    requires Lenient(m) && ChunksFit(m.chunks, |body|, framing, max) && IsProperPrefix(w, Render(m))
    requires EndFits(m.last, m.trailers, FramingAfter(m.chunks, framing), |body| + |Payload(m.chunks)|)
    ensures Decode(w, body, framing, max) == Err(Truncated)
    decreases |m.chunks|
  {
    hide Line, Data, SizeOfText, DecodeTrailers, TrailersFit, Render, RenderTrailers, Lossy, OverBudget, Charge;
    hide SaturatingAdd, IsLine, IsProperPrefix;
    assert Render(m) + [] == Render(m);
    PayloadFirst(body, m.chunks);
    BP.PrefixOfProper(w, Render(m));
    if m.chunks == [] {
      RenderLast(m, []);
      var rest := RenderTrailers(m.trailers);
      assert rest + [] == rest;
      LineOfPrefix(m.last, rest, w);
      if |w| >= |m.last| + 2 {
        BP.ProperRest(w, m.last, rest);
        TrailersCutShort(m.trailers, After(framing, m.last), body, w[|m.last| + 2..]);
      }
    } else {
      var (c, more) := (m.chunks[0], m.(chunks := m.chunks[1..]));
      LenientRest(m);
      RenderFirst(m, []);
      assert Render(more) + [] == Render(more);
      var rest := c.data + CRLF + Render(more);
      LineOfPrefix(c.line, rest, w);
      if |w| >= |c.line| + 2 {
        BP.ProperRest(w, c.line, rest);
        var v := w[|c.line| + 2..];
        DataOfPrefix(c.data, Render(more), v);
        if |v| >= |c.data| + 2 {
          BP.ProperRest(v, c.data, Render(more));
          DecodeCutShort(more, body + c.data, After(framing, c.line), max, v[|c.data| + 2..]);
        }
      }
    }
  }

  /** A message within the limits that is cut short anywhere is never accepted: the reader answers that it is
      truncated. */
  lemma CutShortIsTruncated(m: Message, max: nat, w: Bytes)
    requires Lenient(m) && FitsAllowance(m, max) && IsProperPrefix(w, Render(m))
    ensures Decode(w, [], 0, max) == Err(Truncated)
  {
    hide Decode, Render, Lenient, ChunksFit, EndFits, IsProperPrefix, FramingAfter, Payload;
    DecodeCutShort(m, [], 0, max, w);
  }
}
