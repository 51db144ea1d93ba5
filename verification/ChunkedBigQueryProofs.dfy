/** What the BigQuery decoder accepts, stated on the grammar of chunked messages. */
module ChunkedBigQueryProofs {
  import opened Common
  import opened ChunkGrammar
  import opened ChunkedBigQuery

  // --- the limits, on a message ---

  /** Bytes of framing around the data of some chunks. */
  function FramingOf(chunks: seq<Chunk>): nat {
    if chunks == [] then 0 else |chunks[0].line| + 4 + FramingOf(chunks[1..])
  }

  /** Each size line is short enough, and comes while the framing is within the budget of the data
      before it; no chunk takes the body past the maximum. */
  predicate FitsChunks(chunks: seq<Chunk>, out: nat, framing: nat) {
    chunks == [] ||
    (&& |chunks[0].line| + 2 <= MAX_HEADER_BYTES
     && framing + |chunks[0].line| + 2 <= Budget(out)
     && out + |chunks[0].data| <= MAX_BODY_BYTES
     && FitsChunks(chunks[1..], out + |chunks[0].data|, framing + |chunks[0].line| + 4))
  }

  predicate FitsTrailers(trailers: seq<Bytes>, remaining: nat, framing: nat, out: nat) {
    var n := if trailers == [] then 0 else |trailers[0]|;
    && n + 2 <= remaining && framing + n + 2 <= Budget(out)
    && (trailers != [] ==> FitsTrailers(trailers[1..], remaining - (n + 2), framing + n + 2, out))
  }

  predicate FitsEnd(last: Bytes, trailers: seq<Bytes>, framing: nat, out: nat) {
    && |last| + 2 <= MAX_HEADER_BYTES
    && framing + |last| + 2 <= Budget(out)
    && FitsTrailers(trailers, MAX_HEADER_BYTES, framing + |last| + 2, out)
  }

  predicate Fits(m: Message) {
    FitsChunks(m.chunks, 0, 0) && FitsEnd(m.last, m.trailers, FramingOf(m.chunks), |Payload(m.chunks)|)
  }

  // --- a rendered message is decoded ---

  lemma LineOfRendered(line: Bytes, rest: Bytes, limit: nat)
    requires IsLine(line) && |line| + 2 <= limit
    ensures Line(line + CRLF + rest, limit) == Ok(Split(line, rest))
  {
    FirstCrlf(line, rest);
    var wire := line + CRLF + rest;
    assert wire[..|line|] == line && wire[|line| + 2..] == rest;
  }

  lemma DataOfRendered(data: Bytes, rest: Bytes)
    ensures Data(data + CRLF + rest, |data|) == Ok(Split(data, rest))
  {
    var wire := data + CRLF + rest;
    assert wire[..|data|] == data && wire[|data|..|data| + 2] == CRLF && wire[|data| + 2..] == rest;
  }

  lemma {:induction false} DecodeRenderedTrailers(trailers: seq<Bytes>, remaining: nat, framing: nat, out: Bytes,
      tail: Bytes)
    requires forall i :: 0 <= i < |trailers| ==> trailers[i] != [] && IsLine(trailers[i])
    requires FitsTrailers(trailers, remaining, framing, |out|)
    ensures DecodeTrailers(RenderTrailers(trailers) + tail, remaining, framing, out) == Ok(Decoded(out, tail))
  {
    hide Line;
    if trailers == [] {
      EmptyLine();
      LineOfRendered([], tail, remaining);
      assert RenderTrailers(trailers) + tail == [] + CRLF + tail;
    } else {
      var t, rest := trailers[0], RenderTrailers(trailers[1..]) + tail;
      LineOfRendered(t, rest, remaining);
      assert RenderTrailers(trailers) + tail == t + CRLF + rest;
      DecodeRenderedTrailers(trailers[1..], remaining - (|t| + 2), framing + |t| + 2, out, tail);
    }
  }

  lemma WellFormedRest(m: Message)
    requires m.chunks != [] && WellFormed(m)
    ensures WellFormedChunk(m.chunks[0]) && WellFormed(m.(chunks := m.chunks[1..]))
  {
  }

  lemma {:induction false} DecodeRendered(m: Message, out: Bytes, framing: nat, tail: Bytes)
    requires |out| <= MAX_BODY_BYTES && WellFormed(m)
    requires FitsChunks(m.chunks, |out|, framing)
    requires FitsEnd(m.last, m.trailers, framing + FramingOf(m.chunks), |out| + |Payload(m.chunks)|)
    ensures Decode(Render(m) + tail, out, framing) == Ok(Decoded(out + Payload(m.chunks), tail))
    decreases |m.chunks|
  {
    hide Line, Data, SizeOf, DecodeTrailers, FitsTrailers, Render, RenderTrailers;
    PayloadFirst(out, m.chunks);
    if m.chunks == [] {
      RenderLast(m, tail);
      LineOfRendered(m.last, RenderTrailers(m.trailers) + tail, MAX_HEADER_BYTES);
      DecodeRenderedTrailers(m.trailers, MAX_HEADER_BYTES, framing + |m.last| + 2, out, tail);
    } else {
      var c, more := m.chunks[0], m.(chunks := m.chunks[1..]);
      WellFormedRest(m);
      RenderFirst(m, tail);
      LineOfRendered(c.line, c.data + CRLF + (Render(more) + tail), MAX_HEADER_BYTES);
      DataOfRendered(c.data, Render(more) + tail);
      DecodeRendered(more, out + c.data, framing + |c.line| + 4, tail);
    }
  }

  // --- what is decoded was a rendered message ---

  lemma LineIsRendered(wire: Bytes, limit: nat)
    requires Line(wire, limit).Ok?
    ensures var s := Line(wire, limit).value;
            wire == s.line + CRLF + s.rest && IsLine(s.line) && |s.line| + 2 <= limit
  {
    FoundLineIsLine(wire, Find(wire, CRLF).value);
  }

  lemma DataIsRendered(rest: Bytes, size: nat)
    requires Data(rest, size).Ok?
    ensures rest == Data(rest, size).value.line + CRLF + Data(rest, size).value.rest
  {
  }

  lemma {:induction false} TrailersAreRendered(wire: Bytes, remaining: nat, framing: nat, out: Bytes)
      returns (trailers: seq<Bytes>)
    requires DecodeTrailers(wire, remaining, framing, out).Ok?
    ensures var d := DecodeTrailers(wire, remaining, framing, out).value;
            && d.body == out
            && wire == RenderTrailers(trailers) + d.rest
            && (forall i :: 0 <= i < |trailers| ==> trailers[i] != [] && IsLine(trailers[i]))
            && FitsTrailers(trailers, remaining, framing, |out|)
    decreases |wire|
  {
    hide Line;
    LineIsRendered(wire, remaining);
    var s := Line(wire, remaining).value;
    if s.line == [] {
      trailers := [];
      assert wire == CRLF + s.rest;
    } else {
      var more := TrailersAreRendered(s.rest, remaining - (|s.line| + 2), framing + |s.line| + 2, out);
      trailers := [s.line] + more;
      assert trailers[1..] == more;
      var d := DecodeTrailers(wire, remaining, framing, out).value;
      assert wire == s.line + CRLF + (RenderTrailers(more) + d.rest);
    }
  }

  lemma {:induction false} DecodedIsRendered(wire: Bytes, out: Bytes, framing: nat) returns (m: Message)
    requires |out| <= MAX_BODY_BYTES && Decode(wire, out, framing).Ok?
    ensures var d := Decode(wire, out, framing).value;
            && WellFormed(m)
            && wire == Render(m) + d.rest
            && d.body == out + Payload(m.chunks)
            && FitsChunks(m.chunks, |out|, framing)
            && FitsEnd(m.last, m.trailers, framing + FramingOf(m.chunks), |d.body|)
    decreases |wire|
  {
    hide Line, Data, SizeOf, DecodeTrailers, FitsTrailers, Render, RenderTrailers, IsLine;
    LineIsRendered(wire, MAX_HEADER_BYTES);
    var s := Line(wire, MAX_HEADER_BYTES).value;
    var d := Decode(wire, out, framing).value;
    var size := SizeOf(s.line).value;
    if size == 0 {
      var trailers := TrailersAreRendered(s.rest, MAX_HEADER_BYTES, framing + |s.line| + 2, out);
      m := Message([], s.line, trailers);
      RenderLast(m, d.rest);
    } else {
      DataIsRendered(s.rest, size);
      var data := Data(s.rest, size).value;
      var more := DecodedIsRendered(data.rest, out + data.line, framing + |s.line| + 4);
      var c := Chunk(s.line, data.line);
      m := Message([c] + more.chunks, more.last, more.trailers);
      assert m.chunks[1..] == more.chunks && m.(chunks := m.chunks[1..]) == more;
      assert WellFormedChunk(c);
      RenderFirst(m, d.rest);
    }
    PayloadFirst(out, m.chunks);
  }

  // --- main results ---

  /** The reader accepts a wire, with this body and this remainder, exactly when the wire is a
      chunked message within the limits, carrying that body, followed by that remainder. */
  lemma AcceptsExactlyTheGrammar(wire: Bytes, body: Bytes, rest: Bytes)
    ensures Decode(wire, [], 0) == Ok(Decoded(body, rest)) <==>
            exists m :: WellFormed(m) && Fits(m) && Payload(m.chunks) == body && wire == Render(m) + rest
  {
    hide Decode, WellFormed, Render, FitsChunks, FitsEnd, FramingOf, Payload;
    if Decode(wire, [], 0) == Ok(Decoded(body, rest)) {
      var m := DecodedIsRendered(wire, [], 0);
      assert [] + Payload(m.chunks) == Payload(m.chunks);
    }
    forall m | WellFormed(m) && Fits(m) && Payload(m.chunks) == body && wire == Render(m) + rest
      ensures Decode(wire, [], 0) == Ok(Decoded(body, rest))
    {
      DecodeRendered(m, [], 0, rest);
      assert [] + Payload(m.chunks) == Payload(m.chunks);
    }
  }

  lemma {:induction false} MinimalChunksFit(pieces: seq<Bytes>, out: nat, framing: nat)
    requires forall i :: 0 <= i < |pieces| ==> pieces[i] != []
    requires out + |Concat(pieces)| <= MAX_BODY_BYTES && framing <= 5 * out
    ensures FitsChunks(Minimal(pieces).chunks, out, framing)
    ensures framing + FramingOf(Minimal(pieces).chunks) <= 5 * (out + |Concat(pieces)|)
  {
    if pieces != [] {
      var n := |pieces[0]|;
      HexIsShort(n);
      HexFits(n);
      assert Minimal(pieces).chunks[1..] == Minimal(pieces[1..]).chunks;
      MinimalChunksFit(pieces[1..], out + n, framing + |Hex(n)| + 4);
    }
  }

  /** However finely a body of at most 128 MiB is cut into non-empty chunks, its minimal encoding
      is within the framing budget and is read back. */
  lemma BudgetAdmitsEveryMinimalChunking(pieces: seq<Bytes>, tail: Bytes)
    requires forall i :: 0 <= i < |pieces| ==> pieces[i] != []
    requires |Concat(pieces)| <= MAX_BODY_BYTES
    ensures Decode(Render(Minimal(pieces)) + tail, [], 0) == Ok(Decoded(Concat(pieces), tail))
  {
    hide *;
    PiecesAreShort(pieces);
    MinimalIsWellFormed(pieces);
    MinimalPayload(pieces);
    MinimalChunksFit(pieces, 0, 0);
    var m := Minimal(pieces);
    MinimalEnds(pieces);
    ShortEndFits(m.last, FramingOf(m.chunks), |Concat(pieces)|);
    DecodeRendered(m, [], 0, tail);
    assert [] + Concat(pieces) == Concat(pieces);
  }

  lemma PiecesAreShort(pieces: seq<Bytes>)
    requires |Concat(pieces)| <= MAX_BODY_BYTES
    ensures forall i :: 0 <= i < |pieces| ==> |pieces[i]| < USIZE_LIMIT
  {
    forall i | 0 <= i < |pieces|
      ensures |pieces[i]| < USIZE_LIMIT
    {
      PieceIsShorter(pieces, i);
    }
  }

  lemma MinimalEnds(pieces: seq<Bytes>)
    ensures Minimal(pieces).last == Hex(0) && Minimal(pieces).trailers == []
  {
  }

  /** The zero line and the empty line at the end of a minimal encoding. */
  lemma ShortEndFits(last: Bytes, framing: nat, out: nat)
    requires last == Hex(0) && framing <= 5 * out
    ensures FitsEnd(last, [], framing, out)
  {
    assert |last| == 1;
    assert FitsTrailers([], MAX_HEADER_BYTES, framing + 3, out);
  }

  lemma {:induction false} TrailersConsume(wire: Bytes, remaining: nat, framing: nat, out: Bytes)
    requires DecodeTrailers(wire, remaining, framing, out).Ok?
    ensures var d := DecodeTrailers(wire, remaining, framing, out).value;
            d.body == out && |d.rest| <= |wire| && |wire| - |d.rest| + framing <= Budget(|out|)
    decreases |wire|
  {
    hide Line;
    var s := Line(wire, remaining).value;
    if s.line != [] {
      TrailersConsume(s.rest, remaining - (|s.line| + 2), framing + |s.line| + 2, out);
    }
  }

  lemma {:induction false} DecodeConsumes(wire: Bytes, out: Bytes, framing: nat)
    requires |out| <= MAX_BODY_BYTES && Decode(wire, out, framing).Ok?
    ensures var d := Decode(wire, out, framing).value;
            && out <= d.body && |d.body| <= MAX_BODY_BYTES && |d.rest| <= |wire|
            && |wire| - |d.rest| + framing + |out| <= 6 * |d.body| + MAX_HEADER_BYTES
    decreases |wire|
  {
    hide Line, Data, SizeOf, DecodeTrailers;
    var s := Line(wire, MAX_HEADER_BYTES).value;
    var size := SizeOf(s.line).value;
    if size == 0 {
      TrailersConsume(s.rest, MAX_HEADER_BYTES, framing + |s.line| + 2, out);
    } else {
      var data := Data(s.rest, size).value;
      DecodeConsumes(data.rest, out + data.line, framing + |s.line| + 4);
    }
  }

  /** Whatever is accepted has at most 128 MiB of body and took at most six bytes of wire for each
      byte of it, plus 64 KiB. */
  lemma AcceptedWireIsBounded(wire: Bytes)
    requires Decode(wire, [], 0).Ok?
    ensures var d := Decode(wire, [], 0).value;
            |d.body| <= MAX_BODY_BYTES && |wire| - |d.rest| <= 6 * |d.body| + MAX_HEADER_BYTES
  {
    DecodeConsumes(wire, [], 0);
  }

  // --- a message cut short ---

  predicate IsIncomplete(r: Result<Decoded, ReadError>) {
    r == Err(HeadersIncomplete) || r == Err(BodyIncomplete)
  }

  lemma LineOfPrefix(line: Bytes, rest: Bytes, w: Bytes, limit: nat)
    requires IsLine(line) && |line| + 2 <= limit && w <= line + CRLF + rest
    ensures Line(w, limit)
            == if |w| < |line| + 2 then Err(HeadersIncomplete) else Ok(Split(line, w[|line| + 2..]))
    ensures |w| >= |line| + 2 ==> w[|line| + 2..] <= rest
  {
    if |w| < |line| + 2 {
      NoLineInPrefix(line, rest, w);
    } else {
      RestOfPrefix(line, rest, w);
      LineOfRendered(line, w[|line| + 2..], limit);
    }
  }

  lemma {:induction false} TrailersCutShort(trailers: seq<Bytes>, remaining: nat, framing: nat, out: Bytes, w: Bytes)
    requires forall i :: 0 <= i < |trailers| ==> trailers[i] != [] && IsLine(trailers[i])
    requires FitsTrailers(trailers, remaining, framing, |out|) && IsProperPrefix(w, RenderTrailers(trailers))
    ensures IsIncomplete(DecodeTrailers(w, remaining, framing, out))
  {
    hide Line;
    if trailers == [] {
      EmptyLine();
      assert RenderTrailers(trailers) == [] + CRLF + [];
      LineOfPrefix([], [], w, remaining);
    } else {
      var (t, rest) := (trailers[0], RenderTrailers(trailers[1..]));
      LineOfPrefix(t, rest, w, remaining);
      if |w| >= |t| + 2 {
        TrailersCutShort(trailers[1..], remaining - (|t| + 2), framing + |t| + 2, out, w[|t| + 2..]);
      }
    }
  }

  lemma DataOfPrefix(data: Bytes, rest: Bytes, w: Bytes)
    requires w <= data + CRLF + rest
    ensures Data(w, |data|) == if |w| < |data| + 2 then Err(BodyIncomplete) else Ok(Split(data, w[|data| + 2..]))
    ensures |w| >= |data| + 2 ==> w[|data| + 2..] <= rest
  {
    if |w| >= |data| + 2 {
      RestOfPrefix(data, rest, w);
      DataOfRendered(data, w[|data| + 2..]);
    }
  }

  lemma ProperRest(w: Bytes, line: Bytes, rest: Bytes)
    requires IsProperPrefix(w, line + CRLF + rest) && |w| >= |line| + 2 && w[|line| + 2..] <= rest
    ensures IsProperPrefix(w[|line| + 2..], rest)
  {
  }

  lemma {:induction false} DecodeCutShort(m: Message, out: Bytes, framing: nat, w: Bytes)
    requires |out| <= MAX_BODY_BYTES && WellFormed(m) && IsProperPrefix(w, Render(m))
    requires FitsChunks(m.chunks, |out|, framing)
    requires FitsEnd(m.last, m.trailers, framing + FramingOf(m.chunks), |out| + |Payload(m.chunks)|)
    ensures IsIncomplete(Decode(w, out, framing))
    decreases |m.chunks|
  {
    hide Line, Data, SizeOf, DecodeTrailers, FitsTrailers, Render, RenderTrailers, IsProperPrefix, IsLine;
    assert Render(m) + [] == Render(m);
    PayloadFirst(out, m.chunks);
    PrefixOfProper(w, Render(m));
    if m.chunks == [] {
      RenderLast(m, []);
      var rest := RenderTrailers(m.trailers);
      assert rest + [] == rest;
      LineOfPrefix(m.last, rest, w, MAX_HEADER_BYTES);
      if |w| >= |m.last| + 2 {
        ProperRest(w, m.last, rest);
        TrailersCutShort(m.trailers, MAX_HEADER_BYTES, framing + |m.last| + 2, out, w[|m.last| + 2..]);
      }
    } else {
      var (c, more) := (m.chunks[0], m.(chunks := m.chunks[1..]));
      WellFormedRest(m);
      RenderFirst(m, []);
      assert Render(more) + [] == Render(more);
      var rest := c.data + CRLF + Render(more);
      LineOfPrefix(c.line, rest, w, MAX_HEADER_BYTES);
      if |w| >= |c.line| + 2 {
        ProperRest(w, c.line, rest);
        var v := w[|c.line| + 2..];
        DataOfPrefix(c.data, Render(more), v);
        if |v| >= |c.data| + 2 {
          ProperRest(v, c.data, Render(more));
          DecodeCutShort(more, out + c.data, framing + |c.line| + 4, v[|c.data| + 2..]);
        }
      }
    }
  }

  lemma PrefixOfProper(w: Bytes, s: Bytes)
    requires IsProperPrefix(w, s)
    ensures w <= s
  {
  }

  /** A message within the limits that is cut short anywhere is never accepted: the reader answers that it is
      incomplete, whether the cut is in a line, in the data, or in the last line break. */
  lemma CutShortIsIncomplete(m: Message, w: Bytes)
    requires WellFormed(m) && Fits(m) && IsProperPrefix(w, Render(m))
    ensures IsIncomplete(Decode(w, [], 0))
  {
    hide Decode, Render, WellFormed, FitsChunks, FitsEnd, IsProperPrefix;
    DecodeCutShort(m, [], 0, w);
  }
}
