/** The two readers side by side, and the framing budget of the Cloud Run reader. */
module ChunkedAgreement {
  import opened Common
  import opened ChunkGrammar
  import opened Utf8
  import BQ = ChunkedBigQuery
  import CR = ChunkedCloudRun

  // --- both readers see the same size ---

  lemma HexIsTrimmed(s: Bytes)
    requires AllHex(s)
    ensures CR.TrimEnd(CR.TrimStart(s)) == s
  {
  }

  lemma HexIsAscii(s: Bytes)
    requires AllHex(s)
    ensures IsAscii(s)
  {
  }

  lemma {:induction false} SizeFieldEndsAtSemicolon(s: Bytes, rest: Bytes)
    requires SEMICOLON !in s
    ensures SizeField(s) == s
    ensures SizeField(s + [SEMICOLON] + rest) == s
  {
    if s != [] {
      assert (s + [SEMICOLON] + rest)[1..] == s[1..] + [SEMICOLON] + rest;
      SizeFieldEndsAtSemicolon(s[1..], rest);
    }
  }

  /** Where a line carries a size for the strict reader, decoding it as text changes nothing before
      its first semicolon. */
  lemma SizeFieldOfText(line: Bytes)
    requires AllHex(SizeField(line))
    ensures SizeField(Lossy(line)) == SizeField(line)
  {
    hide Lossy;
    var s := SizeField(line);
    HexIsAscii(s);
    if s == line {
      LossyKeepsAscii(s);
    } else {
      SizeFieldStops(line);
      var more := line[|s| + 1..];
      assert line == (s + [SEMICOLON]) + more;
      LossyKeepsAsciiHead(s + [SEMICOLON], more);
      SizeFieldEndsAtSemicolon(s, Lossy(more));
    }
  }

  lemma {:induction false} SizeFieldStops(line: Bytes)
    requires SizeField(line) != line
    ensures |SizeField(line)| < |line| && line[|SizeField(line)|] == SEMICOLON
  {
    if line != [] && line[0] != SEMICOLON {
      assert line == [line[0]] + line[1..];
      SizeFieldStops(line[1..]);
    }
  }

  lemma SameSize(line: Bytes)
    requires SizeOf(line).Some?
    ensures CR.SizeOfText(Lossy(line)) == SizeOf(line)
  {
    hide Lossy, CR.TrimStart, CR.TrimEnd;
    SizeFieldOfText(line);
    HexIsTrimmed(SizeField(line));
  }

  lemma SameLine(wire: Bytes, limit: nat)
    requires BQ.Line(wire, limit).Ok? && CR.Line(wire).Ok?
    ensures CR.Line(wire).value == CR.Split(Lossy(BQ.Line(wire, limit).value.line), BQ.Line(wire, limit).value.rest)
  {
  }

  lemma SameData(rest: Bytes, size: nat)
    requires BQ.Data(rest, size).Ok?
    ensures CR.Data(rest, size) == Ok(CR.Split(BQ.Data(rest, size).value.line, BQ.Data(rest, size).value.rest))
  {
    assert rest[size..][..2] == rest[size..size + 2] && rest[size..][2..] == rest[size + 2..];
  }

  lemma {:induction false} SameTrailers(wire: Bytes, remaining: nat, f1: nat, f2: nat, out: Bytes)
    requires BQ.DecodeTrailers(wire, remaining, f1, out).Ok? && CR.DecodeTrailers(wire, f2, out).Ok?
    ensures CR.DecodeTrailers(wire, f2, out).value.body == BQ.DecodeTrailers(wire, remaining, f1, out).value.body
    ensures CR.DecodeTrailers(wire, f2, out).value.rest == BQ.DecodeTrailers(wire, remaining, f1, out).value.rest
    decreases |wire|
  {
    hide BQ.Line, CR.Line, Lossy, CR.SaturatingAdd;
    SameLine(wire, remaining);
    var s := BQ.Line(wire, remaining).value;
    LossyIsEmptyOnlyOnEmpty(s.line);
    if s.line != [] {
      SameTrailers(s.rest, remaining - (|s.line| + 2), f1 + |s.line| + 2, CR.Charge(f2, Lossy(s.line)), out);
    }
  }

  lemma {:induction false} SameBody(wire: Bytes, out: Bytes, f1: nat, f2: nat, max: nat)
    requires |out| <= MAX_BODY_BYTES
    requires BQ.Decode(wire, out, f1).Ok? && CR.Decode(wire, out, f2, max).Ok?
    ensures CR.Decode(wire, out, f2, max).value.body == BQ.Decode(wire, out, f1).value.body
    ensures CR.Decode(wire, out, f2, max).value.rest == BQ.Decode(wire, out, f1).value.rest
    decreases |wire|
  {
    hide BQ.Line, CR.Line, BQ.Data, CR.Data, Lossy, SizeOf, CR.SizeOfText, BQ.DecodeTrailers, CR.DecodeTrailers,
      CR.SaturatingAdd;
    SameLine(wire, MAX_HEADER_BYTES);
    var s := BQ.Line(wire, MAX_HEADER_BYTES).value;
    SameSize(s.line);
    var size := SizeOf(s.line).value;
    if size == 0 {
      SameTrailers(s.rest, MAX_HEADER_BYTES, f1 + |s.line| + 2, CR.Charge(f2, Lossy(s.line)), out);
    } else {
      SameData(s.rest, size);
      var d := BQ.Data(s.rest, size).value;
      SameBody(d.rest, out + d.line, f1 + |s.line| + 4, CR.Charge(f2, Lossy(s.line)), max);
    }
  }

  /** Whatever wire both readers accept, they take the same body from it and leave the same rest. */
  lemma ReadersAgree(wire: Bytes, max: nat)
    requires BQ.Decode(wire, [], 0).Ok? && CR.Decode(wire, [], 0, max).Ok?
    ensures CR.Decode(wire, [], 0, max).value.body == BQ.Decode(wire, [], 0).value.body
    ensures CR.Decode(wire, [], 0, max).value.rest == BQ.Decode(wire, [], 0).value.rest
  {
    SameBody(wire, [], 0, 0, max);
  }

  // --- the Cloud Run budget on minimal encodings ---

  /** Each size line of the minimal encoding comes while the lines so far, it included, exceed the
      body so far by at most 64 KiB; so do the zero line and the empty line at the end. */
  predicate WithinAllowance(pieces: seq<Bytes>, out: nat, framing: nat) {
    if pieces == [] then framing + 5 <= out + CR.FRAMING_ALLOWANCE
    else
      var h := |Hex(|pieces[0]|)| + 2;
      framing + h <= out + CR.FRAMING_ALLOWANCE && WithinAllowance(pieces[1..], out + |pieces[0]|, framing + h)
  }

  lemma LineOfMinimal(n: nat, rest: Bytes)
    requires n < USIZE_LIMIT
    ensures CR.Line(Hex(n) + CRLF + rest) == Ok(CR.Split(Hex(n), rest))
    ensures CR.SizeOfText(Hex(n)) == Some(n)
    ensures |Hex(n)| <= 16
  {
    hide Lossy, CR.TrimStart, CR.TrimEnd;
    HexIsLine(n);
    HexFits(n);
    HexIsAscii(Hex(n));
    LossyKeepsAscii(Hex(n));
    FirstCrlf(Hex(n), rest);
    var wire := Hex(n) + CRLF + rest;
    assert wire[..|Hex(n)|] == Hex(n) && wire[|Hex(n)| + 2..] == rest;
    SameSize(Hex(n));
  }

  lemma EndOfMinimal(tail: Bytes)
    ensures CR.Line(CRLF + tail) == Ok(CR.Split([], tail))
  {
    FirstCrlf([], tail);
    assert [] + CRLF + tail == CRLF + tail;
    assert (CRLF + tail)[..0] == [] && (CRLF + tail)[2..] == tail;
  }

  lemma RenderMinimal(pieces: seq<Bytes>, tail: Bytes)
    ensures pieces == [] ==> Render(Minimal(pieces)) + tail == Hex(0) + CRLF + (CRLF + tail)
    ensures pieces != [] ==>
              Render(Minimal(pieces)) + tail
              == Hex(|pieces[0]|) + CRLF + (pieces[0] + CRLF + (Render(Minimal(pieces[1..])) + tail))
  {
    hide Render, Hex;
    var m := Minimal(pieces);
    if pieces == [] {
      RenderLast(m, tail);
      assert RenderTrailers([]) + tail == CRLF + tail;
    } else {
      assert m.(chunks := m.chunks[1..]) == Minimal(pieces[1..]);
      RenderFirst(m, tail);
    }
  }

  lemma DataOfMinimal(data: Bytes, rest: Bytes)
    ensures CR.Data(data + CRLF + rest, |data|) == Ok(CR.Split(data, rest))
  {
    var wire := data + CRLF + rest;
    assert wire[..|data|] == data && wire[|data|..] == CRLF + rest;
    assert (CRLF + rest)[..2] == CRLF && (CRLF + rest)[2..] == rest;
  }

  lemma {:induction false} MinimalDecodes(pieces: seq<Bytes>, body: Bytes, framing: nat, max: nat, tail: Bytes)
    requires forall i :: 0 <= i < |pieces| ==> pieces[i] != []
    requires |body| + |Concat(pieces)| + 70000 < USIZE_LIMIT && framing <= |body| + CR.FRAMING_ALLOWANCE
    requires |body| <= max
    ensures var r := CR.Decode(Render(Minimal(pieces)) + tail, body, framing, max);
            if WithinAllowance(pieces, |body|, framing) && |body| + |Concat(pieces)| <= max
            then r == Ok(CR.Decoded(body + Concat(pieces), tail))
            else r.Err?
    decreases |pieces|
  {
    hide CR.Line, CR.Data, CR.SizeOfText, Render, Hex;
    RenderMinimal(pieces, tail);
    if pieces == [] {
      LineOfMinimal(0, CRLF + tail);
      EndOfMinimal(tail);
      HexZero();
      assert body + Concat(pieces) == body;
    } else {
      var n := |pieces[0]|;
      var rest := Render(Minimal(pieces[1..])) + tail;
      LineOfMinimal(n, pieces[0] + CRLF + rest);
      DataOfMinimal(pieces[0], rest);
      assert body + Concat(pieces) == (body + pieces[0]) + Concat(pieces[1..]);
      var framing' := framing + |Hex(n)| + 2;
      if framing' <= |body| + CR.FRAMING_ALLOWANCE && |body| + n <= max {
        MinimalDecodes(pieces[1..], body + pieces[0], framing', max, tail);
      }
    }
  }

  lemma HexZero()
    ensures |Hex(0)| == 1
  {
  }

  /** The Cloud Run reader accepts a minimal encoding exactly when the body is within its maximum
      and the lines never exceed the body read so far by more than 64 KiB. */
  lemma CloudRunAcceptsExactlyWithinAllowance(pieces: seq<Bytes>, max: nat, tail: Bytes)
    requires forall i :: 0 <= i < |pieces| ==> pieces[i] != []
    requires |Concat(pieces)| + 70000 < USIZE_LIMIT
    ensures CR.Decode(Render(Minimal(pieces)) + tail, [], 0, max).Ok?
            <==> WithinAllowance(pieces, 0, 0) && |Concat(pieces)| <= max
    ensures CR.Decode(Render(Minimal(pieces)) + tail, [], 0, max).Ok? ==>
              CR.Decode(Render(Minimal(pieces)) + tail, [], 0, max).value == CR.Decoded(Concat(pieces), tail)
  {
    MinimalDecodes(pieces, [], 0, max, tail);
    assert [] + Concat(pieces) == Concat(pieces);
  }

  lemma {:induction false} ThreeByteChunksAreWithinAllowance(pieces: seq<Bytes>, out: nat, framing: nat)
    requires forall i :: 0 <= i < |pieces| ==> 3 <= |pieces[i]| < USIZE_LIMIT
    requires framing <= out
    ensures WithinAllowance(pieces, out, framing)
  {
    if pieces != [] {
      HexIsShort(|pieces[0]|);
      HexFits(|pieces[0]|);
      ThreeByteChunksAreWithinAllowance(pieces[1..], out + |pieces[0]|, framing + |Hex(|pieces[0]|)| + 2);
    }
  }

  lemma {:induction false} OneByteChunks(pieces: seq<Bytes>, out: nat, framing: nat)
    requires forall i :: 0 <= i < |pieces| ==> |pieces[i]| == 1
    requires framing == 3 * out
    ensures WithinAllowance(pieces, out, framing) <==> out + |pieces| <= 32765
  {
    if pieces != [] {
      assert |Hex(1)| == 1;
      OneByteChunks(pieces[1..], out + 1, framing + 3);
    }
  }

  /** Chunks of at least three bytes are always within the budget. Chunks of one byte are not: a body
      sent so is accepted exactly up to 32765 bytes. */
  lemma CloudRunBudgetBounds(pieces: seq<Bytes>, max: nat, tail: Bytes)
    requires |Concat(pieces)| <= max && |Concat(pieces)| + 70000 < USIZE_LIMIT
    ensures (forall i :: 0 <= i < |pieces| ==> |pieces[i]| >= 3) ==>
              CR.Decode(Render(Minimal(pieces)) + tail, [], 0, max) == Ok(CR.Decoded(Concat(pieces), tail))
    ensures (forall i :: 0 <= i < |pieces| ==> |pieces[i]| == 1) ==>
              (CR.Decode(Render(Minimal(pieces)) + tail, [], 0, max).Ok? <==> |pieces| <= 32765)
  {
    hide CR.Decode, Render;
    if forall i :: 0 <= i < |pieces| ==> |pieces[i]| >= 3 {
      forall i | 0 <= i < |pieces|
        ensures |pieces[i]| < USIZE_LIMIT
      {
        PieceIsShorter(pieces, i);
      }
      ThreeByteChunksAreWithinAllowance(pieces, 0, 0);
      CloudRunAcceptsExactlyWithinAllowance(pieces, max, tail);
    }
    if forall i :: 0 <= i < |pieces| ==> |pieces[i]| == 1 {
      OneByteChunks(pieces, 0, 0);
      CloudRunAcceptsExactlyWithinAllowance(pieces, max, tail);
    }
  }
}
