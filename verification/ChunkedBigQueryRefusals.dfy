/** What the BigQuery decoder refuses, and why: the first defect after the chunks that are in order. */
module ChunkedBigQueryRefusals {
  import opened Common
  import opened ChunkGrammar
  import opened ChunkedBigQuery

  // --- the defects ---

  /** The text begins with this line. */
  predicate Opens(w: Bytes, line: Bytes, more: Bytes) {
    w == line + CRLF + more && IsLine(line)
  }

  /** A line of this length may come here: what is left for lines, and the budget of framing for the body so far. */
  predicate Passes(line: Bytes, limit: nat, framing: nat, out: nat) {
    |line| + 2 <= limit && framing + |line| + 2 <= 5 * out + 65536
  }

  /** No line, a line that is too long, or one line of framing too many. */
  ghost predicate LineDefect(w: Bytes, limit: nat, framing: nat, out: nat, e: ReadError) {
    || (!Contains(w, CRLF) && e == if |w| < limit then HeadersIncomplete else HeadersTooLarge)
    || (exists line, more :: Opens(w, line, more) && |line| + 2 > limit && e == HeadersTooLarge)
    || (exists line, more :: Opens(w, line, more) && |line| + 2 <= limit && framing + |line| + 2 > 5 * out + 65536
                             && e == FramingTooLarge)
  }

  /** A defect of the line after some trailer fields. */
  ghost predicate TrailersRefused(trailers: seq<Bytes>, w: Bytes, remaining: nat, framing: nat, out: nat,
      e: ReadError) {
    if trailers == [] then LineDefect(w, remaining, framing, out, e)
    else
      var t := trailers[0];
      && t != [] && Passes(t, remaining, framing, out)
      && exists more :: Opens(w, t, more)
                        && TrailersRefused(trailers[1..], more, remaining - (|t| + 2), framing + |t| + 2, out, e)
  }

  ghost predicate TrailersFail(w: Bytes, remaining: nat, framing: nat, out: nat, e: ReadError) {
    exists trailers :: TrailersRefused(trailers, w, remaining, framing, out, e)
  }

  /** A size line that announces no size, or more than the body may hold; data that end too soon, or without a line
      break; a defect after the last chunk. */
  ghost predicate ChunkDefect(line: Bytes, more: Bytes, framing: nat, out: nat, e: ReadError) {
    || (e == InvalidSize && forall n: nat :: AnnouncesSize(line, n) ==> n > 0xFFFF_FFFF_FFFF_FFFF)
    || (e == BodyTooLarge
        && exists n: nat :: AnnouncesSize(line, n) && n <= 0xFFFF_FFFF_FFFF_FFFF && out + n > 134217728)
    || (e == BodyIncomplete
        && exists n: nat :: AnnouncesSize(line, n) && 0 < n && out + n <= 134217728 && |more| < n + 2)
    || (e == InvalidTerminator
        && exists n: nat :: AnnouncesSize(line, n) && 0 < n && out + n <= 134217728 && n + 2 <= |more|
                       && more[n..n + 2] != CRLF)
    || (AnnouncesSize(line, 0) && TrailersFail(more, 65536, framing + |line| + 2, out, e))
  }

  /** A defect after these chunks. */
  ghost predicate Refused(chunks: seq<Chunk>, w: Bytes, out: nat, framing: nat, e: ReadError) {
    if chunks == [] then
      || LineDefect(w, 65536, framing, out, e)
      || exists line, more :: Opens(w, line, more) && Passes(line, 65536, framing, out)
                              && ChunkDefect(line, more, framing, out, e)
    else
      var (line, data) := (chunks[0].line, chunks[0].data);
      && Passes(line, 65536, framing, out) && data != [] && AnnouncesSize(line, |data|) && out + |data| <= 134217728
      && exists more :: Opens(w, line, data + CRLF + more)
                        && Refused(chunks[1..], more, out + |data|, framing + |line| + 4, e)
  }

  // --- lines ---

  lemma OpenedLine(w: Bytes, line: Bytes, more: Bytes)
    requires Opens(w, line, more)
    ensures Contains(w, CRLF) && Find(w, CRLF) == Some(|line|) && w[..|line|] == line && w[|line| + 2..] == more
  {
    FirstCrlf(line, more);
  }

  lemma LineOpens(w: Bytes, limit: nat)
    requires Line(w, limit).Ok?
    ensures var s := Line(w, limit).value; Opens(w, s.line, s.rest) && |s.line| + 2 <= limit
  {
    FoundLineIsLine(w, Find(w, CRLF).value);
  }

  lemma NoLine(w: Bytes)
    ensures Contains(w, CRLF) <==> Find(w, CRLF).Some?
  {
  }

  lemma OpenedIsRead(w: Bytes, line: Bytes, more: Bytes, limit: nat)
    requires Opens(w, line, more)
    ensures Line(w, limit) == if |line| + 2 > limit then Err(HeadersTooLarge) else Ok(Split(line, more))
  {
    OpenedLine(w, line, more);
  }

  /** What is wrong with the line that comes next. */
  function LineRefusal(w: Bytes, limit: nat, framing: nat, out: nat): Option<ReadError> {
    var l := Line(w, limit);
    if l.Err? then Some(l.error)
    else if framing + |l.value.line| + 2 > Budget(out) then Some(FramingTooLarge)
    else None
  }

  lemma LineRefusedExactly(w: Bytes, limit: nat, framing: nat, out: nat, e: ReadError)
    ensures LineRefusal(w, limit, framing, out) == Some(e) <==> LineDefect(w, limit, framing, out, e)
  {
    hide IsLine;
    NoLine(w);
    if Find(w, CRLF).Some? {
      var end := Find(w, CRLF).value;
      FoundLineIsLine(w, end);
      assert Opens(w, w[..end], w[end + 2..]);
    }
    forall line, more | Opens(w, line, more)
      ensures Find(w, CRLF) == Some(|line|)
    {
      OpenedLine(w, line, more);
    }
  }

  lemma PassingLine(w: Bytes, line: Bytes, more: Bytes, limit: nat, framing: nat, out: nat)
    requires Opens(w, line, more) && Passes(line, limit, framing, out)
    ensures LineRefusal(w, limit, framing, out) == None && Line(w, limit) == Ok(Split(line, more))
  {
    OpenedIsRead(w, line, more, limit);
  }

  lemma ReadLinePasses(w: Bytes, limit: nat, framing: nat, out: nat)
    requires LineRefusal(w, limit, framing, out) == None
    ensures Line(w, limit).Ok?
    ensures var s := Line(w, limit).value; Opens(w, s.line, s.rest) && Passes(s.line, limit, framing, out)
  {
    LineOpens(w, limit);
  }

  // --- trailers ---

  lemma TrailersUnfold(w: Bytes, remaining: nat, framing: nat, out: Bytes)
    ensures DecodeTrailers(w, remaining, framing, out)
            == var refusal := LineRefusal(w, remaining, framing, |out|);
               if refusal.Some? then Err(refusal.value)
               else
                 var s := Line(w, remaining).value;
                 if s.line == [] then Ok(Decoded(out, s.rest))
                 else DecodeTrailers(s.rest, remaining - (|s.line| + 2), framing + |s.line| + 2, out)
  {
    hide Line;
  }

  lemma {:induction false} TrailersDefect(w: Bytes, remaining: nat, framing: nat, out: Bytes, e: ReadError)
      returns (trailers: seq<Bytes>)
    requires DecodeTrailers(w, remaining, framing, out) == Err(e)
    ensures TrailersRefused(trailers, w, remaining, framing, |out|, e)
    decreases |w|
  {
    hide Line, LineRefusal, LineDefect, DecodeTrailers, Opens, Passes;
    TrailersUnfold(w, remaining, framing, out);
    trailers := [];
    if LineRefusal(w, remaining, framing, |out|).Some? {
      LineRefusedExactly(w, remaining, framing, |out|, e);
    } else {
      ReadLinePasses(w, remaining, framing, |out|);
      var s := Line(w, remaining).value;
      var rest := TrailersDefect(s.rest, remaining - (|s.line| + 2), framing + |s.line| + 2, out, e);
      trailers := [s.line] + rest;
      assert trailers[1..] == rest;
    }
  }

  lemma {:induction false} DefectOfTrailers(trailers: seq<Bytes>, w: Bytes, remaining: nat, framing: nat, out: Bytes,
      e: ReadError)
    requires TrailersRefused(trailers, w, remaining, framing, |out|, e)
    ensures DecodeTrailers(w, remaining, framing, out) == Err(e)
  {
    hide Line, LineRefusal, LineDefect, DecodeTrailers, Opens;
    TrailersUnfold(w, remaining, framing, out);
    if trailers == [] {
      LineRefusedExactly(w, remaining, framing, |out|, e);
    } else {
      var t := trailers[0];
      var more :| Opens(w, t, more)
                  && TrailersRefused(trailers[1..], more, remaining - (|t| + 2), framing + |t| + 2, |out|, e);
      PassingLine(w, t, more, remaining, framing, |out|);
      DefectOfTrailers(trailers[1..], more, remaining - (|t| + 2), framing + |t| + 2, out, e);
    }
  }

  // --- chunks ---

  /** What follows a size line. */
  function AfterLine(line: Bytes, more: Bytes, framing: nat, out: Bytes): Result<Decoded, ReadError>
    requires |out| <= MAX_BODY_BYTES
  {
    var size := SizeOf(line);
    if size.None? then Err(InvalidSize)
    else if size.value > MAX_BODY_BYTES - |out| then Err(BodyTooLarge)
    else if size.value == 0 then DecodeTrailers(more, MAX_HEADER_BYTES, framing + |line| + 2, out)
    else
      var d := Data(more, size.value);
      if d.Err? then Err(d.error) else Decode(d.value.rest, out + d.value.line, framing + |line| + 4)
  }

  lemma DecodeUnfolds(w: Bytes, out: Bytes, framing: nat)
    requires |out| <= MAX_BODY_BYTES
    ensures Decode(w, out, framing)
            == var refusal := LineRefusal(w, MAX_HEADER_BYTES, framing, |out|);
               if refusal.Some? then Err(refusal.value)
               else
                 var s := Line(w, MAX_HEADER_BYTES).value;
                 AfterLine(s.line, s.rest, framing, out)
  {
    hide Line, Data, SizeOf, DecodeTrailers;
  }

  lemma SizesAnnounced(line: Bytes)
    ensures forall n :: SizeOf(line) == Some(n) <==> AnnouncesSize(line, n) && n <= 0xFFFF_FFFF_FFFF_FFFF
  {
    hide SizeOf, AnnouncesSize;
    forall n ensures SizeOf(line) == Some(n) <==> AnnouncesSize(line, n) && n <= 0xFFFF_FFFF_FFFF_FFFF {
      SizeIsAnnounced(line, n);
    }
  }

  /** The chunk is in order, and what comes after it decides. */
  predicate GoesOn(line: Bytes, more: Bytes, out: nat) {
    && SizeOf(line).Some? && 0 < SizeOf(line).value && out + SizeOf(line).value <= MAX_BODY_BYTES
    && Data(more, SizeOf(line).value).Ok?
  }

  lemma ChunkRefusedExactly(line: Bytes, more: Bytes, framing: nat, out: Bytes, e: ReadError)
    requires |out| <= MAX_BODY_BYTES && !GoesOn(line, more, |out|)
    ensures AfterLine(line, more, framing, out) == Err(e) <==> ChunkDefect(line, more, framing, |out|, e)
  {
    hide SizeOf, AnnouncesSize, DecodeTrailers, TrailersFail, Decode;
    SizesAnnounced(line);
    if SizeOf(line) == Some(0) { TrailersFailExactly(more, framing + |line| + 2, out, e); }
  }

  lemma TrailersFailExactly(w: Bytes, framing: nat, out: Bytes, e: ReadError)
    ensures DecodeTrailers(w, MAX_HEADER_BYTES, framing, out) == Err(e)
            <==> TrailersFail(w, MAX_HEADER_BYTES, framing, |out|, e)
  {
    hide DecodeTrailers, TrailersRefused;
    if DecodeTrailers(w, MAX_HEADER_BYTES, framing, out) == Err(e) {
      var trailers := TrailersDefect(w, MAX_HEADER_BYTES, framing, out, e);
    }
    if TrailersFail(w, MAX_HEADER_BYTES, framing, |out|, e) {
      var trailers :| TrailersRefused(trailers, w, MAX_HEADER_BYTES, framing, |out|, e);
      DefectOfTrailers(trailers, w, MAX_HEADER_BYTES, framing, out, e);
    }
  }

  lemma GoingOnIsNoDefect(line: Bytes, more: Bytes, framing: nat, out: nat, e: ReadError)
    requires GoesOn(line, more, out)
    ensures !ChunkDefect(line, more, framing, out, e)
  {
    hide SizeOf, AnnouncesSize, TrailersFail;
    SizesAnnounced(line);
  }

  lemma {:induction false} DecodeDefect(w: Bytes, out: Bytes, framing: nat, e: ReadError) returns (chunks: seq<Chunk>)
    requires |out| <= MAX_BODY_BYTES && Decode(w, out, framing) == Err(e)
    ensures Refused(chunks, w, |out|, framing, e)
    decreases |w|
  {
    hide Line, Data, LineRefusal, LineDefect, ChunkDefect, Decode, Opens, Passes, SizeOf, AnnouncesSize, DecodeTrailers;
    DecodeUnfolds(w, out, framing);
    chunks := [];
    if LineRefusal(w, MAX_HEADER_BYTES, framing, |out|).Some? {
      LineRefusedExactly(w, MAX_HEADER_BYTES, framing, |out|, e);
    } else {
      ReadLinePasses(w, MAX_HEADER_BYTES, framing, |out|);
      var s := Line(w, MAX_HEADER_BYTES).value;
      if GoesOn(s.line, s.rest, |out|) {
        SizesAnnounced(s.line);
        var d := Data(s.rest, SizeOf(s.line).value).value;
        DataIs(s.rest, SizeOf(s.line).value);
        var more := DecodeDefect(d.rest, out + d.line, framing + |s.line| + 4, e);
        chunks := [Chunk(s.line, d.line)] + more;
        assert chunks[1..] == more;
      } else {
        ChunkRefusedExactly(s.line, s.rest, framing, out, e);
      }
    }
  }

  lemma DataIs(rest: Bytes, size: nat)
    requires Data(rest, size).Ok?
    ensures var d := Data(rest, size).value; rest == d.line + CRLF + d.rest && |d.line| == size
  {
  }

  lemma DataOf(data: Bytes, more: Bytes)
    ensures Data(data + CRLF + more, |data|) == Ok(Split(data, more))
  {
    var rest := data + CRLF + more;
    assert rest[..|data|] == data && rest[|data|..|data| + 2] == CRLF && rest[|data| + 2..] == more;
  }

  lemma {:induction false} DefectOfChunks(chunks: seq<Chunk>, w: Bytes, out: Bytes, framing: nat, e: ReadError)
    requires |out| <= MAX_BODY_BYTES && Refused(chunks, w, |out|, framing, e)
    ensures Decode(w, out, framing) == Err(e)
    decreases |chunks|
  {
    hide Line, Data, LineRefusal, LineDefect, ChunkDefect, Decode, Opens, Passes, SizeOf, AnnouncesSize, DecodeTrailers;
    DecodeUnfolds(w, out, framing);
    LineRefusedExactly(w, MAX_HEADER_BYTES, framing, |out|, e);
    if chunks == [] {
      if !LineDefect(w, 65536, framing, |out|, e) {
        var line, more :| Opens(w, line, more) && Passes(line, 65536, framing, |out|)
                          && ChunkDefect(line, more, framing, |out|, e);
        PassingLine(w, line, more, 65536, framing, |out|);
        DefectEnds(line, more, framing, |out|, e);
        ChunkRefusedExactly(line, more, framing, out, e);
      }
    } else {
      var (line, data) := (chunks[0].line, chunks[0].data);
      var more :| Opens(w, line, data + CRLF + more)
                  && Refused(chunks[1..], more, |out| + |data|, framing + |line| + 4, e);
      PassingLine(w, line, data + CRLF + more, 65536, framing, |out|);
      SizesAnnounced(line);
      DataOf(data, more);
      DefectOfChunks(chunks[1..], more, out + data, framing + |line| + 4, e);
    }
  }

  lemma DefectEnds(line: Bytes, more: Bytes, framing: nat, out: nat, e: ReadError)
    requires ChunkDefect(line, more, framing, out, e)
    ensures !GoesOn(line, more, out)
  {
    hide GoesOn, ChunkDefect;
    if GoesOn(line, more, out) { GoingOnIsNoDefect(line, more, framing, out, e); }
  }

  /** A wire is refused with an error exactly when that is its first defect after some chunks in order. */
  lemma RefusesExactly(wire: Bytes, e: ReadError)
    ensures Decode(wire, [], 0) == Err(e) <==> exists chunks :: Refused(chunks, wire, 0, 0, e)
  {
    hide Decode, Refused;
    if Decode(wire, [], 0) == Err(e) {
      var chunks := DecodeDefect(wire, [], 0, e);
    }
    forall chunks | Refused(chunks, wire, 0, 0, e)
      ensures Decode(wire, [], 0) == Err(e)
    {
      DefectOfChunks(chunks, wire, [], 0, e);
    }
  }
}
