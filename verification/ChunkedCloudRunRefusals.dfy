/** What the Cloud Run decoder refuses, and why: the first defect after the chunks that are in order. */
module ChunkedCloudRunRefusals {
  import opened Common
  import opened ChunkGrammar
  import opened ChunkedCloudRun
  import opened LenientSizes
  import opened Utf8
  import ChunkedCloudRunProofs

  // --- the defects ---

  /** Sums of 64 bits stay at the largest number. */
  function Capped(n: nat): nat {
    if n > 0xFFFF_FFFF_FFFF_FFFF then 0xFFFF_FFFF_FFFF_FFFF else n
  }

  /** The text begins with this line. */
  predicate Opens(w: Bytes, line: Bytes, more: Bytes) {
    w == line + CRLF + more && IsLine(line)
  }

  /** The framing so far with one more line, by the length of its text and two for the line break. */
  function Charged(framing: nat, line: Bytes): nat {
    Capped(framing + |Lossy(line)| + 2)
  }

  predicate Passes(line: Bytes, framing: nat, out: nat) {
    |line| <= 8192 && Charged(framing, line) <= Capped(out + 65536)
  }

  /** No line, a line that is too long, or one line of framing too many. */
  ghost predicate LineDefect(w: Bytes, framing: nat, out: nat, e: BodyError) {
    || (!Contains(w, CRLF) && e == if |w| > 8193 then Malformed(LineTooLong) else Truncated)
    || (exists line, more :: Opens(w, line, more) && |line| > 8192 && e == Malformed(LineTooLong))
    || (exists line, more :: Opens(w, line, more) && |line| <= 8192 && Charged(framing, line) > Capped(out + 65536)
                             && e == Malformed(FramingTooLarge))
  }

  /** A defect of the line after some trailer fields. */
  ghost predicate TrailersRefused(trailers: seq<Bytes>, w: Bytes, framing: nat, out: nat, e: BodyError) {
    if trailers == [] then LineDefect(w, framing, out, e)
    else
      var t := trailers[0];
      && t != [] && Passes(t, framing, out)
      && exists more :: Opens(w, t, more) && TrailersRefused(trailers[1..], more, Charged(framing, t), out, e)
  }

  ghost predicate TrailersFail(w: Bytes, framing: nat, out: nat, e: BodyError) {
    exists trailers :: TrailersRefused(trailers, w, framing, out, e)
  }

  /** The size that the line's text says. */
  ghost predicate Says(line: Bytes, n: nat) {
    AnnouncesLeniently(Lossy(line), n) && n <= 0xFFFF_FFFF_FFFF_FFFF
  }

  /** A size line that announces no size, or more than the body may hold; data that end too soon, or without a line
      break; a defect after the last chunk. */
  ghost predicate ChunkDefect(line: Bytes, more: Bytes, framing: nat, out: nat, max: nat, e: BodyError) {
    || (e == Malformed(InvalidSize) && forall n: nat :: !Says(line, n))
    || (e == TooLarge && exists n: nat :: Says(line, n) && 0 < n && Capped(out + n) > max)
    || (e == Truncated && exists n: nat :: Says(line, n) && 0 < n && Capped(out + n) <= max && |more| < n + 2)
    || (e == Malformed(NotTerminated)
        && exists n: nat :: Says(line, n) && 0 < n && Capped(out + n) <= max && n + 2 <= |more|
                            && more[n..n + 2] != CRLF)
    || (Says(line, 0) && TrailersFail(more, Charged(framing, line), out, e))
  }

  /** A defect after these chunks. */
  ghost predicate Refused(chunks: seq<Chunk>, w: Bytes, out: nat, framing: nat, max: nat, e: BodyError) {
    if chunks == [] then
      || LineDefect(w, framing, out, e)
      || exists line, more :: Opens(w, line, more) && Passes(line, framing, out)
                              && ChunkDefect(line, more, framing, out, max, e)
    else
      var (line, data) := (chunks[0].line, chunks[0].data);
      && Passes(line, framing, out) && data != [] && Says(line, |data|) && Capped(out + |data|) <= max
      && exists more :: Opens(w, line, data + CRLF + more)
                        && Refused(chunks[1..], more, out + |data|, Charged(framing, line), max, e)
  }

  // --- lines ---

  lemma OpenedLine(w: Bytes, line: Bytes, more: Bytes)
    requires Opens(w, line, more)
    ensures Contains(w, CRLF) && Find(w, CRLF) == Some(|line|) && w[..|line|] == line && w[|line| + 2..] == more
  {
    FirstCrlf(line, more);
  }

  lemma NoLine(w: Bytes)
    ensures Contains(w, CRLF) <==> Find(w, CRLF).Some?
  {
  }

  /** What is wrong with the line that comes next. */
  function LineRefusal(w: Bytes, framing: nat, out: nat): Option<BodyError> {
    var l := Line(w);
    if l.Err? then Some(l.error)
    else if OverBudget(Charge(framing, l.value.head), out) then Some(Malformed(FramingTooLarge))
    else None
  }

  lemma LineRefusedExactly(w: Bytes, framing: nat, out: nat, e: BodyError)
    ensures LineRefusal(w, framing, out) == Some(e) <==> LineDefect(w, framing, out, e)
  {
    hide IsLine, Lossy;
    NoLine(w);
    if Find(w, CRLF).Some? {
      var end := Find(w, CRLF).value;
      FoundLineIsLine(w, end);
      assert Opens(w, w[..end], w[end + 2..]);
    }
    forall line, more | Opens(w, line, more)
      ensures Find(w, CRLF) == Some(|line|) && w[..|line|] == line
    {
      OpenedLine(w, line, more);
    }
  }

  lemma PassingLine(w: Bytes, line: Bytes, more: Bytes, framing: nat, out: nat)
    requires Opens(w, line, more) && Passes(line, framing, out)
    ensures LineRefusal(w, framing, out) == None && Line(w) == Ok(Split(Lossy(line), more))
  {
    hide Lossy;
    OpenedLine(w, line, more);
  }

  lemma ReadLinePasses(w: Bytes, framing: nat, out: nat) returns (line: Bytes, more: Bytes)
    requires LineRefusal(w, framing, out) == None
    ensures Opens(w, line, more) && Passes(line, framing, out) && Line(w) == Ok(Split(Lossy(line), more))
  {
    hide Lossy;
    var end := Find(w, CRLF).value;
    FoundLineIsLine(w, end);
    line, more := w[..end], w[end + 2..];
  }

  // --- trailers ---

  lemma TrailersUnfold(w: Bytes, framing: nat, body: Bytes)
    ensures DecodeTrailers(w, framing, body)
            == var refusal := LineRefusal(w, framing, |body|);
               if refusal.Some? then Err(refusal.value)
               else
                 var s := Line(w).value;
                 if s.head == [] then Ok(Decoded(body, s.rest))
                 else DecodeTrailers(s.rest, Charge(framing, s.head), body)
  {
    hide Line, OverBudget, Charge;
  }

  lemma ChargedText(framing: nat, line: Bytes)
    ensures Charge(framing, Lossy(line)) == Charged(framing, line) && (Lossy(line) == [] <==> line == [])
  {
    LossyIsEmptyOnlyOnEmpty(line);
  }

  lemma {:induction false} TrailersDefect(w: Bytes, framing: nat, body: Bytes, e: BodyError)
      returns (trailers: seq<Bytes>)
    requires DecodeTrailers(w, framing, body) == Err(e)
    ensures TrailersRefused(trailers, w, framing, |body|, e)
    decreases |w|
  {
    hide Line, LineRefusal, LineDefect, DecodeTrailers, Opens, Passes, Charge, Charged, Lossy;
    TrailersUnfold(w, framing, body);
    trailers := [];
    if LineRefusal(w, framing, |body|).Some? {
      LineRefusedExactly(w, framing, |body|, e);
    } else {
      var line, more := ReadLinePasses(w, framing, |body|);
      ChargedText(framing, line);
      var rest := TrailersDefect(more, Charged(framing, line), body, e);
      trailers := [line] + rest;
      assert trailers[1..] == rest;
    }
  }

  lemma {:induction false} DefectOfTrailers(trailers: seq<Bytes>, w: Bytes, framing: nat, body: Bytes, e: BodyError)
    requires TrailersRefused(trailers, w, framing, |body|, e)
    ensures DecodeTrailers(w, framing, body) == Err(e)
  {
    hide Line, LineRefusal, LineDefect, DecodeTrailers, Opens, Passes, Charge, Charged, Lossy;
    TrailersUnfold(w, framing, body);
    if trailers == [] {
      LineRefusedExactly(w, framing, |body|, e);
    } else {
      var t := trailers[0];
      var more :| Opens(w, t, more) && TrailersRefused(trailers[1..], more, Charged(framing, t), |body|, e);
      PassingLine(w, t, more, framing, |body|);
      ChargedText(framing, t);
      DefectOfTrailers(trailers[1..], more, Charged(framing, t), body, e);
    }
  }

  lemma TrailersFailExactly(w: Bytes, framing: nat, body: Bytes, e: BodyError)
    ensures DecodeTrailers(w, framing, body) == Err(e) <==> TrailersFail(w, framing, |body|, e)
  {
    hide DecodeTrailers, TrailersRefused;
    if DecodeTrailers(w, framing, body) == Err(e) {
      var trailers := TrailersDefect(w, framing, body, e);
    }
    if TrailersFail(w, framing, |body|, e) {
      var trailers :| TrailersRefused(trailers, w, framing, |body|, e);
      DefectOfTrailers(trailers, w, framing, body, e);
    }
  }

  // --- chunks ---

  /** What follows a size line. */
  function AfterLine(text: Bytes, more: Bytes, framing: nat, body: Bytes, max: nat): Result<Decoded, BodyError> {
    var size := SizeOfText(text);
    if size.None? then Err(Malformed(InvalidSize))
    else if size.value == 0 then DecodeTrailers(more, Charge(framing, text), body)
    else if SaturatingAdd(|body|, size.value) > max then Err(TooLarge)
    else
      var d := Data(more, size.value);
      if d.Err? then Err(d.error) else Decode(d.value.rest, body + d.value.head, Charge(framing, text), max)
  }

  lemma DecodeUnfolds(w: Bytes, body: Bytes, framing: nat, max: nat)
    ensures Decode(w, body, framing, max)
            == var refusal := LineRefusal(w, framing, |body|);
               if refusal.Some? then Err(refusal.value)
               else
                 var s := Line(w).value;
                 AfterLine(s.head, s.rest, framing, body, max)
  {
    hide Line, Data, SizeOfText, DecodeTrailers, OverBudget, Charge;
  }

  lemma SizesSaid(line: Bytes)
    ensures forall n: nat :: SizeOfText(Lossy(line)) == Some(n) <==> Says(line, n)
  {
    hide SizeOfText, AnnouncesLeniently, Lossy;
    forall n: nat ensures SizeOfText(Lossy(line)) == Some(n) <==> Says(line, n) {
      SizeIsAnnouncedLeniently(Lossy(line), n);
    }
  }

  /** The chunk is in order, and what comes after it decides. */
  predicate GoesOn(line: Bytes, more: Bytes, out: nat, max: nat) {
    var size := SizeOfText(Lossy(line));
    size.Some? && 0 < size.value && Capped(out + size.value) <= max && Data(more, size.value).Ok?
  }

  lemma ChunkRefusedExactly(line: Bytes, more: Bytes, framing: nat, body: Bytes, max: nat, e: BodyError)
    requires !GoesOn(line, more, |body|, max)
    ensures AfterLine(Lossy(line), more, framing, body, max) == Err(e)
            <==> ChunkDefect(line, more, framing, |body|, max, e)
  {
    hide SizeOfText, Says, DecodeTrailers, TrailersFail, Decode, Lossy, Charge, Charged;
    SizesSaid(line);
    ChargedText(framing, line);
    if SizeOfText(Lossy(line)) == Some(0) { TrailersFailExactly(more, Charged(framing, line), body, e); }
  }

  lemma GoingOnIsNoDefect(line: Bytes, more: Bytes, framing: nat, out: nat, max: nat, e: BodyError)
    requires GoesOn(line, more, out, max)
    ensures !ChunkDefect(line, more, framing, out, max, e)
  {
    hide SizeOfText, Says, TrailersFail, Lossy;
    SizesSaid(line);
  }

  lemma DefectEnds(line: Bytes, more: Bytes, framing: nat, out: nat, max: nat, e: BodyError)
    requires ChunkDefect(line, more, framing, out, max, e)
    ensures !GoesOn(line, more, out, max)
  {
    hide GoesOn, ChunkDefect;
    if GoesOn(line, more, out, max) { GoingOnIsNoDefect(line, more, framing, out, max, e); }
  }

  lemma DataIs(rest: Bytes, size: nat)
    requires Data(rest, size).Ok?
    ensures var d := Data(rest, size).value; rest == d.head + CRLF + d.rest && |d.head| == size
  {
  }

  lemma {:induction false} DecodeDefect(w: Bytes, body: Bytes, framing: nat, max: nat, e: BodyError)
      returns (chunks: seq<Chunk>)
    requires Decode(w, body, framing, max) == Err(e)
    ensures Refused(chunks, w, |body|, framing, max, e)
    decreases |w|
  {
    hide Line, Data, LineRefusal, LineDefect, ChunkDefect, Decode, Opens, Passes, SizeOfText, Says, DecodeTrailers;
    hide Lossy, Charge, Charged;
    DecodeUnfolds(w, body, framing, max);
    chunks := [];
    if LineRefusal(w, framing, |body|).Some? {
      LineRefusedExactly(w, framing, |body|, e);
    } else {
      var line, more := ReadLinePasses(w, framing, |body|);
      ChargedText(framing, line);
      if GoesOn(line, more, |body|, max) {
        SizesSaid(line);
        var size := SizeOfText(Lossy(line)).value;
        var d := Data(more, size).value;
        DataIs(more, size);
        var rest := DecodeDefect(d.rest, body + d.head, Charged(framing, line), max, e);
        chunks := [Chunk(line, d.head)] + rest;
        assert chunks[1..] == rest;
      } else {
        ChunkRefusedExactly(line, more, framing, body, max, e);
      }
    }
  }

  lemma {:induction false} DefectOfChunks(chunks: seq<Chunk>, w: Bytes, body: Bytes, framing: nat, max: nat,
      e: BodyError)
    requires Refused(chunks, w, |body|, framing, max, e)
    ensures Decode(w, body, framing, max) == Err(e)
    decreases |chunks|
  {
    hide Line, Data, LineRefusal, LineDefect, ChunkDefect, Decode, Opens, Passes, SizeOfText, Says, DecodeTrailers;
    hide Lossy, Charge, Charged;
    DecodeUnfolds(w, body, framing, max);
    LineRefusedExactly(w, framing, |body|, e);
    if chunks == [] {
      if !LineDefect(w, framing, |body|, e) {
        var line, more :| Opens(w, line, more) && Passes(line, framing, |body|)
                          && ChunkDefect(line, more, framing, |body|, max, e);
        PassingLine(w, line, more, framing, |body|);
        DefectEnds(line, more, framing, |body|, max, e);
        ChunkRefusedExactly(line, more, framing, body, max, e);
      }
    } else {
      var (line, data) := (chunks[0].line, chunks[0].data);
      var more :| Opens(w, line, data + CRLF + more)
                  && Refused(chunks[1..], more, |body| + |data|, Charged(framing, line), max, e);
      PassingLine(w, line, data + CRLF + more, framing, |body|);
      SizesSaid(line);
      ChargedText(framing, line);
      ChunkedCloudRunProofs.DataOfRendered(data, more);
      DefectOfChunks(chunks[1..], more, body + data, Charged(framing, line), max, e);
    }
  }

  /** A wire is refused with an error exactly when that is its first defect after some chunks in order. */
  lemma RefusesExactly(wire: Bytes, max: nat, e: BodyError)
    ensures Decode(wire, [], 0, max) == Err(e) <==> exists chunks :: Refused(chunks, wire, 0, 0, max, e)
  {
    hide Decode, Refused;
    if Decode(wire, [], 0, max) == Err(e) {
      var chunks := DecodeDefect(wire, [], 0, max, e);
    }
    forall chunks | Refused(chunks, wire, 0, 0, max, e)
      ensures Decode(wire, [], 0, max) == Err(e)
    {
      DefectOfChunks(chunks, wire, [], 0, max, e);
    }
  }
}
