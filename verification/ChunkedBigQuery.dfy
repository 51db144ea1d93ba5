/** The BigQuery service's body readers: `read_chunk_line`, `read_chunked_body`, and the
    fixed-length loop of `read_request`. */
module ChunkedBigQuery {
  import opened Common
  import opened ChunkGrammar
  import opened NetStream

  datatype ReadError =
    | HeadersTooLarge | HeadersIncomplete | FramingTooLarge | InvalidSize
    | BodyTooLarge | BodyIncomplete | InvalidTerminator

  datatype Split = Split(line: Bytes, rest: Bytes)

  datatype Decoded = Decoded(body: Bytes, rest: Bytes)

  // --- the decoder as a function of the whole wire ---

  /** The first line of the wire, if with its CRLF it is at most `limit` bytes. */
  function Line(wire: Bytes, limit: nat): (r: Result<Split, ReadError>)
    ensures r.Ok? ==> |r.value.line| + 2 <= limit && |wire| == |r.value.line| + 2 + |r.value.rest|
  {
    match Find(wire, CRLF)
    case Some(end) =>
      if end + 2 > limit then Err(HeadersTooLarge)
      else Ok(Split(wire[..end], wire[end + 2..]))
    case None =>
      Err(if |wire| >= limit then HeadersTooLarge else HeadersIncomplete)
  }

  function Budget(out: nat): nat {
    5 * out + MAX_HEADER_BYTES
  }

  function DecodeTrailers(wire: Bytes, remaining: nat, framing: nat, out: Bytes): Result<Decoded, ReadError>
    decreases |wire|
  {
    var l := Line(wire, remaining);
    if l.Err? then Err(l.error)
    else if framing + |l.value.line| + 2 > Budget(|out|) then Err(FramingTooLarge)
    else if l.value.line == [] then Ok(Decoded(out, l.value.rest))
    else DecodeTrailers(l.value.rest, remaining - (|l.value.line| + 2), framing + |l.value.line| + 2, out)
  }

  /** The data of a chunk of `size` bytes and its CRLF, at the head of `rest`. */
  function Data(rest: Bytes, size: nat): (r: Result<Split, ReadError>)
    ensures r.Ok? ==> |r.value.line| == size && |rest| == size + 2 + |r.value.rest|
  {
    if |rest| < size + 2 then Err(BodyIncomplete)
    else if rest[size..size + 2] != CRLF then Err(InvalidTerminator)
    else Ok(Split(rest[..size], rest[size + 2..]))
  }

  function Decode(wire: Bytes, out: Bytes, framing: nat): Result<Decoded, ReadError>
    requires |out| <= MAX_BODY_BYTES
    decreases |wire|
  {
    var l := Line(wire, MAX_HEADER_BYTES);
    if l.Err? then Err(l.error)
    else if framing + |l.value.line| + 2 > Budget(|out|) then Err(FramingTooLarge)
    else if SizeOf(l.value.line).None? then Err(InvalidSize)
    else if SizeOf(l.value.line).value > MAX_BODY_BYTES - |out| then Err(BodyTooLarge)
    else if SizeOf(l.value.line).value == 0 then
      DecodeTrailers(l.value.rest, MAX_HEADER_BYTES, framing + |l.value.line| + 2, out)
    else
      var d := Data(l.value.rest, SizeOf(l.value.line).value);
      if d.Err? then Err(d.error)
      else Decode(d.value.rest, out + d.value.line, framing + |l.value.line| + 4)
  }

  // --- the readers ---

  ghost predicate LineAgrees(spec: Result<Split, ReadError>, r: Result<Bytes, ReadError>, rest: Bytes) {
    if spec.Ok? then r == Ok(spec.value.line) && rest == spec.value.rest else r == Err(spec.error)
  }

  /** `read_chunk_line`: whatever the cuts, the line is a function of the buffered and the coming
      bytes together, and what it leaves is the remainder. */
  method ReadChunkLine(stream: Stream, buf0: Bytes, limit: nat) returns (r: Result<Bytes, ReadError>, buf: Bytes)
    modifies stream
    ensures LineAgrees(Line(buf0 + old(stream.rest), limit), r, buf + stream.rest)
  {
    buf := buf0;
    ghost var wire := buf0 + stream.rest;
    while true
      invariant buf + stream.rest == wire
      decreases |stream.rest|
    {
      FindInPrefix(buf, stream.rest, CRLF);
      match Find(buf, CRLF)
      case Some(end) =>
        if end + 2 > limit { return Err(HeadersTooLarge), buf; }
        assert wire[..end] == buf[..end] && wire[end + 2..] == buf[end + 2..] + stream.rest;
        return Ok(buf[..end]), buf[end + 2..];
      case None =>
        if |buf| >= limit { return Err(HeadersTooLarge), buf; }
        var data := stream.Read(4096);
        if data == [] {
          assert buf + [] == buf;
          return Err(HeadersIncomplete), buf;
        }
        buf := buf + data;
    }
  }

  /** Reads on until `n` bytes are buffered or the stream ends. */
  method FillTo(stream: Stream, buf0: Bytes, n: nat) returns (ok: bool, buf: Bytes)
    modifies stream
    ensures buf + stream.rest == buf0 + old(stream.rest)
    ensures ok <==> n <= |buf0 + old(stream.rest)|
    ensures ok ==> n <= |buf|
  {
    buf := buf0;
    ghost var wire := buf0 + stream.rest;
    while |buf| < n
      invariant buf + stream.rest == wire
      decreases |stream.rest|
    {
      var data := stream.Read(4096);
      if data == [] {
        assert buf + [] == buf;
        return false, buf;
      }
      buf := buf + data;
    }
    ok := true;
  }

  /** The trailer loop of `read_chunked_body`. */
  method ReadTrailers(stream: Stream, buf0: Bytes, framing0: nat, out: Bytes)
      returns (r: Result<Bytes, ReadError>, buf: Bytes)
    modifies stream
    ensures Agrees(DecodeTrailers(buf0 + old(stream.rest), MAX_HEADER_BYTES, framing0, out), r, buf + stream.rest)
  {
    hide Line;
    buf := buf0;
    ghost var spec := DecodeTrailers(buf0 + stream.rest, MAX_HEADER_BYTES, framing0, out);
    var framingBytes: nat := framing0;
    var remaining: nat := MAX_HEADER_BYTES;
    ghost var wire := buf0 + stream.rest;
    while true
      invariant wire == buf + stream.rest
      invariant DecodeTrailers(wire, remaining, framingBytes, out) == spec
      decreases |wire|
    {
      ghost var line := Line(wire, remaining);
      var trailer;
      trailer, buf := ReadChunkLine(stream, buf, remaining);
      if trailer.Err? { return trailer, buf; }
      wire := line.value.rest;
      remaining := remaining - (|trailer.value| + 2);
      framingBytes := framingBytes + |trailer.value| + 2;
      if framingBytes > Budget(|out|) { return Err(FramingTooLarge), buf; }
      if trailer.value == [] { return Ok(out), buf; }
    }
  }

  /** The data of one chunk and its CRLF. */
  method ReadChunkData(stream: Stream, buf0: Bytes, size: nat) returns (r: Result<Bytes, ReadError>, buf: Bytes)
    modifies stream
    ensures LineAgrees(Data(buf0 + old(stream.rest), size), r, buf + stream.rest)
  {
    ghost var rest := buf0 + stream.rest;
    var filled;
    filled, buf := FillTo(stream, buf0, size + 2);
    if !filled { return Err(BodyIncomplete), buf; }
    assert rest[size..size + 2] == buf[size..size + 2] && rest[..size] == buf[..size];
    assert rest[size + 2..] == buf[size + 2..] + stream.rest;
    if buf[size..size + 2] != CRLF { return Err(InvalidTerminator), buf; }
    return Ok(buf[..size]), buf[size + 2..];
  }

  /** A reader's result and what it leaves unread are the decoder's. */
  ghost predicate Agrees(spec: Result<Decoded, ReadError>, r: Result<Bytes, ReadError>, rest: Bytes) {
    if spec.Ok? then r == Ok(spec.value.body) && rest == spec.value.rest else r == Err(spec.error)
  }

  /** `read_chunked_body`: for every wire and every way it is cut into the leftover of the head and
      later reads, the result is the decoder's on the whole wire. */
  method ReadChunkedBody(stream: Stream, leftover: Bytes) returns (r: Result<Bytes, ReadError>, buf: Bytes)
    modifies stream
    ensures Agrees(Decode(leftover + old(stream.rest), [], 0), r, buf + stream.rest)
  {
    hide Line, Data, SizeOf, DecodeTrailers;
    buf := leftover;
    var out: Bytes := [];
    var framingBytes: nat := 0;
    ghost var spec := Decode(leftover + stream.rest, [], 0);
    ghost var wire := leftover + stream.rest;
    while true
      invariant wire == buf + stream.rest
      invariant |out| <= MAX_BODY_BYTES
      invariant Decode(wire, out, framingBytes) == spec
      decreases |wire|
    {
      var line, chunk;
      line, buf := ReadChunkLine(stream, buf, MAX_HEADER_BYTES);
      if line.Err? { return line, buf; }
      framingBytes := framingBytes + |line.value| + 2;
      if framingBytes > Budget(|out|) { return Err(FramingTooLarge), buf; }
      var size := SizeOf(line.value);
      if size.None? { return Err(InvalidSize), buf; }
      if size.value > MAX_BODY_BYTES - |out| { return Err(BodyTooLarge), buf; }
      if size.value == 0 {
        r, buf := ReadTrailers(stream, buf, framingBytes, out);
        return;
      }
      ghost var data := Data(Line(wire, MAX_HEADER_BYTES).value.rest, size.value);
      chunk, buf := ReadChunkData(stream, buf, size.value);
      if chunk.Err? { return chunk, buf; }
      wire := data.value.rest;
      out := out + chunk.value;
      framingBytes := framingBytes + 2;
    }
  }

  /** The `Content-Length` branch of `read_request`; `None` where the request is dropped. */
  method ReadFixedBody(stream: Stream, leftover: Bytes, contentLength: nat) returns (r: Option<Bytes>)
    modifies stream
    ensures var wire := leftover + old(stream.rest);
            r == if contentLength <= MAX_BODY_BYTES && contentLength <= |wire| then Some(wire[..contentLength])
                 else None
  {
    if contentLength > MAX_BODY_BYTES { return None; }
    var filled, body := FillTo(stream, leftover, contentLength);
    if !filled { return None; }
    assert (body + stream.rest)[..contentLength] == body[..contentLength];
    return Some(body[..contentLength]);
  }
}
