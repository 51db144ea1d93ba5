/** The Cloud Run service's body reader: `Input` and its `fill`, `exact`, `line`, `framing_line`
    and `chunked`. */
module ChunkedCloudRun {
  import opened Common
  import opened ChunkGrammar
  import opened NetStream
  import opened Utf8

  datatype BodyError = TooLarge | Malformed(what: Malformation) | Truncated

  datatype Malformation = LineTooLong | FramingTooLarge | InvalidSize | NotTerminated

  datatype Split = Split(head: Bytes, rest: Bytes)

  datatype Decoded = Decoded(body: Bytes, rest: Bytes)

  const MAX_LINE: nat := 8192
  const FRAMING_ALLOWANCE: nat := 65536
  const USIZE_MAX: nat := 0xFFFF_FFFF_FFFF_FFFF

  function SaturatingAdd(a: nat, b: nat): nat {
    if a + b > USIZE_MAX then USIZE_MAX else a + b
  }

  // --- the size field: trimmed, then `from_str_radix(_, 16)` ---

  /** The length of the white-space character at the head of UTF-8 text, 0 if there is none. */
  function SpaceAtHead(s: Bytes): (n: nat)
    ensures n <= |s|
  {
    if s == [] then 0
    else if 9 <= s[0] <= 13 || s[0] == 32 then 1
    else if |s| >= 2 && IsSpace2(s[0], s[1]) then 2
    else if |s| >= 3 && IsSpace3(s[0], s[1], s[2]) then 3
    else 0
  }

  function SpaceAtEnd(s: Bytes): (n: nat)
    ensures n <= |s|
  {
    var k := |s|;
    if k == 0 then 0
    else if 9 <= s[k - 1] <= 13 || s[k - 1] == 32 then 1
    else if k >= 2 && IsSpace2(s[k - 2], s[k - 1]) then 2
    else if k >= 3 && IsSpace3(s[k - 3], s[k - 2], s[k - 1]) then 3
    else 0
  }

  /** U+0085 and U+00A0. */
  predicate IsSpace2(a: Byte, b: Byte) {
    a == 0xC2 && (b == 0x85 || b == 0xA0)
  }

  /** U+1680, U+2000 to U+200A, U+2028, U+2029, U+202F, U+205F and U+3000. */
  predicate IsSpace3(a: Byte, b: Byte, c: Byte) {
    || (a == 0xE1 && b == 0x9A && c == 0x80)
    || (a == 0xE2 && b == 0x80 && (0x80 <= c <= 0x8A || c == 0xA8 || c == 0xA9 || c == 0xAF))
    || (a == 0xE2 && b == 0x81 && c == 0x9F)
    || (a == 0xE3 && b == 0x80 && c == 0x80)
  }

  function TrimStart(s: Bytes): Bytes {
    if SpaceAtHead(s) == 0 then s else TrimStart(s[SpaceAtHead(s)..])
  }

  function TrimEnd(s: Bytes): Bytes {
    if SpaceAtEnd(s) == 0 then s else TrimEnd(s[..|s| - SpaceAtEnd(s)])
  }

  /** `usize::from_str_radix(_, 16)`: a plus sign is allowed before the digits. */
  function FromStrRadix16(s: Bytes): Option<nat> {
    var digits := if |s| > 1 && s[0] == 43 then s[1..] else s;
    if digits == [] || !AllHex(digits) || HexValue(digits) >= USIZE_LIMIT then None else Some(HexValue(digits))
  }

  function SizeOfText(text: Bytes): Option<nat> {
    var sizeHex := TrimEnd(TrimStart(SizeField(text)));
    var size := FromStrRadix16(sizeHex);
    if size.None? || sizeHex == [] || sizeHex[0] == 43 then None else size
  }

  // --- the decoder as a function of the whole wire ---

  /** The first line of the wire as text, if it is at most 8192 bytes. */
  function Line(wire: Bytes): (r: Result<Split, BodyError>)
    ensures r.Ok? ==> |r.value.rest| < |wire|
  {
    match Find(wire, CRLF)
    case Some(i) =>
      if i > MAX_LINE then Err(Malformed(LineTooLong)) else Ok(Split(Lossy(wire[..i]), wire[i + 2..]))
    case None =>
      Err(if |wire| > MAX_LINE + 1 then Malformed(LineTooLong) else Truncated)
  }

  function Exact(wire: Bytes, n: nat): (r: Result<Split, BodyError>)
    ensures r.Ok? ==> |r.value.rest| <= |wire|
  {
    if n > |wire| then Err(Truncated) else Ok(Split(wire[..n], wire[n..]))
  }

  predicate OverBudget(framing: nat, bodyLen: nat) {
    framing > SaturatingAdd(bodyLen, FRAMING_ALLOWANCE)
  }

  function Charge(framing: nat, text: Bytes): nat {
    SaturatingAdd(framing, |text| + 2)
  }

  function DecodeTrailers(wire: Bytes, framing: nat, body: Bytes): Result<Decoded, BodyError>
    decreases |wire|
  {
    var l := Line(wire);
    if l.Err? then Err(l.error)
    else if OverBudget(Charge(framing, l.value.head), |body|) then Err(Malformed(FramingTooLarge))
    else if l.value.head == [] then Ok(Decoded(body, l.value.rest))
    else DecodeTrailers(l.value.rest, Charge(framing, l.value.head), body)
  }

  /** The data of a chunk and its CRLF. */
  function Data(wire: Bytes, size: nat): (r: Result<Split, BodyError>)
    ensures r.Ok? ==> |r.value.rest| <= |wire|
  {
    var data := Exact(wire, size);
    if data.Err? then data
    else
      var crlf := Exact(data.value.rest, 2);
      if crlf.Err? then crlf
      else if crlf.value.head != CRLF then Err(Malformed(NotTerminated))
      else Ok(Split(data.value.head, crlf.value.rest))
  }

  function Decode(wire: Bytes, body: Bytes, framing: nat, max: nat): Result<Decoded, BodyError>
    decreases |wire|
  {
    var l := Line(wire);
    if l.Err? then Err(l.error)
    else if OverBudget(Charge(framing, l.value.head), |body|) then Err(Malformed(FramingTooLarge))
    else if SizeOfText(l.value.head).None? then Err(Malformed(InvalidSize))
    else if SizeOfText(l.value.head).value == 0 then
      DecodeTrailers(l.value.rest, Charge(framing, l.value.head), body)
    else if SaturatingAdd(|body|, SizeOfText(l.value.head).value) > max then Err(TooLarge)
    else
      var d := Data(l.value.rest, SizeOfText(l.value.head).value);
      if d.Err? then Err(d.error)
      else Decode(d.value.rest, body + d.value.head, Charge(framing, l.value.head), max)
  }

  // --- the reader ---

  ghost predicate SplitAgrees(spec: Result<Split, BodyError>, r: Result<Bytes, BodyError>, rest: Bytes) {
    if spec.Ok? then r == Ok(spec.value.head) && rest == spec.value.rest else r == Err(spec.error)
  }

  ghost predicate Agrees(spec: Result<Decoded, BodyError>, r: Result<Bytes, BodyError>, rest: Bytes) {
    if spec.Ok? then r == Ok(spec.value.body) && rest == spec.value.rest else r == Err(spec.error)
  }

  class Input {
    const stream: Stream
    var buf: Bytes
    var pos: nat

    ghost predicate Valid()
      reads this
    {
      pos <= |buf|
    }

    /** Everything not yet consumed, buffered or still to come. */
    ghost function Unread(): Bytes
      reads this, stream
      requires Valid()
    {
      buf[pos..] + stream.rest
    }

    constructor (stream: Stream, leftover: Bytes)
      ensures Valid() && this.stream == stream && Unread() == leftover + stream.rest
    {
      this.stream := stream;
      buf := leftover;
      pos := 0;
    }

    /** `fill`: buffers until `n` unread bytes are there or the stream ends; consumes nothing. */
    method Fill(n: nat) returns (ok: bool)
      requires Valid()
      modifies this, stream
      ensures Valid() && Unread() == old(Unread())
      ensures ok <==> n <= |Unread()|
      ensures ok ==> n <= |buf| - pos
    {
      if |buf| - pos < n && pos > 0 {
        buf := buf[pos..];
        pos := 0;
      }
      while |buf| - pos < n
        invariant Valid() && Unread() == old(Unread())
        decreases |stream.rest|
      {
        ghost var before := buf[pos..];
        var data := stream.Read(8192);
        if data == [] {
          assert before + [] == before;
          return false;
        }
        buf := buf + data;
        assert buf[pos..] == before + data;
      }
      return true;
    }

    /** `exact`. */
    method ReadExact(n: nat) returns (r: Result<Bytes, BodyError>)
      requires Valid()
      modifies this, stream
      ensures Valid() && SplitAgrees(Exact(old(Unread()), n), r, Unread())
    {
      ghost var wire := Unread();
      var ok := Fill(n);
      if !ok { return Err(Truncated); }
      var out := buf[pos..pos + n];
      assert wire == out + (buf[pos + n..] + stream.rest);
      pos := pos + n;
      return Ok(out);
    }

    /** `line`. */
    method ReadLine() returns (r: Result<Bytes, BodyError>)
      requires Valid()
      modifies this, stream
      ensures Valid() && SplitAgrees(Line(old(Unread())), r, Unread())
    {
      hide Lossy;
      ghost var wire := Unread();
      while true
        invariant Valid() && Unread() == wire
        decreases |wire| - (|buf| - pos)
      {
        FindInPrefix(buf[pos..], stream.rest, CRLF);
        match Find(buf[pos..], CRLF)
        case Some(i) =>
          if i > MAX_LINE { return Err(Malformed(LineTooLong)); }
          assert wire[..i] == buf[pos..pos + i] && wire[i + 2..] == buf[pos + i + 2..] + stream.rest;
          var line := Lossy(buf[pos..pos + i]);
          pos := pos + i + 2;
          return Ok(line);
        case None =>
          if |buf| - pos > MAX_LINE + 1 { return Err(Malformed(LineTooLong)); }
          var ok := Fill(|buf| - pos + 1);
          if !ok { return Err(Truncated); }
      }
    }

    /** `framing_line`: the line, and the framing after charging it. */
    method FramingLine(framing0: nat, bodyLen: nat) returns (r: Result<Bytes, BodyError>, framing: nat)
      requires Valid()
      modifies this, stream
      ensures Valid()
      ensures var spec := Line(old(Unread()));
              if spec.Err? then (r == Err(spec.error))
              else (framing == Charge(framing0, spec.value.head)
                && Unread() == spec.value.rest
                && r == if OverBudget(framing, bodyLen) then Err(Malformed(FramingTooLarge)) else Ok(spec.value.head))
    {
      framing := framing0;
      r := ReadLine();
      if r.Ok? {
        framing := SaturatingAdd(framing, |r.value| + 2);
        if framing > SaturatingAdd(bodyLen, FRAMING_ALLOWANCE) {
          r := Err(Malformed(FramingTooLarge));
        }
      }
    }

    /** The trailer loop of `chunked`. */
    method ReadTrailers(framing0: nat, body: Bytes) returns (r: Result<Bytes, BodyError>)
      requires Valid()
      modifies this, stream
      ensures Valid() && Agrees(DecodeTrailers(old(Unread()), framing0, body), r, Unread())
    {
      hide Line;
      var framing: nat := framing0;
      ghost var wire := Unread();
      while true
        invariant Valid() && Unread() == wire
        invariant DecodeTrailers(wire, framing, body) == DecodeTrailers(old(Unread()), framing0, body)
        decreases |wire|
      {
        ghost var spec := Line(wire);
        var line;
        line, framing := FramingLine(framing, |body|);
        if line.Err? { return line; }
        if line.value == [] { return Ok(body); }
        wire := spec.value.rest;
      }
    }

    /** The data of one chunk and its CRLF, by two calls of `exact`. */
    method ReadData(size: nat) returns (r: Result<Bytes, BodyError>)
      requires Valid()
      modifies this, stream
      ensures Valid() && SplitAgrees(Data(old(Unread()), size), r, Unread())
    {
      var chunk := ReadExact(size);
      if chunk.Err? { return chunk; }
      var crlf := ReadExact(2);
      if crlf.Err? { return crlf; }
      if crlf.value != CRLF { return Err(Malformed(NotTerminated)); }
      return chunk;
    }

    /** `chunked`: for every wire and every way it is cut into the leftover of the head and later
        reads, the result is the decoder's on the whole wire. */
    method Chunked(max: nat) returns (r: Result<Bytes, BodyError>)
      requires Valid()
      modifies this, stream
      ensures Valid() && Agrees(Decode(old(Unread()), [], 0, max), r, Unread())
    {
      hide Line, Data, SizeOfText, DecodeTrailers;
      var body: Bytes := [];
      var framing: nat := 0;
      ghost var wire := Unread();
      while true
        invariant Valid() && Unread() == wire
        invariant Decode(wire, body, framing, max) == Decode(old(Unread()), [], 0, max)
        decreases |wire|
      {
        ghost var spec := Line(wire);
        var line;
        line, framing := FramingLine(framing, |body|);
        if line.Err? { return line; }
        var size := SizeOfText(line.value);
        if size.None? { return Err(Malformed(InvalidSize)); }
        if size.value == 0 {
          r := ReadTrailers(framing, body);
          return;
        }
        if SaturatingAdd(|body|, size.value) > max { return Err(TooLarge); }
        ghost var data := Data(spec.value.rest, size.value);
        var chunk := ReadData(size.value);
        if chunk.Err? { return chunk; }
        body := body + chunk.value;
        wire := data.value.rest;
      }
    }
  }
}
