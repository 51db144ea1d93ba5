/** `multipart_parts`: the part bodies of a multipart upload, against the format of section 5.1.1 of
    RFC 2046. */
module Multipart {
  import opened Common

  const LF: Bytes := [10]
  const DASHES: Bytes := [45, 45]
  const BLANK_LINE: Bytes := [13, 10, 13, 10]
  const BARE_BLANK_LINE: Bytes := [10, 10]

  /** `Panicked`: the source slices from an index to a smaller one. */
  datatype Outcome = Parts(bodies: seq<Bytes>) | Malformed | Panicked

  predicate StartsWith(s: Bytes, prefix: Bytes) {
    prefix <= s
  }

  // --- the reader as a function ---

  /** Where the content of a part begins: after the boundary line and the header lines. */
  function ContentStart(body: Bytes, cursor: nat): (r: Option<nat>)
    requires cursor <= |body|
    ensures r.Some? ==> cursor + 2 < r.value <= |body|
  {
    match Find(body[cursor..], LF)
    case None => None
    case Some(lineEnd) =>
      var c := cursor + lineEnd + 1;
      match Find(body[c..], BLANK_LINE)
      case Some(i) => Some(c + i + 4)
      case None =>
        match Find(body[c..], BARE_BLANK_LINE)
        case Some(i) => Some(c + i + 2)
        case None => None
  }

  /** Where the content that runs up to position `end` really ends: without a line break there. */
  function ContentEnd(body: Bytes, end: nat): (r: nat)
    requires end <= |body|
    ensures r <= end
  {
    if end >= 2 && body[end - 2..end] == CRLF then end - 2
    else if end >= 1 && body[end - 1] == 10 then end - 1
    else end
  }

  /** What stands at the cursor, just after a delimiter: the end, something unreadable, or a part and
      the place after the delimiter that ends it. */
  datatype Next = Closing | Unreadable | Inverted | Found(content: Bytes, cursor: nat)

  function NextPart(body: Bytes, delimiter: Bytes, cursor: nat): (r: Next)
    requires cursor <= |body|
    ensures r.Found? ==> cursor < r.cursor <= |body|
  {
    if StartsWith(body[cursor..], DASHES) then Closing
    else
      var start := ContentStart(body, cursor);
      if start.None? then Unreadable
      else
        var next := Find(body[start.value..], delimiter);
        if next.None? then Unreadable
        else
          var end := ContentEnd(body, start.value + next.value);
          if end < start.value then Inverted
          else Found(body[start.value..end], start.value + next.value + |delimiter|)
  }

  function PartsFrom(body: Bytes, delimiter: Bytes, cursor: nat): Outcome
    requires cursor <= |body|
    decreases |body| - cursor
  {
    match NextPart(body, delimiter, cursor)
    case Closing => Parts([])
    case Unreadable => Malformed
    case Inverted => Panicked
    case Found(content, next) => Prepend([content], PartsFrom(body, delimiter, next))
  }

  function MultipartParts(body: Bytes, boundary: Bytes): Outcome {
    var delimiter := DASHES + boundary;
    match Find(body, delimiter)
    case None => Malformed
    case Some(start) => PartsFrom(body, delimiter, start + |delimiter|)
  }

  function Prepend(parts: seq<Bytes>, more: Outcome): Outcome {
    if more.Parts? then Parts(parts + more.bodies) else more
  }

  // --- the reader as the source writes it: a cursor and a growing list ---

  /** `multipart_parts`, with its cursor. */
  method ReadParts(body: Bytes, boundary: Bytes) returns (r: Outcome)
    ensures r == MultipartParts(body, boundary)
  {
    hide NextPart;
    var delimiter := DASHES + boundary;
    var first := Find(body, delimiter);
    if first.None? { return Malformed; }
    var cursor := first.value + |delimiter|;
    ghost var spec := PartsFrom(body, delimiter, cursor);
    var parts: seq<Bytes> := [];
    assert spec.Parts? ==> [] + spec.bodies == spec.bodies;
    while true
      invariant cursor <= |body|
      invariant Prepend(parts, PartsFrom(body, delimiter, cursor)) == spec
      decreases |body| - cursor
    {
      var next := NextPart(body, delimiter, cursor);
      match next
      case Closing =>
        assert parts + [] == parts;
        return Parts(parts);
      case Unreadable => return Malformed;
      case Inverted => return Panicked;
      case Found(content, after) =>
        PrependOne(parts, content, PartsFrom(body, delimiter, after));
        parts := parts + [content];
        cursor := after;
    }
  }

  lemma PrependOne(parts: seq<Bytes>, part: Bytes, more: Outcome)
    ensures Prepend(parts, Prepend([part], more)) == Prepend(parts + [part], more)
  {
    if more.Parts? { assert parts + ([part] + more.bodies) == (parts + [part]) + more.bodies; }
  }

  // --- the format ---

  /** A part: padding after the boundary, header lines, of which there may be none, and a body, which may
      be missing together with the empty line that would introduce it. */
  datatype Part = Part(padding: Bytes, headers: seq<Bytes>, content: Option<Bytes>)

  datatype Message = Message(preamble: Bytes, parts: seq<Part>, epilogue: Bytes)

  function RenderHeaders(headers: seq<Bytes>): Bytes {
    if headers == [] then [] else headers[0] + CRLF + RenderHeaders(headers[1..])
  }

  /** From after one delimiter to before the next. */
  function RenderPart(p: Part): Bytes {
    p.padding + CRLF + RenderHeaders(p.headers)
    + (if p.content.Some? then CRLF + p.content.value + CRLF else CRLF)
  }

  function RenderParts(parts: seq<Part>, delimiter: Bytes): Bytes {
    if parts == [] then [] else RenderPart(parts[0]) + delimiter + RenderParts(parts[1..], delimiter)
  }

  function Render(m: Message, boundary: Bytes): Bytes {
    var delimiter := DASHES + boundary;
    m.preamble + delimiter + RenderParts(m.parts, delimiter) + DASHES + m.epilogue
  }

  predicate NoLineBreak(s: Bytes) {
    forall i :: 0 <= i < |s| ==> s[i] != 13 && s[i] != 10
  }

  predicate IsPadding(s: Bytes) {
    forall i :: 0 <= i < |s| ==> s[i] == 32 || s[i] == 9
  }

  predicate WellFormedPart(p: Part, delimiter: Bytes) {
    && IsPadding(p.padding)
    && (forall i :: 0 <= i < |p.headers| ==> p.headers[i] != [] && NoLineBreak(p.headers[i]))
    && (p.content.Some? ==> !Contains(p.content.value, delimiter))
  }

  /** A message of the format whose preamble and bodies do not contain the delimiter. */
  predicate WellFormed(m: Message, boundary: Bytes) {
    var delimiter := DASHES + boundary;
    && NoLineBreak(boundary)
    && (m.preamble == [] || (|m.preamble| >= 2 && m.preamble[|m.preamble| - 2..] == CRLF
                             && !Contains(m.preamble[..|m.preamble| - 2], delimiter)))
    && (forall i :: 0 <= i < |m.parts| ==> WellFormedPart(m.parts[i], delimiter))
  }

  // --- finding the pieces ---

  /** After text that does not contain the delimiter and a line break, the delimiter is first found
      right there. */
  lemma FirstDelimiter(a: Bytes, sep: Bytes, delimiter: Bytes, rest: Bytes)
    requires !Contains(a, delimiter) && NoLineBreak(delimiter) && delimiter != []
    requires sep != [] && forall i :: 0 <= i < |sep| ==> sep[i] == 13 || sep[i] == 10
    ensures Find(a + sep + delimiter + rest, delimiter) == Some(|a| + |sep|)
  {
    var s := a + sep + delimiter + rest;
    assert OccursAt(s, delimiter, |a| + |sep|);
    forall j: nat | j < |a| + |sep|
      ensures !OccursAt(s, delimiter, j)
    {
      if j + |delimiter| <= |a| {
        assert s == a + (sep + delimiter + rest);
        OccursInPrefix(a, sep + delimiter + rest, delimiter, j);
      } else {
        var k := if j < |a| then |a| else j;
        assert s[k] == sep[k - |a|];
        assert j + |delimiter| <= |s| ==> s[j..j + |delimiter|][k - j] == s[k];
      }
    }
  }

  lemma BlankLineAfterOne(h: Bytes, rest: Bytes)
    requires NoLineBreak(h)
    ensures Find(h + CRLF + (CRLF + rest), BLANK_LINE) == Some(|h|)
  {
    var s := h + CRLF + (CRLF + rest);
    assert s[|h|..|h| + 4] == BLANK_LINE;
    forall j: nat | j < |h|
      ensures !OccursAt(s, BLANK_LINE, j)
    {
      BlankLineStartsWithCr(s, j);
    }
    FindIs(s, BLANK_LINE, |h|);
  }

  lemma NoBlankLineInHeader(h: Bytes, more: Bytes, j: nat)
    requires NoLineBreak(h) && more != [] && more[0] != 13 && j < |h + CRLF|
    ensures !OccursAt(h + CRLF + more, BLANK_LINE, j)
  {
    BlankLineStartsWithCr(h + CRLF + more, j);
  }

  /** The first empty line after well-formed header lines is the one that ends them. */
  lemma {:induction false} FirstBlankLine(headers: seq<Bytes>, rest: Bytes)
    requires headers != [] && forall i :: 0 <= i < |headers| ==> headers[i] != [] && NoLineBreak(headers[i])
    ensures |RenderHeaders(headers)| >= 2
    ensures Find(RenderHeaders(headers) + (CRLF + rest), BLANK_LINE) == Some(|RenderHeaders(headers)| - 2)
  {
    hide NoLineBreak, Find;
    var h := headers[0];
    if |headers| == 1 {
      BlankLineAfterOne(h, rest);
      assert RenderHeaders(headers) == h + CRLF + [] && h + CRLF + [] == h + CRLF;
    } else {
      FirstBlankLine(headers[1..], rest);
      var more := RenderHeaders(headers[1..]) + (CRLF + rest);
      assert RenderHeaders(headers) + (CRLF + rest) == (h + CRLF) + more;
      FirstOfHeaders(headers[1..], CRLF + rest);
      forall j: nat | j < |h + CRLF|
        ensures !OccursAt(h + CRLF + more, BLANK_LINE, j)
      {
        NoBlankLineInHeader(h, more, j);
      }
      FindAfter(h + CRLF, more, BLANK_LINE);
    }
  }

  lemma FirstOfHeaders(headers: seq<Bytes>, rest: Bytes)
    requires headers != [] && headers[0] != [] && NoLineBreak(headers[0])
    ensures RenderHeaders(headers) + rest != [] && (RenderHeaders(headers) + rest)[0] != 13
  {
    assert (RenderHeaders(headers) + rest)[0] == headers[0][0];
  }

  lemma BlankLineStartsWithCr(s: Bytes, j: nat)
    ensures OccursAt(s, BLANK_LINE, j) ==> j + 4 <= |s| && s[j] == 13 && s[j + 1] == 10 && s[j + 2] == 13
  {
    if j + 4 <= |s| {
      var w := s[j..j + 4];
      assert w[0] == s[j] && w[1] == s[j + 1] && w[2] == s[j + 2];
    }
  }

  lemma FirstLineFeed(padding: Bytes, rest: Bytes)
    requires IsPadding(padding)
    ensures Find(padding + CRLF + rest, LF) == Some(|padding| + 1)
  {
    var s := padding + CRLF + rest;
    assert s[|padding| + 1..|padding| + 2] == LF;
    forall j: nat | j < |padding| + 1
      ensures !OccursAt(s, LF, j)
    {
      assert s[j..j + 1] == [s[j]];
    }
    FindIs(s, LF, |padding| + 1);
  }

  // --- reading one part ---

  lemma SuffixOf(body: Bytes, cursor: nat, head: Bytes, tail: Bytes)
    requires cursor <= |body| && body[cursor..] == head + tail
    ensures cursor + |head| == |body| - |tail| && body[cursor + |head|..] == tail
  {
    assert body[cursor + |head|..] == body[cursor..][|head|..];
  }

  /** The boundary line and header lines of a part, up to and with the empty line. */
  function Intro(p: Part): Bytes {
    p.padding + CRLF + (RenderHeaders(p.headers) + CRLF)
  }

  predicate WellFormedIntro(p: Part) {
    && IsPadding(p.padding)
    && p.headers != [] && forall i :: 0 <= i < |p.headers| ==> p.headers[i] != [] && NoLineBreak(p.headers[i])
  }

  lemma IntroThen(p: Part, tail: Bytes)
    ensures Intro(p) + tail == p.padding + CRLF + (RenderHeaders(p.headers) + (CRLF + tail))
    ensures |Intro(p)| == |p.padding| + 4 + |RenderHeaders(p.headers)|
  {
    hide RenderHeaders;
  }

  lemma ContentStartOfPart(body: Bytes, cursor: nat, p: Part, tail: Bytes)
    requires cursor <= |body| && WellFormedIntro(p) && body[cursor..] == Intro(p) + tail
    ensures ContentStart(body, cursor) == Some(|body| - |tail|)
    ensures body[|body| - |tail|..] == tail
    ensures !StartsWith(body[cursor..], DASHES)
  {
    var after := RenderHeaders(p.headers) + (CRLF + tail);
    IntroThen(p, tail);
    hide RenderHeaders, NoLineBreak, StartsWith, ContentStart, IsPadding, Find;
    FirstBlankLine(p.headers, tail);
    StartAfterLine(body, cursor, p.padding, after);
    SuffixOf(body, cursor, Intro(p), tail);
  }

  lemma ContentEndAt(body: Bytes, start: nat, content: Bytes, rest: Bytes)
    requires start <= |body| && body[start..] == content + CRLF + rest
    ensures start + |content| + 2 <= |body| && ContentEnd(body, start + |content| + 2) == start + |content|
    ensures body[start..start + |content|] == content
  {
    var end := start + |content| + 2;
    assert body[end - 2..end] == body[start..][|content|..|content| + 2] == CRLF;
    assert body[start..start + |content|] == body[start..][..|content|];
  }

  lemma PartText(p: Part, delimiter: Bytes, rest: Bytes)
    ensures p.content.Some?
            ==> RenderPart(p) + delimiter + rest == Intro(p) + (p.content.value + CRLF + delimiter + rest)
    ensures p.content.None? ==> RenderPart(p) + delimiter + rest == Intro(p) + (delimiter + rest)
  {
    hide RenderHeaders;
    var (a, h) := (p.padding + CRLF, RenderHeaders(p.headers));
    assert Intro(p) == a + h + CRLF;
    if p.content.Some? {
      var c := p.content.value;
      assert RenderPart(p) == a + h + (CRLF + c + CRLF);
    }
  }

  // --- what the reader makes of a message ---

  /** The body of a part: nothing when it is missing. */
  function BodyOf(p: Part): Bytes {
    if p.content.Some? then p.content.value else []
  }

  function Bodies(parts: seq<Part>): (r: seq<Bytes>)
    ensures |r| == |parts|
    ensures forall i :: 0 <= i < |r| ==> r[i] == BodyOf(parts[i])
  {
    if parts == [] then [] else [BodyOf(parts[0])] + Bodies(parts[1..])
  }

  /** The reader is right about parts that have a header line and a body. */
  predicate Readable(p: Part) {
    p.headers != [] && p.content.Some?
  }

  predicate AllReadable(parts: seq<Part>) {
    forall i :: 0 <= i < |parts| ==> Readable(parts[i])
  }

  /** In a part without header lines: from the empty line that stands for them to the next delimiter. */
  function HeaderlessText(p: Part): Bytes {
    CRLF + (if p.content.Some? then p.content.value + CRLF else [])
  }

  /** The bodies the reader finds, part by part.  In a part without header lines it takes the first empty
      line of the body for the end of the headers, so that the head of the body is lost, or panics when that
      is the body's last line; without one it takes the next part's headers for this part's. */
  function ReadBack(parts: seq<Part>, epilogue: Bytes): Outcome {
    if parts == [] then Parts([])
    else
      var (p, rest) := (parts[0], parts[1..]);
      if p.headers != [] then Taken(p, ReadBack(rest, epilogue))
      else
        var text := HeaderlessText(p);
        match Find(text, BLANK_LINE)
        case Some(i) =>
          if i + 4 > |text| - 2 then Panicked else Prepend([text[i + 4..|text| - 2]], ReadBack(rest, epilogue))
        case None =>
          if rest != [] then Taken(rest[0], ReadBack(rest[1..], epilogue)) else LastHeaderless(text, epilogue)
  }

  /** A part whose content begins where it should. */
  function Taken(p: Part, more: Outcome): Outcome {
    if p.content.None? then Panicked else Prepend([p.content.value], more)
  }

  /** The last part, without header lines and empty lines: only two bare line feeds can be taken for one. */
  function LastHeaderless(text: Bytes, epilogue: Bytes): Outcome {
    if Contains(epilogue, BLANK_LINE) then Malformed
    else
      match Find(text, BARE_BLANK_LINE)
      case None => Malformed
      case Some(i) => if i + 2 > |text| - 2 then Malformed else Parts([text[i + 2..|text| - 2]])
  }

  /** The reader does not look for the last part in the epilogue: that part has a header line or an empty line,
      or the epilogue does not hold the delimiter. */
  predicate EndsClear(parts: seq<Part>, epilogue: Bytes, delimiter: Bytes) {
    || !Contains(epilogue, delimiter) || parts == []
    || parts[|parts| - 1].headers != [] || Find(HeaderlessText(parts[|parts| - 1]), BLANK_LINE).Some?
  }

  // --- where a part's content is taken to begin ---

  /** The content found between where it is taken to begin and the next delimiter. */
  lemma FoundFrom(body: Bytes, delimiter: Bytes, cursor: nat, start: nat, content: Bytes, rest: Bytes)
    requires cursor <= |body| && !StartsWith(body[cursor..], DASHES) && ContentStart(body, cursor) == Some(start)
    requires NoLineBreak(delimiter) && delimiter != [] && !Contains(content, delimiter)
    requires body[start..] == content + CRLF + delimiter + rest
    ensures NextPart(body, delimiter, cursor) == Found(content, |body| - |rest|)
  {
    hide ContentStart, ContentEnd, StartsWith, Contains, NoLineBreak;
    FirstDelimiter(content, CRLF, delimiter, rest);
    assert body[start..] == content + CRLF + (delimiter + rest);
    ContentEndAt(body, start, content, delimiter + rest);
  }

  /** With the delimiter right there, the content ends before it begins. */
  lemma InvertedFrom(body: Bytes, delimiter: Bytes, cursor: nat, start: nat, rest: Bytes)
    requires cursor <= |body| && !StartsWith(body[cursor..], DASHES) && ContentStart(body, cursor) == Some(start)
    requires delimiter != [] && body[start..] == delimiter + rest
    requires start >= 2 && body[start - 2..start] == CRLF
    ensures NextPart(body, delimiter, cursor) == Inverted
  {
    hide ContentStart, StartsWith;
    assert OccursAt(body[start..], delimiter, 0) && Find(body[start..], delimiter) == Some(0);
  }

  lemma NextIsContent(body: Bytes, delimiter: Bytes, cursor: nat, p: Part, content: Bytes, rest: Bytes)
    requires cursor <= |body| && WellFormedIntro(p) && !Contains(content, delimiter)
    requires NoLineBreak(delimiter) && delimiter != []
    requires body[cursor..] == Intro(p) + (content + CRLF + delimiter + rest)
    ensures NextPart(body, delimiter, cursor) == Found(content, |body| - |rest|)
  {
    hide ContentStart, NextPart, StartsWith, Contains, Intro, WellFormedIntro, NoLineBreak;
    var tail := content + CRLF + delimiter + rest;
    ContentStartOfPart(body, cursor, p, tail);
    FoundFrom(body, delimiter, cursor, |body| - |tail|, content, rest);
  }

  lemma IntroEnds(p: Part)
    ensures |Intro(p)| >= 2 && Intro(p)[|Intro(p)| - 2..] == CRLF
  {
    hide RenderHeaders;
  }

  lemma BeforeStart(body: Bytes, cursor: nat, head: Bytes, tail: Bytes)
    requires cursor <= |body| && body[cursor..] == head + tail && |head| >= 2 && head[|head| - 2..] == CRLF
    ensures |body| - |tail| >= 2 && body[|body| - |tail| - 2..|body| - |tail|] == CRLF
            && body[|body| - |tail|..] == tail
  {
    SuffixOf(body, cursor, head, tail);
    var start := |body| - |tail|;
    assert body[start - 2..start] == body[cursor..][|head| - 2..|head|];
  }

  lemma NextIsInverted(body: Bytes, delimiter: Bytes, cursor: nat, p: Part, rest: Bytes)
    requires cursor <= |body| && WellFormedIntro(p) && delimiter != []
    requires body[cursor..] == Intro(p) + (delimiter + rest)
    ensures NextPart(body, delimiter, cursor) == Inverted
  {
    hide ContentStart, NextPart, StartsWith, WellFormedIntro, Intro;
    var tail := delimiter + rest;
    ContentStartOfPart(body, cursor, p, tail);
    IntroEnds(p);
    BeforeStart(body, cursor, Intro(p), tail);
    InvertedFrom(body, delimiter, cursor, |body| - |tail|, rest);
  }

  // --- a part without header lines ---

  /** What follows the boundary line decides where the content is taken to begin. */
  lemma StartAfterLine(body: Bytes, cursor: nat, padding: Bytes, after: Bytes)
    requires cursor <= |body| && IsPadding(padding) && body[cursor..] == padding + CRLF + after
    ensures !StartsWith(body[cursor..], DASHES)
    ensures Find(after, BLANK_LINE).Some? ==>
              ContentStart(body, cursor) == Some(|body| - |after| + Find(after, BLANK_LINE).value + 4)
    ensures Find(after, BLANK_LINE).None? && Find(after, BARE_BLANK_LINE).Some? ==>
              ContentStart(body, cursor) == Some(|body| - |after| + Find(after, BARE_BLANK_LINE).value + 2)
    ensures Find(after, BLANK_LINE).None? && Find(after, BARE_BLANK_LINE).None? ==> ContentStart(body, cursor) == None
  {
    FirstLineFeed(padding, after);
    SuffixOf(body, cursor, padding + CRLF, after);
    assert body[cursor..][0] == (if padding == [] then 13 else padding[0]);
  }

  lemma HeaderlessRendered(p: Part, delimiter: Bytes, rest: Bytes)
    requires p.headers == []
    ensures RenderPart(p) + delimiter + rest == p.padding + CRLF + (HeaderlessText(p) + (delimiter + rest))
  {
    assert RenderHeaders(p.headers) == [];
    assert RenderPart(p) == p.padding + CRLF + HeaderlessText(p);
  }

  /** An empty line in the body is taken for the end of the headers. */
  lemma NextAfterEmptyLine(body: Bytes, delimiter: Bytes, cursor: nat, p: Part, rest: Bytes)
    requires cursor <= |body| && WellFormedPart(p, delimiter) && p.headers == [] && NoLineBreak(delimiter)
             && delimiter != []
    requires body[cursor..] == RenderPart(p) + delimiter + rest && Find(HeaderlessText(p), BLANK_LINE).Some?
    ensures var (text, i) := (HeaderlessText(p), Find(HeaderlessText(p), BLANK_LINE).value);
            i + 4 <= |text| && i + 4 != |text| - 1
            && NextPart(body, delimiter, cursor)
               == if i + 4 == |text| then Inverted else Found(text[i + 4..|text| - 2], |body| - |rest|)
  {
    hide *;
    PartFacts(p, delimiter);
    var (text, i) := (HeaderlessText(p), Find(HeaderlessText(p), BLANK_LINE).value);
    HeaderlessRendered(p, delimiter, rest);
    FindInPrefix(text, delimiter + rest, BLANK_LINE);
    StartAfterLine(body, cursor, p.padding, text + (delimiter + rest));
    TextEnds(p);
    EmptyLineInText(text, i);
    var start := |body| - |text + (delimiter + rest)| + i + 4;
    SuffixOf(body, cursor, p.padding + CRLF, text + (delimiter + rest));
    TailOfText(body, start - i - 4, text, i + 4, delimiter + rest);
    if i + 4 == |text| {
      InvertedFrom(body, delimiter, cursor, start, rest);
    } else {
      var content := text[i + 4..|text| - 2];
      assert text[i + 4..] == content + CRLF;
      assert text[i + 4..] + (delimiter + rest) == content + CRLF + delimiter + rest;
      PartOfText(p, delimiter, i + 4);
      FoundFrom(body, delimiter, cursor, start, content, rest);
    }
  }

  lemma TextEnds(p: Part)
    ensures |HeaderlessText(p)| >= 2 && HeaderlessText(p)[|HeaderlessText(p)| - 2..] == CRLF
    ensures HeaderlessText(p)[0] == 13
  {
  }

  lemma EmptyLineInText(text: Bytes, i: nat)
    requires |text| >= 2 && text[|text| - 2..] == CRLF && OccursAt(text, BLANK_LINE, i)
    ensures i + 4 <= |text| && i + 4 != |text| - 1 && text[i + 2..i + 4] == CRLF
  {
    assert text[i..i + 4][2..] == CRLF && text[i..i + 4][3] == text[i + 3];
    assert text[|text| - 2..][0] == text[|text| - 2];
  }

  lemma TailOfText(body: Bytes, at: nat, text: Bytes, i: nat, more: Bytes)
    requires at <= |body| && body[at..] == text + more && 2 <= i <= |text|
    ensures at + i <= |body| && body[at + i..] == text[i..] + more && body[at + i - 2..at + i] == text[i - 2..i]
  {
    var t := text + more;
    assert body[at + i..] == body[at..][i..] && t[i..] == text[i..] + more;
    assert body[at + i - 2..at + i] == body[at..][i - 2..i] by {
      assert body[at + i - 2] == t[i - 2] && body[at + i - 1] == t[i - 1];
    }
  }

  lemma PartOfText(p: Part, delimiter: Bytes, i: nat)
    requires p.content.Some? ==> !Contains(p.content.value, delimiter)
    requires delimiter != [] && 2 <= i <= |HeaderlessText(p)| - 2
    ensures p.content.Some? && !Contains(HeaderlessText(p)[i..|HeaderlessText(p)| - 2], delimiter)
    ensures HeaderlessText(p)[i..|HeaderlessText(p)| - 2] == p.content.value[i - 2..]
  {
    var (text, c) := (HeaderlessText(p), BodyOf(p));
    assert p.content.Some?;
    assert text[i..|text| - 2] == c[i - 2..];
    NoneInTail(c, delimiter, i - 2);
  }

  // --- a part without header lines and without an empty line: the next part's headers are taken for its ---

  lemma NoBlankLineAcross(a: Bytes, b: Bytes, j: nat)
    requires (forall k: nat :: !OccursAt(a, BLANK_LINE, k)) && b != [] && b[0] != 10 && b[0] != 13 && j < |a|
    ensures !OccursAt(a + b, BLANK_LINE, j)
  {
    var s := a + b;
    if j + 4 <= |a| {
      OccursInPrefix(a, b, BLANK_LINE, j);
    } else if j + 4 <= |s| {
      var w := s[j..j + 4];
      assert w[|a| - j] == s[|a|] == b[0];
    }
  }

  /** The first empty line from the boundary line on is the one that ends the part's headers. */
  lemma BlankLineOfIntro(p: Part, delimiter: Bytes, tail: Bytes)
    requires WellFormedPart(p, delimiter) && NoLineBreak(delimiter)
    ensures |Intro(p)| >= 4
    ensures Find(delimiter + (Intro(p) + tail), BLANK_LINE) == Some(|delimiter| + |Intro(p)| - 4)
  {
    hide RenderHeaders;
    var line := delimiter + p.padding;
    assert NoLineBreak(line);
    var s := delimiter + (Intro(p) + tail);
    if p.headers == [] {
      NoHeaders(p);
      assert s == line + CRLF + (CRLF + tail);
      BlankLineAfterOne(line, tail);
    } else {
      FirstBlankLine(p.headers, tail);
      FirstOfHeaders(p.headers, CRLF + tail);
      var more := RenderHeaders(p.headers) + (CRLF + tail);
      assert s == line + CRLF + more;
      forall j: nat | j < |line + CRLF| ensures !OccursAt(line + CRLF + more, BLANK_LINE, j) {
        NoBlankLineInHeader(line, more, j);
      }
      FindAfter(line + CRLF, more, BLANK_LINE);
    }
  }

  lemma NoHeaders(p: Part)
    requires p.headers == []
    ensures Intro(p) == p.padding + CRLF + CRLF && RenderHeaders(p.headers) == []
  {
  }

  /** From the boundary line of a part without header lines, the content begins where the next part's does. */
  lemma StartAfterSkip(body: Bytes, delimiter: Bytes, cursor: nat, p: Part, q: Part, tail: Bytes)
    requires cursor <= |body| && IsPadding(p.padding) && NoLineBreak(delimiter) && delimiter != []
    requires WellFormedPart(q, delimiter) && Find(HeaderlessText(p), BLANK_LINE).None?
    requires body[cursor..] == p.padding + CRLF + (HeaderlessText(p) + (delimiter + (Intro(q) + tail)))
    ensures !StartsWith(body[cursor..], DASHES) && ContentStart(body, cursor) == Some(|body| - |tail|)
  {
    hide ContentStart, StartsWith, HeaderlessText, Intro, NoLineBreak, WellFormedPart;
    var (text, more) := (HeaderlessText(p), delimiter + (Intro(q) + tail));
    BlankLineOfIntro(q, delimiter, tail);
    FirstOfLine(delimiter, Intro(q) + tail);
    forall j: nat | j < |text| ensures !OccursAt(text + more, BLANK_LINE, j) {
      NoBlankLineAcross(text, more, j);
    }
    FindAfter(text, more, BLANK_LINE);
    StartAfterLine(body, cursor, p.padding, text + more);
  }

  lemma PartFacts(p: Part, delimiter: Bytes)
    requires WellFormedPart(p, delimiter)
    ensures IsPadding(p.padding) && (p.content.Some? ==> !Contains(p.content.value, delimiter))
  {
  }

  /** The reader goes on to the next part and takes its content. */
  lemma NextAfterSkip(body: Bytes, delimiter: Bytes, cursor: nat, p: Part, q: Part, rest: Bytes)
    requires cursor <= |body| && WellFormedPart(p, delimiter) && p.headers == [] && NoLineBreak(delimiter)
             && delimiter != []
    requires WellFormedPart(q, delimiter) && Find(HeaderlessText(p), BLANK_LINE).None?
    requires body[cursor..] == RenderPart(p) + delimiter + (RenderPart(q) + delimiter + rest)
    ensures NextPart(body, delimiter, cursor)
            == if q.content.None? then Inverted else Found(q.content.value, |body| - |rest|)
  {
    hide *;
    PartFacts(p, delimiter);
    PartFacts(q, delimiter);
    PartText(q, delimiter, rest);
    var tail := if q.content.Some? then q.content.value + CRLF + delimiter + rest else delimiter + rest;
    HeaderlessRendered(p, delimiter, Intro(q) + tail);
    StartAfterSkip(body, delimiter, cursor, p, q, tail);
    var head := p.padding + CRLF + HeaderlessText(p) + delimiter + Intro(q);
    FiveParts(p.padding + CRLF, HeaderlessText(p), delimiter, Intro(q), tail);
    IntroEnds(q);
    assert head[|head| - 2..] == Intro(q)[|Intro(q)| - 2..];
    BeforeStart(body, cursor, head, tail);
    if q.content.None? {
      InvertedFrom(body, delimiter, cursor, |body| - |tail|, rest);
    } else {
      FoundFrom(body, delimiter, cursor, |body| - |tail|, q.content.value, rest);
    }
  }

  lemma FiveParts(a: Bytes, b: Bytes, c: Bytes, d: Bytes, e: Bytes)
    ensures a + (b + (c + (d + e))) == a + b + c + d + e
  {
  }

  lemma NineParts(d: Bytes, b: Bytes, e: Bytes, x: Bytes)
    ensures d + b + e + e + x + e + d + b + d == (d + b) + (e + (e + x + e + d + b + d))
  {
    var h := d + b + e;
    Regroup(h, e, x);
    Regroup(h, e + x, e);
    Regroup(h, e + x + e, d);
    Regroup(h, e + x + e + d, b);
    Regroup(h, e + x + e + d + b, d);
    Regroup(d + b, e, e + x + e + d + b + d);
  }

  lemma FirstOfLine(line: Bytes, more: Bytes)
    requires NoLineBreak(line) && line != []
    ensures line + more != [] && (line + more)[0] != 10 && (line + more)[0] != 13
  {
  }

  // --- the last part without header lines ---

  lemma NoneInTail(s: Bytes, needle: Bytes, i: nat)
    requires i <= |s| && forall j: nat :: !OccursAt(s, needle, j)
    ensures forall j: nat :: !OccursAt(s[i..], needle, j)
  {
    forall j: nat ensures !OccursAt(s[i..], needle, j) {
      assert !OccursAt(s, needle, i + j);
      if j + |needle| <= |s[i..]| { assert s[i..][j..j + |needle|] == s[i + j..i + j + |needle|]; }
    }
  }

  /** From a place in the epilogue on there is no delimiter. */
  lemma NoDelimiterInEpilogue(body: Bytes, delimiter: Bytes, cursor: nat, start: nat, epilogue: Bytes)
    requires cursor <= |body| && !StartsWith(body[cursor..], DASHES) && ContentStart(body, cursor) == Some(start)
    requires |epilogue| <= |body| && body[|body| - |epilogue|..] == epilogue && |body| - |epilogue| <= start <= |body|
    requires !Contains(epilogue, delimiter)
    ensures NextPart(body, delimiter, cursor) == Unreadable
  {
    hide ContentStart, StartsWith;
    var i := start - (|body| - |epilogue|);
    NoneInTail(epilogue, delimiter, i);
    assert body[start..] == epilogue[i..];
  }

  /** What follows the last body: a blank line there is one of the epilogue. */
  lemma BlankLineAfterClosing(text: Bytes, line: Bytes, epilogue: Bytes, needle: Bytes)
    requires needle == BLANK_LINE || needle == BARE_BLANK_LINE
    requires NoLineBreak(line) && line != [] && (forall j: nat :: !OccursAt(text, needle, j))
    ensures Find(text + (line + epilogue), needle)
            == if Find(epilogue, needle).None? then None else Some(|text| + |line| + Find(epilogue, needle).value)
  {
    var s := text + (line + epilogue);
    forall j: nat | j < |text| + |line| ensures !OccursAt(s, needle, j) {
      NoneBeforeEpilogue(text, line, epilogue, needle, j);
    }
    assert s == (text + line) + epilogue;
    FindAfter(text + line, epilogue, needle);
  }

  lemma NoneBeforeEpilogue(text: Bytes, line: Bytes, epilogue: Bytes, needle: Bytes, j: nat)
    requires needle == BLANK_LINE || needle == BARE_BLANK_LINE
    requires NoLineBreak(line) && line != [] && (forall j: nat :: !OccursAt(text, needle, j))
    requires j < |text| + |line|
    ensures !OccursAt(text + (line + epilogue), needle, j)
  {
    var s := text + (line + epilogue);
    var k := if j < |text| then |text| else j;
    if j + |needle| <= |text| {
      OccursInPrefix(text, line + epilogue, needle, j);
    } else if j + |needle| <= |s| {
      var w := s[j..j + |needle|];
      assert w[k - j] == s[k] == line[k - |text|];
    }
  }

  lemma BareLinesInText(text: Bytes, i: nat)
    requires |text| >= 2 && text[|text| - 2..] == CRLF && text[0] == 13 && OccursAt(text, BARE_BLANK_LINE, i)
    ensures 1 <= i && i + 2 <= |text| - 2
  {
    var w := text[i..i + 2];
    assert w[0] == text[i] == 10 && w[1] == text[i + 1] == 10;
    assert text[|text| - 2..][0] == text[|text| - 2];
  }

  lemma NextOfLast(body: Bytes, delimiter: Bytes, cursor: nat, p: Part, epilogue: Bytes)
    requires cursor <= |body| && WellFormedPart(p, delimiter) && p.headers == [] && NoLineBreak(delimiter)
             && delimiter != []
    requires Find(HeaderlessText(p), BLANK_LINE).None? && !Contains(epilogue, delimiter)
    requires body[cursor..] == RenderPart(p) + delimiter + (DASHES + epilogue)
    ensures var (text, next) := (HeaderlessText(p), NextPart(body, delimiter, cursor));
            var last := LastHeaderless(text, epilogue);
            if last.Parts? then |last.bodies| == 1 && next == Found(last.bodies[0], |body| - |DASHES + epilogue|)
            else last == Malformed && next == Unreadable
  {
    hide ContentStart, NextPart, WellFormedPart, RenderPart, HeaderlessText, NoLineBreak, OccursAt;
    if Find(epilogue, BLANK_LINE).None? && Find(HeaderlessText(p), BARE_BLANK_LINE).Some? {
      LastWithBareLines(body, delimiter, cursor, p, epilogue);
    } else {
      LastIsUnreadable(body, delimiter, cursor, p, epilogue);
    }
  }

  lemma LastIsUnreadable(body: Bytes, delimiter: Bytes, cursor: nat, p: Part, epilogue: Bytes)
    requires cursor <= |body| && WellFormedPart(p, delimiter) && p.headers == [] && NoLineBreak(delimiter)
             && delimiter != []
    requires Find(HeaderlessText(p), BLANK_LINE).None? && !Contains(epilogue, delimiter)
    requires body[cursor..] == RenderPart(p) + delimiter + (DASHES + epilogue)
    requires Find(epilogue, BLANK_LINE).Some? || Find(HeaderlessText(p), BARE_BLANK_LINE).None?
    ensures NextPart(body, delimiter, cursor) == Unreadable
  {
    hide *;
    PartFacts(p, delimiter);
    var (text, line) := (HeaderlessText(p), delimiter + DASHES);
    var after := text + (line + epilogue);
    HeaderlessRendered(p, delimiter, DASHES + epilogue);
    Regroup(delimiter, DASHES, epilogue);
    LineWithDashes(delimiter);
    BlankLineAfterClosing(text, line, epilogue, BLANK_LINE);
    StartAfterLine(body, cursor, p.padding, after);
    var head := p.padding + CRLF + text + line;
    assert p.padding + CRLF + after == head + epilogue;
    SuffixOf(body, cursor, head, epilogue);
    assert |after| == |text| + |line| + |epilogue|;
    if Find(epilogue, BLANK_LINE).Some? {
      var at := |body| - |epilogue| + Find(epilogue, BLANK_LINE).value + 4;
      NoDelimiterInEpilogue(body, delimiter, cursor, at, epilogue);
    } else {
      BlankLineAfterClosing(text, line, epilogue, BARE_BLANK_LINE);
      if Find(epilogue, BARE_BLANK_LINE).Some? {
        var at := |body| - |epilogue| + Find(epilogue, BARE_BLANK_LINE).value + 2;
        NoDelimiterInEpilogue(body, delimiter, cursor, at, epilogue);
      } else {
        NoStart(body, delimiter, cursor);
      }
    }
  }

  lemma NoStart(body: Bytes, delimiter: Bytes, cursor: nat)
    requires cursor <= |body| && !StartsWith(body[cursor..], DASHES) && ContentStart(body, cursor) == None
    ensures NextPart(body, delimiter, cursor) == Unreadable
  {
    hide ContentStart, StartsWith;
  }

  lemma LineWithDashes(delimiter: Bytes)
    requires NoLineBreak(delimiter)
    ensures NoLineBreak(delimiter + DASHES) && delimiter + DASHES != []
  {
  }

  lemma LastWithBareLines(body: Bytes, delimiter: Bytes, cursor: nat, p: Part, epilogue: Bytes)
    requires cursor <= |body| && WellFormedPart(p, delimiter) && p.headers == [] && NoLineBreak(delimiter)
             && delimiter != []
    requires Find(HeaderlessText(p), BLANK_LINE).None? && Find(epilogue, BLANK_LINE).None?
    requires Find(HeaderlessText(p), BARE_BLANK_LINE).Some?
    requires body[cursor..] == RenderPart(p) + delimiter + (DASHES + epilogue)
    ensures var (text, i) := (HeaderlessText(p), Find(HeaderlessText(p), BARE_BLANK_LINE).value);
            && 1 <= i && i + 2 <= |text| - 2
            && NextPart(body, delimiter, cursor) == Found(text[i + 2..|text| - 2], |body| - |DASHES + epilogue|)
  {
    hide *;
    PartFacts(p, delimiter);
    var (text, line, rest) := (HeaderlessText(p), delimiter + DASHES, DASHES + epilogue);
    var i := Find(text, BARE_BLANK_LINE).value;
    HeaderlessRendered(p, delimiter, rest);
    assert delimiter + rest == line + epilogue;
    LineWithDashes(delimiter);
    BlankLineAfterClosing(text, line, epilogue, BLANK_LINE);
    FindInPrefix(text, delimiter + rest, BARE_BLANK_LINE);
    StartAfterLine(body, cursor, p.padding, text + (delimiter + rest));
    TextEnds(p);
    BareLinesInText(text, i);
    var start := |body| - |text + (delimiter + rest)| + i + 2;
    SuffixOf(body, cursor, p.padding + CRLF, text + (delimiter + rest));
    TailOfText(body, start - i - 2, text, i + 2, delimiter + rest);
    var content := text[i + 2..|text| - 2];
    assert text[i + 2..] == content + CRLF;
    assert text[i + 2..] + (delimiter + rest) == content + CRLF + delimiter + rest;
    PartOfText(p, delimiter, i + 2);
    FoundFrom(body, delimiter, cursor, start, content, rest);
  }

  // --- main results ---

  predicate AllHaveContent(parts: seq<Part>) {
    forall i :: 0 <= i < |parts| ==> parts[i].content.Some?
  }

  predicate AllHaveHeaders(parts: seq<Part>) {
    forall i :: 0 <= i < |parts| ==> parts[i].headers != []
  }

  /** Where the text of the parts begins: after the first delimiter. */
  lemma FirstCursor(m: Message, boundary: Bytes)
    requires WellFormed(m, boundary)
    ensures var (delimiter, body) := (DASHES + boundary, Render(m, boundary));
            var cursor := |m.preamble| + |delimiter|;
            && cursor <= |body| && MultipartParts(body, boundary) == PartsFrom(body, delimiter, cursor)
            && body[cursor..] == RenderParts(m.parts, delimiter) + DASHES + m.epilogue
            && NoLineBreak(delimiter)
            && forall i :: 0 <= i < |m.parts| ==> WellFormedPart(m.parts[i], delimiter)
  {
    hide PartsFrom, WellFormedPart, RenderParts;
    var delimiter := DASHES + boundary;
    var body := Render(m, boundary);
    var rest := RenderParts(m.parts, delimiter) + DASHES + m.epilogue;
    var n := |m.preamble|;
    assert body == m.preamble + delimiter + rest;
    if n == 0 {
      assert OccursAt(body, delimiter, 0);
    } else {
      var a := m.preamble[..n - 2];
      assert m.preamble == a + CRLF;
      FirstDelimiter(a, CRLF, delimiter, rest);
    }
    assert body[n + |delimiter|..] == rest;
  }

  lemma RenderedParts(parts: seq<Part>, delimiter: Bytes, epilogue: Bytes)
    requires parts != []
    ensures RenderParts(parts, delimiter) + DASHES + epilogue
            == RenderPart(parts[0]) + delimiter + (RenderParts(parts[1..], delimiter) + DASHES + epilogue)
  {
    hide RenderPart;
  }

  lemma {:induction false} ReadsParts(body: Bytes, delimiter: Bytes, cursor: nat, parts: seq<Part>, epilogue: Bytes)
    requires cursor <= |body| && NoLineBreak(delimiter) && delimiter != [] && AllHaveHeaders(parts)
    requires forall i :: 0 <= i < |parts| ==> WellFormedPart(parts[i], delimiter)
    requires body[cursor..] == RenderParts(parts, delimiter) + DASHES + epilogue
    ensures PartsFrom(body, delimiter, cursor) == if AllHaveContent(parts) then Parts(Bodies(parts)) else Panicked
    decreases |parts|
  {
    hide NextPart, RenderPart, NoLineBreak, Intro, Contains;
    if parts == [] {
      assert body[cursor..] == DASHES + epilogue;
      NextIsClosing(body, delimiter, cursor, epilogue);
    } else {
      var p := parts[0];
      var rest := RenderParts(parts[1..], delimiter) + DASHES + epilogue;
      RenderedParts(parts, delimiter, epilogue);
      SuffixOf(body, cursor, RenderPart(p) + delimiter, rest);
      PartText(p, delimiter, rest);
      assert WellFormedPart(p, delimiter);
      if p.content.Some? {
        NextIsContent(body, delimiter, cursor, p, p.content.value, rest);
        ReadsParts(body, delimiter, |body| - |rest|, parts[1..], epilogue);
        assert AllHaveContent(parts) <==> AllHaveContent(parts[1..]);
      } else {
        NextIsInverted(body, delimiter, cursor, p, rest);
      }
    }
  }

  lemma NextIsClosing(body: Bytes, delimiter: Bytes, cursor: nat, epilogue: Bytes)
    requires cursor <= |body| && body[cursor..] == DASHES + epilogue
    ensures NextPart(body, delimiter, cursor) == Closing
  {
  }

  /** A message of the format whose parts all have header lines gives exactly its bodies, in order, also
      those that end in CRLF, if every part has a body; if some part has headers only, the source's slice is
      inverted and it panics. */
  lemma ReadsBackExactlyWhenEveryPartHasABody(m: Message, boundary: Bytes)
    requires WellFormed(m, boundary) && AllHaveHeaders(m.parts)
    ensures MultipartParts(Render(m, boundary), boundary)
            == if AllHaveContent(m.parts) then Parts(Bodies(m.parts)) else Panicked
  {
    hide PartsFrom, WellFormed, RenderParts, MultipartParts, Render;
    FirstCursor(m, boundary);
    ReadsParts(Render(m, boundary), DASHES + boundary, |m.preamble| + |DASHES + boundary|, m.parts, m.epilogue);
  }

  lemma {:induction false} ReadsAnyParts(body: Bytes, delimiter: Bytes, cursor: nat, parts: seq<Part>, epilogue: Bytes)
    requires cursor <= |body| && NoLineBreak(delimiter) && delimiter != [] && EndsClear(parts, epilogue, delimiter)
    requires forall i :: 0 <= i < |parts| ==> WellFormedPart(parts[i], delimiter)
    requires body[cursor..] == RenderParts(parts, delimiter) + DASHES + epilogue
    ensures PartsFrom(body, delimiter, cursor) == ReadBack(parts, epilogue)
    decreases |parts|
  {
    hide NextPart, RenderPart, NoLineBreak, Intro, Contains, HeaderlessText, LastHeaderless;
    if parts == [] {
      assert body[cursor..] == DASHES + epilogue;
      NextIsClosing(body, delimiter, cursor, epilogue);
    } else {
      var p := parts[0];
      var rest := RenderParts(parts[1..], delimiter) + DASHES + epilogue;
      RenderedParts(parts, delimiter, epilogue);
      SuffixOf(body, cursor, RenderPart(p) + delimiter, rest);
      assert WellFormedPart(p, delimiter);
      if p.headers != [] {
        PartText(p, delimiter, rest);
        if p.content.Some? {
          NextIsContent(body, delimiter, cursor, p, p.content.value, rest);
          ReadsAnyParts(body, delimiter, |body| - |rest|, parts[1..], epilogue);
        } else {
          NextIsInverted(body, delimiter, cursor, p, rest);
        }
      } else if Find(HeaderlessText(p), BLANK_LINE).Some? {
        NextAfterEmptyLine(body, delimiter, cursor, p, rest);
        ReadsAnyParts(body, delimiter, |body| - |rest|, parts[1..], epilogue);
      } else if |parts| > 1 {
        ReadsPastHeaderless(body, delimiter, cursor, parts, epilogue);
      } else {
        assert RenderParts(parts[1..], delimiter) == [] && rest == DASHES + epilogue;
        NextOfLast(body, delimiter, cursor, p, epilogue);
        NextIsClosing(body, delimiter, |body| - |rest|, epilogue);
      }
    }
  }

  lemma ReadBackPast(parts: seq<Part>, epilogue: Bytes)
    requires |parts| > 1 && parts[0].headers == [] && Find(HeaderlessText(parts[0]), BLANK_LINE).None?
    ensures ReadBack(parts, epilogue) == Taken(parts[1], ReadBack(parts[2..], epilogue))
  {
    hide HeaderlessText, Taken;
    assert parts[1..][0] == parts[1] && parts[1..][1..] == parts[2..];
  }

  lemma RenderedTwo(parts: seq<Part>, delimiter: Bytes, epilogue: Bytes)
    requires |parts| > 1
    ensures var rest := RenderParts(parts[2..], delimiter) + DASHES + epilogue;
            RenderParts(parts, delimiter) + DASHES + epilogue
            == RenderPart(parts[0]) + delimiter + (RenderPart(parts[1]) + delimiter + rest)
  {
    hide RenderPart, RenderParts;
    assert parts[1..][0] == parts[1] && parts[1..][1..] == parts[2..];
    RenderedParts(parts, delimiter, epilogue);
    RenderedParts(parts[1..], delimiter, epilogue);
  }

  lemma ReadsPastHeaderless(body: Bytes, delimiter: Bytes, cursor: nat, parts: seq<Part>, epilogue: Bytes)
    requires cursor <= |body| && NoLineBreak(delimiter) && delimiter != [] && EndsClear(parts, epilogue, delimiter)
    requires forall i :: 0 <= i < |parts| ==> WellFormedPart(parts[i], delimiter)
    requires body[cursor..] == RenderParts(parts, delimiter) + DASHES + epilogue
    requires |parts| > 1 && parts[0].headers == [] && Find(HeaderlessText(parts[0]), BLANK_LINE).None?
    ensures PartsFrom(body, delimiter, cursor) == ReadBack(parts, epilogue)
    decreases |parts|, 0
  {
    hide NextPart, RenderPart, RenderParts, NoLineBreak, Contains, HeaderlessText, ReadBack, WellFormedPart;
    var (p, q) := (parts[0], parts[1]);
    var rest := RenderParts(parts[2..], delimiter) + DASHES + epilogue;
    ReadBackPast(parts, epilogue);
    RenderedTwo(parts, delimiter, epilogue);
    NextAfterSkip(body, delimiter, cursor, p, q, rest);
    if q.content.Some? {
      var head := RenderPart(p) + delimiter + (RenderPart(q) + delimiter);
      assert body[cursor..] == head + rest;
      SuffixOf(body, cursor, head, rest);
      ReadsAnyParts(body, delimiter, |body| - |rest|, parts[2..], epilogue);
    }
  }

  lemma {:induction false} NoMoreThanTheParts(parts: seq<Part>, epilogue: Bytes)
    ensures ReadBack(parts, epilogue).Parts? ==> |ReadBack(parts, epilogue).bodies| <= |parts|
    decreases |parts|
  {
    hide HeaderlessText;
    if parts != [] {
      NoMoreThanTheParts(parts[1..], epilogue);
      if |parts| > 1 { NoMoreThanTheParts(parts[1..][1..], epilogue); }
    }
  }

  /** What the reader makes of the parts is their bodies exactly when each has a header line and a body. */
  lemma {:induction false} ReadBackIsRightExactly(parts: seq<Part>, epilogue: Bytes)
    ensures ReadBack(parts, epilogue) == Parts(Bodies(parts)) <==> AllReadable(parts)
  {
    if parts != [] {
      var (p, rest) := (parts[0], parts[1..]);
      assert AllReadable(parts) <==> Readable(p) && AllReadable(rest);
      if p.headers != [] {
        ReadBackIsRightExactly(rest, epilogue);
        if p.content.Some? { FirstAndRest(p.content.value, ReadBack(rest, epilogue), Bodies(rest)); }
      } else {
        HeaderlessIsWrong(parts, epilogue);
      }
    }
  }

  lemma FirstAndRest(c: Bytes, more: Outcome, bodies: seq<Bytes>)
    ensures Prepend([c], more) == Parts([c] + bodies) <==> more == Parts(bodies)
  {
    if more.Parts? {
      assert ([c] + more.bodies)[1..] == more.bodies && ([c] + bodies)[1..] == bodies;
    }
  }

  lemma HeaderlessIsWrong(parts: seq<Part>, epilogue: Bytes)
    requires parts != [] && parts[0].headers == []
    ensures ReadBack(parts, epilogue) != Parts(Bodies(parts))
  {
    hide AllReadable, Contains;
    var (p, rest) := (parts[0], parts[1..]);
    var text := HeaderlessText(p);
    TextEnds(p);
    var blank := Find(text, BLANK_LINE);
    if blank.Some? {
      if blank.value + 4 <= |text| - 2 { FirstIsShorter(p, blank.value + 4, ReadBack(rest, epilogue), parts); }
    } else if rest != [] {
      NoMoreThanTheParts(rest[1..], epilogue);
    } else {
      var bare := Find(text, BARE_BLANK_LINE);
      if bare.Some? {
        BareLinesInText(text, bare.value);
        FirstIsShorter(p, bare.value + 2, Parts([]), parts);
      }
    }
  }

  lemma FirstIsShorter(p: Part, i: nat, more: Outcome, parts: seq<Part>)
    requires parts != [] && parts[0] == p && 3 <= i <= |HeaderlessText(p)| - 2
    ensures Prepend([HeaderlessText(p)[i..|HeaderlessText(p)| - 2]], more) != Parts(Bodies(parts))
  {
    var x := HeaderlessText(p)[i..|HeaderlessText(p)| - 2];
    assert |x| < |BodyOf(p)|;
    if more.Parts? { assert ([x] + more.bodies)[0] == x && Bodies(parts)[0] == BodyOf(p); }
  }

  /** A message of the format is read as `ReadBack` says, unless the reader runs into its epilogue, and gives
      its bodies exactly when every part has a header line and a body. */
  lemma ReadsBackExactlyWhenPartsAreReadable(m: Message, boundary: Bytes)
    requires WellFormed(m, boundary) && EndsClear(m.parts, m.epilogue, DASHES + boundary)
    ensures MultipartParts(Render(m, boundary), boundary) == ReadBack(m.parts, m.epilogue)
    ensures MultipartParts(Render(m, boundary), boundary) == Parts(Bodies(m.parts)) <==> AllReadable(m.parts)
  {
    hide PartsFrom, WellFormed, RenderParts, MultipartParts, Render, ReadBack, AllReadable, EndsClear;
    FirstCursor(m, boundary);
    ReadsAnyParts(Render(m, boundary), DASHES + boundary, |m.preamble| + |DASHES + boundary|, m.parts, m.epilogue);
    ReadBackIsRightExactly(m.parts, m.epilogue);
  }

  // --- each way to fail ---

  lemma NoBlankLine(s: Bytes)
    requires forall j :: 0 <= j && j + 4 <= |s| ==> s[j] != 13 || s[j + 2] != 13
    ensures Find(s, BLANK_LINE) == None
  {
    forall j: nat ensures !OccursAt(s, BLANK_LINE, j) {
      BlankLineStartsWithCr(s, j);
    }
  }

  lemma ShortContent(content: Bytes, boundary: Bytes)
    requires |content| < 2
    ensures !Contains(content, DASHES + boundary)
  {
  }

  /** A body without an empty line, before a part with header lines, is dropped without a word. */
  lemma HeaderlessBodyIsDropped(boundary: Bytes)
    requires NoLineBreak(boundary)
    ensures var m := Message([], [Part([], [], Some([104])), Part([], [[88]], Some([100]))], []);
            WellFormed(m, boundary) && MultipartParts(Render(m, boundary), boundary) == Parts([[100]])
  {
    var (p, q) := (Part([], [], Some([104])), Part([], [[88]], Some([100])));
    var m := Message([], [p, q], []);
    ShortContent([104], boundary);
    ShortContent([100], boundary);
    ShortContent([], boundary);
    ReadsBackExactlyWhenPartsAreReadable(m, boundary);
    hide Render, MultipartParts, PartsFrom;
    NoBlankLine(HeaderlessText(p));
    ReadBackPast(m.parts, []);
    assert m.parts[2..] == [];
  }

  lemma NoDashes(content: Bytes, boundary: Bytes)
    requires forall i :: 0 <= i < |content| ==> content[i] != 45
    ensures !Contains(content, DASHES + boundary)
  {
    var d := DASHES + boundary;
    forall j: nat ensures !OccursAt(content, d, j) {
      if j + |d| <= |content| { assert content[j..j + |d|][0] == content[j] && d[0] == 45; }
    }
  }

  lemma ReadBackOfTwoLines()
    ensures ReadBack([Part([], [], Some([104, 13, 10, 13, 10, 100]))], []) == Parts([[100]])
  {
    var p := Part([], [], Some([104, 13, 10, 13, 10, 100]));
    var text := HeaderlessText(p);
    assert text == [13, 10, 104, 13, 10, 13, 10, 100, 13, 10];
    hide HeaderlessText, LastHeaderless;
    assert text[3..7] == BLANK_LINE;
    forall j: nat | j < 3 ensures !OccursAt(text, BLANK_LINE, j) {
      BlankLineStartsWithCr(text, j);
    }
    FindIs(text, BLANK_LINE, 3);
    assert text[7..8] == [100] && [p][1..] == [];
    assert ReadBack([], []) == Parts([]) && [[100]] + [] == [[100]];
  }

  /** Of a body with an empty line the part up to and with it is lost. */
  lemma HeadOfHeaderlessBodyIsLost(boundary: Bytes)
    requires NoLineBreak(boundary)
    ensures var m := Message([], [Part([], [], Some([104, 13, 10, 13, 10, 100]))], []);
            WellFormed(m, boundary) && MultipartParts(Render(m, boundary), boundary) == Parts([[100]])
  {
    hide Render, MultipartParts, PartsFrom, ReadBack, Contains;
    var m := Message([], [Part([], [], Some([104, 13, 10, 13, 10, 100]))], []);
    NoDashes([104, 13, 10, 13, 10, 100], boundary);
    NoDashes([], boundary);
    ReadsBackExactlyWhenPartsAreReadable(m, boundary);
    ReadBackOfTwoLines();
  }

  /** An empty body without header lines, and headers without a body, end in the inverted slice. */
  lemma EmptyPartsPanic(boundary: Bytes)
    requires NoLineBreak(boundary)
    ensures var m := Message([], [Part([], [], Some([]))], []);
            WellFormed(m, boundary) && MultipartParts(Render(m, boundary), boundary) == Panicked
    ensures var m := Message([], [Part([], [[88]], None)], []);
            WellFormed(m, boundary) && MultipartParts(Render(m, boundary), boundary) == Panicked
  {
    var (m, n) := (Message([], [Part([], [], Some([]))], []), Message([], [Part([], [[88]], None)], []));
    ShortContent([], boundary);
    ReadsBackExactlyWhenPartsAreReadable(m, boundary);
    ReadsBackExactlyWhenPartsAreReadable(n, boundary);
    hide Render, MultipartParts, PartsFrom;
    var text := HeaderlessText(m.parts[0]);
    assert text[0..4] == BLANK_LINE;
    FindIs(text, BLANK_LINE, 0);
  }

  /** An epilogue with the delimiter can stand in for the body of a last part without header lines and empty
      lines, so that the result is right by accident: `EndsClear` cannot be dropped. */
  lemma EpilogueCanStandIn(boundary: Bytes)
    requires NoLineBreak(boundary)
    ensures var delimiter := DASHES + boundary;
            var m := Message([], [Part([], [], Some([104]))], BLANK_LINE + [104] + CRLF + delimiter + DASHES);
            && WellFormed(m, boundary) && !AllReadable(m.parts)
            && MultipartParts(Render(m, boundary), boundary) == Parts(Bodies(m.parts))
  {
    hide Render, MultipartParts, PartsFrom, Contains, RenderPart, StartsWith, ContentStart;
    var delimiter := DASHES + boundary;
    var p := Part([], [], Some([104]));
    var after: Bytes := [104] + CRLF + delimiter + DASHES;
    var m := Message([], [p], BLANK_LINE + [104] + CRLF + delimiter + DASHES);
    ShortContent([104], boundary);
    FirstCursor(m, boundary);
    assert m.epilogue == BLANK_LINE + after;
    RenderedParts(m.parts, delimiter, m.epilogue);
    assert RenderParts(m.parts[1..], delimiter) + DASHES + m.epilogue == DASHES + (BLANK_LINE + after);
    NoBlankLine(HeaderlessText(p));
    StandInStart(Render(m, boundary), delimiter, |delimiter|, p, after);
    StandInIsRead(Render(m, boundary), delimiter, |delimiter|);
  }

  lemma StandInStart(body: Bytes, delimiter: Bytes, cursor: nat, p: Part, after: Bytes)
    requires cursor <= |body| && IsPadding(p.padding) && p.headers == [] && NoLineBreak(delimiter)
    requires Find(HeaderlessText(p), BLANK_LINE).None?
    requires body[cursor..] == RenderPart(p) + delimiter + (DASHES + (BLANK_LINE + after))
    ensures !StartsWith(body[cursor..], DASHES) && ContentStart(body, cursor) == Some(|body| - |after|)
    ensures |after| <= |body| && body[|body| - |after|..] == after
  {
    hide ContentStart, StartsWith, HeaderlessText, RenderPart, NoLineBreak;
    var (text, line, epilogue) := (HeaderlessText(p), delimiter + DASHES, BLANK_LINE + after);
    HeaderlessRendered(p, delimiter, DASHES + epilogue);
    assert delimiter + (DASHES + epilogue) == line + epilogue;
    LineWithDashes(delimiter);
    assert epilogue[0..4] == BLANK_LINE;
    FindIs(epilogue, BLANK_LINE, 0);
    BlankLineAfterClosing(text, line, epilogue, BLANK_LINE);
    StartAfterLine(body, cursor, p.padding, text + (line + epilogue));
    FiveParts(p.padding + CRLF, text, line, BLANK_LINE, after);
    SuffixOf(body, cursor, p.padding + CRLF + text + line + BLANK_LINE, after);
  }

  lemma StandInIsRead(body: Bytes, delimiter: Bytes, cursor: nat)
    requires cursor <= |body| && NoLineBreak(delimiter) && delimiter != [] && !Contains([104], delimiter)
    requires |[104] + CRLF + delimiter + DASHES| <= |body|
    requires body[|body| - |[104] + CRLF + delimiter + DASHES|..] == [104] + CRLF + delimiter + DASHES
    requires !StartsWith(body[cursor..], DASHES)
    requires ContentStart(body, cursor) == Some(|body| - |[104] + CRLF + delimiter + DASHES|)
    ensures PartsFrom(body, delimiter, cursor) == Parts([[104]])
  {
    hide ContentStart, StartsWith, NextPart, Contains, NoLineBreak;
    FoundFrom(body, delimiter, cursor, |body| - |[104] + CRLF + delimiter + DASHES|, [104], DASHES);
    assert body[|body| - 2..] == DASHES + [];
    NextIsClosing(body, delimiter, |body| - 2, []);
  }

  /** A last part without header lines is refused with the whole upload, when no empty line follows. */
  lemma HeaderlessPartIsRefused(content: Bytes, boundary: Bytes)
    requires var s := CRLF + content + CRLF + DASHES + boundary + DASHES;
             !Contains(s, BLANK_LINE) && !Contains(s, BARE_BLANK_LINE)
    ensures MultipartParts(DASHES + boundary + CRLF + CRLF + content + CRLF + DASHES + boundary + DASHES, boundary)
            == Malformed
  {
    var s := CRLF + content + CRLF + DASHES + boundary + DASHES;
    NineParts(DASHES, boundary, CRLF, content);
    hide *;
    HeaderlessTail(s, boundary);
  }

  lemma HeaderlessTail(s: Bytes, boundary: Bytes)
    requires !Contains(s, BLANK_LINE) && !Contains(s, BARE_BLANK_LINE)
    ensures MultipartParts((DASHES + boundary) + (CRLF + s), boundary) == Malformed
  {
    var delimiter := DASHES + boundary;
    var body := delimiter + (CRLF + s);
    assert OccursAt(body, delimiter, 0);
    var c := |delimiter|;
    assert body[c..] == CRLF + s && [] + CRLF + s == CRLF + s;
    FirstLineFeed([], s);
    assert body[c + 2..] == s;
    assert body[c..][0] == 13;
  }
}
