/** JSON texts of a value with white space wherever the grammar of RFC 8259 allows it: compacting any of them gives
    the text without. */
module JsonLayout {
  import opened Common
  import opened JsonText
  import opened WireJson

  // --- layouts ---

  /** Space, tab, line feed and carriage return, in any number: section 2. */
  predicate IsWhite(s: Bytes) {
    forall i :: 0 <= i < |s| ==> s[i] as char in {' ', '\t', '\n', '\r'}
  }

  function Sign(c: char): Bytes {
    if c < 256 as char then [c as int] else []
  }

  /** The texts with commas between them. */
  function WithCommas(parts: seq<Bytes>): Bytes {
    if parts == [] then [] else if |parts| == 1 then parts[0] else parts[0] + (Sign(',') + WithCommas(parts[1..]))
  }

  /** A text of the value: white space, the value's own text, white space. */
  ghost predicate LaysOut(v: Value, t: Bytes)
    decreases v, 2
  {
    exists a, body, b :: IsWhite(a) && IsWhite(b) && t == a + body + b && IsBody(v, body)
  }

  ghost predicate IsBody(v: Value, body: Bytes)
    decreases v, 1
  {
    match v
    case Array(items) =>
      exists inner :: body == Sign('[') + inner + Sign(']') && AreItems(items, inner)
    case Object(members) =>
      exists inner :: body == Sign('{') + inner + Sign('}') && AreMembers(members, inner)
    case _ => body == Serialize(v)
  }

  ghost predicate AreItems(items: seq<Value>, inner: Bytes)
    decreases items, 0
  {
    if items == [] then IsWhite(inner)
    else exists parts :: |parts| == |items| && inner == WithCommas(parts)
           && forall i :: 0 <= i < |items| ==> LaysOut(items[i], parts[i])
  }

  /** A name, a colon and a value: white space is allowed around each. */
  ghost predicate AreMembers(members: seq<Member>, inner: Bytes)
    decreases members, 0
  {
    if members == [] then IsWhite(inner)
    else exists parts :: |parts| == |members| && inner == WithCommas(parts)
           && forall i :: 0 <= i < |members| ==> LaysOutMember(members[i], parts[i])
  }

  ghost predicate LaysOutMember(m: Member, part: Bytes)
    decreases m, 3
  {
    exists a, b, t ::
      IsWhite(a) && IsWhite(b) && LaysOut(m.value, t) && part == a + StringText(m.key) + b + (Sign(':') + t)
  }

  // --- compacting ---

  /** Compacted by itself, the text becomes `s` and leaves off outside of strings. */
  predicate CompactsTo(t: Bytes, s: Bytes) {
    Compact(t) == s && ModeAfter(Outside, t) == Outside
  }

  lemma PartsCompact(a: Bytes, x: Bytes, b: Bytes, y: Bytes)
    requires CompactsTo(a, x) && CompactsTo(b, y)
    ensures CompactsTo(a + b, x + y)
  {
    CompactConcat(Outside, a, b);
  }

  lemma {:induction false} WhiteGoes(s: Bytes)
    requires IsWhite(s)
    ensures CompactsTo(s, [])
  {
    if s != [] { WhiteGoes(s[1..]); }
  }

  lemma ClosedStays(s: Bytes)
    requires Closed(s)
    ensures CompactsTo(s, s)
  {
    TightIsCompact(Outside, s);
  }

  lemma SignStays(c: char)
    requires c in {',', ':', '[', ']', '{', '}'}
    ensures CompactsTo(Sign(c), Sign(c)) && |Sign(c)| == 1
  {
    PlainIsClosed(Sign(c));
    ClosedStays(Sign(c));
  }

  lemma Around(a: Bytes, t: Bytes, s: Bytes, b: Bytes)
    requires IsWhite(a) && IsWhite(b) && CompactsTo(t, s)
    ensures CompactsTo(a + t + b, s)
  {
    WhiteGoes(a);
    WhiteGoes(b);
    PartsCompact(a, [], t, s);
    PartsCompact(a + t, [] + s, b, []);
    assert [] + s == s && s + [] == s;
  }

  lemma Between(open: char, inner: Bytes, s: Bytes, close: char)
    requires open in {'[', '{'} && close in {']', '}'} && CompactsTo(inner, s)
    ensures CompactsTo(Sign(open) + inner + Sign(close), Sign(open) + s + Sign(close))
  {
    hide CompactsTo, Sign;
    SignStays(open);
    SignStays(close);
    PartsCompact(Sign(open), Sign(open), inner, s);
    PartsCompact(Sign(open) + inner, Sign(open) + s, Sign(close), Sign(close));
  }

  lemma {:induction false} CommasCompact(parts: seq<Bytes>, texts: seq<Bytes>)
    requires |parts| == |texts| && forall i :: 0 <= i < |parts| ==> CompactsTo(parts[i], texts[i])
    ensures CompactsTo(WithCommas(parts), WithCommas(texts))
  {
    hide CompactsTo, Sign;
    if parts == [] {
      WhiteGoes([]);
    } else if |parts| > 1 {
      CommasCompact(parts[1..], texts[1..]);
      SignStays(',');
      PartsCompact(Sign(','), Sign(','), WithCommas(parts[1..]), WithCommas(texts[1..]));
      PartsCompact(parts[0], texts[0], Sign(',') + WithCommas(parts[1..]), Sign(',') + WithCommas(texts[1..]));
    }
  }

  // --- serialized texts, with commas ---

  function Texts(items: seq<Value>): (r: seq<Bytes>)
    ensures |r| == |items| && forall i :: 0 <= i < |r| ==> r[i] == Serialize(items[i])
  {
    seq(|items|, i requires 0 <= i < |items| => Serialize(items[i]))
  }

  function MemberText(m: Member): Bytes {
    StringText(m.key) + (Sign(':') + Serialize(m.value))
  }

  function MemberTexts(members: seq<Member>): (r: seq<Bytes>)
    ensures |r| == |members| && forall i :: 0 <= i < |r| ==> r[i] == MemberText(members[i])
  {
    seq(|members|, i requires 0 <= i < |members| => MemberText(members[i]))
  }

  lemma {:induction false} ItemsWithCommas(items: seq<Value>)
    ensures SerializeItems(items) == WithCommas(Texts(items))
  {
    hide Serialize;
    if items != [] {
      ItemsWithCommas(items[1..]);
      assert Texts(items)[1..] == Texts(items[1..]);
      assert Sign(',') == [44];
      if |items| == 1 { assert SerializeItems(items[1..]) == []; }
    }
  }

  lemma {:induction false} MembersWithCommas(members: seq<Member>)
    ensures SerializeMembers(members) == WithCommas(MemberTexts(members))
  {
    hide Serialize, StringText;
    if members != [] {
      MembersWithCommas(members[1..]);
      assert MemberTexts(members)[1..] == MemberTexts(members[1..]);
      assert Sign(',') == [44] && Sign(':') == [58];
      if |members| == 1 { assert SerializeMembers(members[1..]) == []; }
      OneMember(members[0], if |members| > 1 then [44] else [], SerializeMembers(members[1..]));
    }
  }

  lemma OneMember(m: Member, comma: Bytes, rest: Bytes)
    ensures StringText(m.key) + [58] + Serialize(m.value) + comma + rest == MemberText(m) + (comma + rest)
  {
    hide Serialize, StringText;
    assert Sign(':') == [58];
  }

  // --- the theorem ---

  lemma {:induction false} BodyCompacts(v: Value, body: Bytes)
    requires WellFormed(v) && IsBody(v, body)
    ensures CompactsTo(body, Serialize(v))
    decreases v, 1
  {
    hide CompactsTo, Closed;
    match v
    case Array(items) =>
      var inner :| body == Sign('[') + inner + Sign(']') && AreItems(items, inner);
      ItemsCompact(items, inner);
      Between('[', inner, SerializeItems(items), ']');
    case Object(members) =>
      var inner :| body == Sign('{') + inner + Sign('}') && AreMembers(members, inner);
      MembersCompact(members, inner);
      Between('{', inner, SerializeMembers(members), '}');
    case _ =>
      SerializeIsClosed(v);
      ClosedStays(body);
  }

  lemma {:induction false} ItemsCompact(items: seq<Value>, inner: Bytes)
    requires (forall i :: 0 <= i < |items| ==> WellFormed(items[i])) && AreItems(items, inner)
    ensures CompactsTo(inner, SerializeItems(items))
    decreases items, 0
  {
    hide CompactsTo, LaysOut;
    if items == [] {
      WhiteGoes(inner);
    } else {
      var parts :| |parts| == |items| && inner == WithCommas(parts)
                   && forall i :: 0 <= i < |items| ==> LaysOut(items[i], parts[i]);
      forall i | 0 <= i < |items| ensures CompactsTo(parts[i], Texts(items)[i]) {
        LayoutIsCompacted(items[i], parts[i]);
      }
      CommasCompact(parts, Texts(items));
      ItemsWithCommas(items);
    }
  }

  lemma {:induction false} MembersCompact(members: seq<Member>, inner: Bytes)
    requires (forall i :: 0 <= i < |members| ==> WellFormed(members[i].value)) && AreMembers(members, inner)
    ensures CompactsTo(inner, SerializeMembers(members))
    decreases members, 0
  {
    hide CompactsTo, LaysOutMember;
    if members == [] {
      WhiteGoes(inner);
    } else {
      var parts :| |parts| == |members| && inner == WithCommas(parts)
                   && forall i :: 0 <= i < |members| ==> LaysOutMember(members[i], parts[i]);
      forall i | 0 <= i < |members| ensures CompactsTo(parts[i], MemberTexts(members)[i]) {
        MemberCompacts(members[i], parts[i]);
      }
      CommasCompact(parts, MemberTexts(members));
      MembersWithCommas(members);
    }
  }

  lemma {:induction false} MemberCompacts(m: Member, part: Bytes)
    requires WellFormed(m.value) && LaysOutMember(m, part)
    ensures CompactsTo(part, MemberText(m))
    decreases m, 3
  {
    hide CompactsTo, LaysOut;
    var a, b, t :|
      IsWhite(a) && IsWhite(b) && LaysOut(m.value, t) && part == a + StringText(m.key) + b + (Sign(':') + t);
    LayoutIsCompacted(m.value, t);
    NameAndValueCompact(m, a, b, t);
  }

  lemma NameAndValueCompact(m: Member, a: Bytes, b: Bytes, t: Bytes)
    requires IsWhite(a) && IsWhite(b) && CompactsTo(t, Serialize(m.value))
    ensures CompactsTo(a + StringText(m.key) + b + (Sign(':') + t), MemberText(m))
  {
    hide CompactsTo, Serialize, StringText, Sign;
    StringIsClosed(m.key);
    ClosedStays(StringText(m.key));
    Around(a, StringText(m.key), StringText(m.key), b);
    SignStays(':');
    PartsCompact(Sign(':'), Sign(':'), t, Serialize(m.value));
    PartsCompact(a + StringText(m.key) + b, StringText(m.key), Sign(':') + t, Sign(':') + Serialize(m.value));
  }

  /** Whatever white space stands around the tokens of a JSON text, and however strings look that hold some, compacting
      the text gives the value's text without any. */
  lemma {:induction false} LayoutIsCompacted(v: Value, t: Bytes)
    requires WellFormed(v) && LaysOut(v, t)
    ensures Compact(t) == Serialize(v)
    ensures CompactsTo(t, Serialize(v))
    decreases v, 2
  {
    var a, body, b :| IsWhite(a) && IsWhite(b) && t == a + body + b && IsBody(v, body);
    BodyCompacts(v, body);
    Around(a, body, Serialize(v), b);
  }
}
