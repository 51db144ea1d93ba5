/** JSON values and the text `serde_json::to_vec` gives them, as far as the storage passes
    depend on it. */
module JsonText {
  import opened Common
  import opened WireJson

  /** A number is kept as the text it renders to. Object members are in key order. */
  datatype Value =
    | Null
    | Bool(b: bool)
    | Number(text: Bytes)
    | Str(s: Bytes)
    | Array(items: seq<Value>)
    | Object(members: seq<Member>)

  datatype Member = Member(key: Bytes, value: Value)

  predicate IsNumberByte(b: Byte) {
    48 <= b <= 57 || b == 43 || b == 45 || b == 46 || b == 69 || b == 101
  }

  /** Every number's text is made of digits, signs, a point and an exponent mark. */
  predicate WellFormed(v: Value) {
    match v
    case Number(text) => forall i :: 0 <= i < |text| ==> IsNumberByte(text[i])
    case Array(items) => forall i :: 0 <= i < |items| ==> WellFormed(items[i])
    case Object(members) => forall i :: 0 <= i < |members| ==> WellFormed(members[i].value)
    case _ => true
  }

  function LowerHex(d: nat): Byte
    requires d < 16
  {
    if d < 10 then 48 + d else 87 + d
  }

  /** How one byte of a string is written. */
  function CharText(b: Byte): Bytes {
    if b == 34 then [92, 34]
    else if b == 92 then [92, 92]
    else if b == 8 then [92, 98]
    else if b == 9 then [92, 116]
    else if b == 10 then [92, 110]
    else if b == 12 then [92, 102]
    else if b == 13 then [92, 114]
    else if b < 32 then [92, 117, 48, 48, LowerHex(b / 16), LowerHex(b % 16)]
    else [b]
  }

  function StringBody(s: Bytes): Bytes {
    if s == [] then [] else CharText(s[0]) + StringBody(s[1..])
  }

  function StringText(s: Bytes): Bytes {
    [34] + StringBody(s) + [34]
  }

  function Serialize(v: Value): Bytes
    decreases v, 1
  {
    match v
    case Null => [110, 117, 108, 108]
    case Bool(b) => if b then [116, 114, 117, 101] else [102, 97, 108, 115, 101]
    case Number(text) => text
    case Str(s) => StringText(s)
    case Array(items) => [91] + SerializeItems(items) + [93]
    case Object(members) => [123] + SerializeMembers(members) + [125]
  }

  function SerializeItems(items: seq<Value>): Bytes
    decreases items, 0
  {
    if items == [] then []
    else Serialize(items[0]) + (if |items| > 1 then [44] else []) + SerializeItems(items[1..])
  }

  function SerializeMembers(members: seq<Member>): Bytes
    decreases members, 0
  {
    if members == [] then []
    else StringText(members[0].key) + [58] + Serialize(members[0].value)
         + (if |members| > 1 then [44] else []) + SerializeMembers(members[1..])
  }

  /** `wire_json::marshal` of a value. */
  function Marshal(v: Value): Bytes {
    Escape(Serialize(v))
  }

  // --- rendered text has no space outside strings and closes every string ---

  predicate Closed(s: Bytes) {
    Tight(Outside, s) && ModeAfter(Outside, s) == Outside
  }

  lemma ClosedConcat(a: Bytes, b: Bytes)
    requires Closed(a) && Closed(b)
    ensures Closed(a + b)
  {
    TightConcat(Outside, a, b);
    CompactConcat(Outside, a, b);
  }

  lemma {:induction false} PlainIsClosed(s: Bytes)
    requires forall i :: 0 <= i < |s| ==> s[i] != QUOTE && !IsJsonSpace(s[i])
    ensures Closed(s)
  {
    if s != [] { PlainIsClosed(s[1..]); }
  }

  lemma CharStaysInString(b: Byte)
    ensures Tight(InString, CharText(b)) && ModeAfter(InString, CharText(b)) == InString
  {
    var c := CharText(b);
    if |c| == 6 {
      assert c == [c[0], c[1]] + c[2..];
      PlainKeepsMode(InString, c[2..]);
      TwoBytes(InString, c[0], c[1]);
      TightConcat(InString, [c[0], c[1]], c[2..]);
      CompactConcat(InString, [c[0], c[1]], c[2..]);
    } else if |c| == 2 {
      TwoBytes(InString, c[0], c[1]);
      assert c == [c[0], c[1]];
    } else {
      assert c[1..] == [];
    }
  }

  lemma TwoBytes(m: Mode, a: Byte, b: Byte)
    requires m != Outside && (m == InString ==> a == BACKSLASH)
    ensures Tight(m, [a, b]) && ModeAfter(m, [a, b]) == Next(Next(m, a), b)
  {
    var one: Bytes := [b];
    var two: Bytes := [a, b];
    assert one[1..] == [] && ModeAfter(Next(m, a), one) == Next(Next(m, a), b);
    assert two[1..] == one;
  }

  lemma {:induction false} BodyStaysInString(s: Bytes)
    ensures Tight(InString, StringBody(s)) && ModeAfter(InString, StringBody(s)) == InString
  {
    if s != [] {
      CharStaysInString(s[0]);
      BodyStaysInString(s[1..]);
      TightConcat(InString, CharText(s[0]), StringBody(s[1..]));
      CompactConcat(InString, CharText(s[0]), StringBody(s[1..]));
    }
  }

  lemma StringIsClosed(s: Bytes)
    ensures Closed(StringText(s))
  {
    BodyStaysInString(s);
    var body := StringBody(s) + [34];
    TightConcat(InString, StringBody(s), [34]);
    CompactConcat(InString, StringBody(s), [34]);
    assert StringText(s) == [34] + body && ([34] + body)[1..] == body;
    assert [34][1..] == [];
  }

  lemma {:induction false} SerializeIsClosed(v: Value)
    requires WellFormed(v)
    ensures Closed(Serialize(v))
    decreases v, 1
  {
    hide Closed;
    match v
    case Null => PlainIsClosed(Serialize(v));
    case Bool(b) => PlainIsClosed(Serialize(v));
    case Number(text) => PlainIsClosed(text);
    case Str(s) => StringIsClosed(s);
    case Array(items) =>
      ItemsAreClosed(items);
      Bracketed(91, SerializeItems(items), 93);
    case Object(members) =>
      MembersAreClosed(members);
      Bracketed(123, SerializeMembers(members), 125);
  }

  lemma Bracketed(open: Byte, s: Bytes, close: Byte)
    requires Closed(s) && open != QUOTE && close != QUOTE && !IsJsonSpace(open) && !IsJsonSpace(close)
    ensures Closed([open] + s + [close])
  {
    hide Closed;
    PlainIsClosed([open]);
    PlainIsClosed([close]);
    ClosedConcat([open], s);
    ClosedConcat([open] + s, [close]);
  }

  lemma CommaIsClosed(more: bool)
    ensures Closed(if more then [44] else [])
  {
    PlainIsClosed([44]);
    PlainIsClosed([]);
  }

  lemma {:induction false} ItemsAreClosed(items: seq<Value>)
    requires forall i :: 0 <= i < |items| ==> WellFormed(items[i])
    ensures Closed(SerializeItems(items))
    decreases items, 0
  {
    hide Closed;
    CommaIsClosed(|items| > 1);
    if items == [] {
      CommaIsClosed(false);
    } else {
      var comma: Bytes := if |items| > 1 then [44] else [];
      SerializeIsClosed(items[0]);
      ItemsAreClosed(items[1..]);
      ClosedConcat(Serialize(items[0]), comma);
      ClosedConcat(Serialize(items[0]) + comma, SerializeItems(items[1..]));
    }
  }

  lemma {:induction false} MembersAreClosed(members: seq<Member>)
    requires forall i :: 0 <= i < |members| ==> WellFormed(members[i].value)
    ensures Closed(SerializeMembers(members))
    decreases members, 0
  {
    hide Closed;
    CommaIsClosed(|members| > 1);
    if members == [] {
      CommaIsClosed(false);
    } else {
      var comma: Bytes := if |members| > 1 then [44] else [];
      StringIsClosed(members[0].key);
      PlainIsClosed([58]);
      SerializeIsClosed(members[0].value);
      MembersAreClosed(members[1..]);
      var k := StringText(members[0].key);
      ClosedConcat(k, [58]);
      ClosedConcat(k + [58], Serialize(members[0].value));
      ClosedConcat(k + [58] + Serialize(members[0].value), comma);
      ClosedConcat(k + [58] + Serialize(members[0].value) + comma, SerializeMembers(members[1..]));
    }
  }

  /** A marshalled value is already in the form that storage gives to cells: writing it to a table
      and reading it back changes no byte. */
  lemma MarshalledIsStored(v: Value)
    requires WellFormed(v)
    ensures Stored(Marshal(v)) == Marshal(v)
  {
    SerializeIsClosed(v);
    EscapeKeepsTight(Outside, Serialize(v));
    TightIsCompact(Outside, Marshal(v));
    EscapeIsIdempotent(Serialize(v));
  }
}
