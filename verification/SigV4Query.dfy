/** The canonical query string of a SigV4 signature: `url_decode`, `aws_percent_encode` and
    `canonical_query_string`, on UTF-8 text as bytes. */
module SigV4Query {
  import opened Common
  import opened Utf8
  import opened StableSort

  const AMP: Byte := 38
  const EQUALS: Byte := 61
  const PERCENT: Byte := 37

  // --- splitting and joining ---

  function SplitBytes(s: Bytes, c: Byte): (r: seq<Bytes>)
    ensures |r| > 0
  {
    if s == [] then [[]]
    else
      var rest := SplitBytes(s[1..], c);
      if s[0] == c then [[]] + rest else [[s[0]] + rest[0]] + rest[1..]
  }

  function JoinBytes(parts: seq<Bytes>, c: Byte): Bytes {
    if parts == [] then [] else if |parts| == 1 then parts[0] else parts[0] + [c] + JoinBytes(parts[1..], c)
  }

  // --- percent encoding ---

  predicate IsUnreserved(b: Byte) {
    48 <= b <= 57 || 65 <= b <= 90 || 97 <= b <= 122 || b == 45 || b == 95 || b == 46 || b == 126
  }

  function UpperHex(d: nat): Byte
    requires d < 16
  {
    if d < 10 then 48 + d else 55 + d
  }

  function HexDigit(b: Byte): Option<nat> {
    if 48 <= b <= 57 then Some(b - 48)
    else if 65 <= b <= 70 then Some(b - 55)
    else if 97 <= b <= 102 then Some(b - 87)
    else None
  }

  function EncodeByte(b: Byte): Bytes {
    if IsUnreserved(b) then [b] else [PERCENT, UpperHex(b / 16), UpperHex(b % 16)]
  }

  function PercentEncode(s: Bytes): Bytes {
    if s == [] then [] else EncodeByte(s[0]) + PercentEncode(s[1..])
  }

  /** The byte an escape at the head of `s` stands for. */
  function EscapeAtHead(s: Bytes): (r: Option<Byte>)
    ensures r.Some? ==> |s| > 2
  {
    if |s| > 2 && s[0] == PERCENT && HexDigit(s[1]).Some? && HexDigit(s[2]).Some?
    then Some(HexValue2(HexDigit(s[1]).value, HexDigit(s[2]).value)) else None
  }

  function HexValue2(hi: nat, lo: nat): Byte {
    if hi < 16 && lo < 16 then hi * 16 + lo else 0
  }

  function DecodeBytes(s: Bytes): Bytes {
    if s == [] then []
    else if EscapeAtHead(s).Some? then [EscapeAtHead(s).value] + DecodeBytes(s[3..])
    else [if s[0] == 43 then 32 else s[0]] + DecodeBytes(s[1..])
  }

  function UrlDecode(s: Bytes): Bytes {
    Lossy(DecodeBytes(s))
  }

  /** The loop of `aws_percent_encode`. */
  method PercentEncodeLoop(value: Bytes) returns (out: Bytes)
    ensures out == PercentEncode(value)
  {
    hide EncodeByte;
    out := [];
    assert value[0..] == value;
    for i := 0 to |value|
      invariant out + PercentEncode(value[i..]) == PercentEncode(value)
    {
      assert value[i..][1..] == value[i + 1..];
      out := out + EncodeByte(value[i]);
    }
    assert value[|value|..] == [];
  }

  /** The loop of `url_decode`. */
  method UrlDecodeLoop(s: Bytes) returns (text: Bytes)
    ensures text == UrlDecode(s)
  {
    hide EscapeAtHead, Lossy, DecodeBytes;
    var out: Bytes := [];
    var i := 0;
    DecodeEnds(out, s);
    while i < |s|
      invariant i <= |s| && out + DecodeBytes(s[i..]) == DecodeBytes(s)
    {
      var escape := EscapeAtHead(s[i..]);
      DecodeStep(out, s, i);
      if escape.Some? {
        out := out + [escape.value];
        i := i + 3;
      } else {
        out := out + [if s[i] == 43 then 32 else s[i]];
        i := i + 1;
      }
    }
    DecodeEnds(out, s);
    return Lossy(out);
  }

  lemma DecodeEnds(out: Bytes, s: Bytes)
    ensures out + DecodeBytes(s[|s|..]) == out
    ensures [] + DecodeBytes(s[0..]) == DecodeBytes(s)
  {
    assert s[0..] == s && DecodeBytes(s[|s|..]) == [];
  }

  lemma DecodeStep(out: Bytes, s: Bytes, i: nat)
    requires i < |s|
    ensures var escape := EscapeAtHead(s[i..]);
            && (escape.Some?
                ==> i + 3 <= |s| && out + DecodeBytes(s[i..]) == out + [escape.value] + DecodeBytes(s[i + 3..]))
            && (escape.None?
                ==> out + DecodeBytes(s[i..]) == out + [if s[i] == 43 then 32 else s[i]] + DecodeBytes(s[i + 1..]))
  {
    hide EscapeAtHead;
    var t := s[i..];
    assert t[1..] == s[i + 1..] && t[0] == s[i];
    if EscapeAtHead(t).Some? { assert t[3..] == s[i + 3..]; }
  }

  // --- the canonical query ---

  datatype Pair = Pair(key: Bytes, value: Bytes)

  function DecodeItem(item: Bytes): Pair {
    match SplitOnce(item, EQUALS)
    case Some(p) => Pair(UrlDecode(p.0), UrlDecode(p.1))
    case None => Pair(UrlDecode(item), UrlDecode([]))
  }

  function EncodePair(p: Pair): Bytes {
    PercentEncode(p.key) + [EQUALS] + PercentEncode(p.value)
  }

  /** The order of Rust strings. */
  predicate BytesLe(a: Bytes, b: Bytes) {
    a == [] || (b != [] && (a[0] < b[0] || (a[0] == b[0] && BytesLe(a[1..], b[1..]))))
  }

  predicate PairLe(p: Pair, q: Pair) {
    if p.key == q.key then BytesLe(p.value, q.value) else BytesLe(p.key, q.key)
  }

  function DecodeItems(items: seq<Bytes>): seq<Pair> {
    Map(DecodeItem, items)
  }

  function EncodePairs(pairs: seq<Pair>): (r: seq<Bytes>)
    ensures |r| == |pairs| && forall i :: 0 <= i < |r| ==> r[i] == EncodePair(pairs[i])
  {
    seq(|pairs|, i requires 0 <= i < |pairs| => EncodePair(pairs[i]))
  }

  function CanonicalQuery(query: Bytes): Bytes {
    if query == [] then []
    else JoinBytes(EncodePairs(Sort(PairLe, DecodeItems(SplitBytes(query, AMP)))), AMP)
  }

  /** `canonical_query_string`. */
  method CanonicalQueryString(query: Bytes) returns (r: Bytes)
    ensures r == CanonicalQuery(query)
  {
    if query == [] { return []; }
    var items := SplitBytes(query, AMP);
    var pairs: seq<Pair> := [];
    for i := 0 to |items|
      invariant pairs == DecodeItems(items[..i])
    {
      MapAppend(DecodeItem, items[..i], items[i]);
      var p := SplitOnce(items[i], EQUALS);
      if p.Some? {
        var key := UrlDecodeLoop(p.value.0);
        var value := UrlDecodeLoop(p.value.1);
        pairs := pairs + [Pair(key, value)];
      } else {
        var key := UrlDecodeLoop(items[i]);
        pairs := pairs + [Pair(key, UrlDecode([]))];
      }
      assert items[..i + 1] == items[..i] + [items[i]];
    }
    assert items[..|items|] == items;
    pairs := Sort(PairLe, pairs);
    return JoinBytes(EncodePairs(pairs), AMP);
  }

  // --- decoding undoes encoding ---

  lemma HexRoundTrip(b: Byte)
    ensures HexDigit(UpperHex(b / 16)) == Some(b / 16) && HexDigit(UpperHex(b % 16)) == Some(b % 16)
    ensures HexValue2(b / 16, b % 16) == b
  {
  }

  lemma {:induction false} DecodeUndoesEncode(s: Bytes)
    ensures DecodeBytes(PercentEncode(s)) == s
  {
    hide HexDigit, UpperHex, HexValue2;
    if s != [] {
      DecodeUndoesEncode(s[1..]);
      var e, rest := EncodeByte(s[0]), PercentEncode(s[1..]);
      var t := e + rest;
      if IsUnreserved(s[0]) {
        assert t[1..] == rest && t[0] == s[0];
      } else {
        HexRoundTrip(s[0]);
        assert t[3..] == rest && t[1] == e[1] && t[2] == e[2];
      }
    }
  }

  /** Percent encoding and decoding of UTF-8 text are inverse. */
  lemma UrlDecodeUndoesEncode(s: Bytes)
    requires ValidUtf8(s)
    ensures UrlDecode(PercentEncode(s)) == s
  {
    DecodeUndoesEncode(s);
    LossyKeepsUtf8(s);
  }

  lemma {:induction false} EncodedIsPlain(s: Bytes)
    ensures AMP !in PercentEncode(s) && EQUALS !in PercentEncode(s)
  {
    if s != [] { EncodedIsPlain(s[1..]); }
  }

  lemma ItemRoundTrip(p: Pair)
    requires ValidUtf8(p.key) && ValidUtf8(p.value)
    ensures DecodeItem(EncodePair(p)) == p
    ensures AMP !in EncodePair(p) && EncodePair(p) != []
  {
    hide UrlDecode, PercentEncode, SplitOnce;
    EncodedIsPlain(p.key);
    EncodedIsPlain(p.value);
    SplitOnceFirst(PercentEncode(p.key), EQUALS, PercentEncode(p.value));
    UrlDecodeUndoesEncode(p.key);
    UrlDecodeUndoesEncode(p.value);
  }

  lemma {:induction false} SplitPrefix(a: Bytes, c: Byte, b: Bytes)
    requires c !in a
    ensures SplitBytes(a + [c] + b, c) == [a] + SplitBytes(b, c)
    ensures SplitBytes(a, c) == [a]
  {
    if a == [] {
      assert a + [c] + b == [c] + b;
    } else {
      assert (a + [c] + b)[1..] == a[1..] + [c] + b;
      SplitPrefix(a[1..], c, b);
      assert a == [a[0]] + a[1..];
    }
  }

  lemma {:induction false} SplitOfJoin(parts: seq<Bytes>, c: Byte)
    requires parts != [] && forall i :: 0 <= i < |parts| ==> c !in parts[i]
    ensures SplitBytes(JoinBytes(parts, c), c) == parts
  {
    if |parts| == 1 {
      SplitPrefix(parts[0], c, []);
      assert parts == [parts[0]];
    } else {
      SplitPrefix(parts[0], c, JoinBytes(parts[1..], c));
      SplitOfJoin(parts[1..], c);
      assert parts == [parts[0]] + parts[1..];
    }
  }

  // --- the order of pairs is total ---

  lemma {:induction false} BytesLeIsTotal(a: Bytes, b: Bytes)
    ensures BytesLe(a, b) || BytesLe(b, a)
    ensures BytesLe(a, b) && BytesLe(b, a) ==> a == b
  {
    if a != [] && b != [] {
      BytesLeIsTotal(a[1..], b[1..]);
      assert a == [a[0]] + a[1..] && b == [b[0]] + b[1..];
    }
  }

  lemma {:induction false} BytesLeIsTransitive(a: Bytes, b: Bytes, c: Bytes)
    requires BytesLe(a, b) && BytesLe(b, c)
    ensures BytesLe(a, c)
  {
    if a != [] && b != [] && c != [] && a[0] == b[0] == c[0] {
      BytesLeIsTransitive(a[1..], b[1..], c[1..]);
    }
  }

  lemma PairLeIsTotal(p: Pair, q: Pair)
    ensures PairLe(p, q) || PairLe(q, p)
    ensures PairLe(p, q) && PairLe(q, p) ==> p == q
  {
    BytesLeIsTotal(p.key, q.key);
    BytesLeIsTotal(p.value, q.value);
  }

  lemma PairLeIsTransitive(p: Pair, q: Pair, r: Pair)
    requires PairLe(p, q) && PairLe(q, r)
    ensures PairLe(p, r)
  {
    if p.key == q.key && q.key == r.key {
      BytesLeIsTransitive(p.value, q.value, r.value);
    } else if p.key != q.key && q.key != r.key {
      BytesLeIsTransitive(p.key, q.key, r.key);
      BytesLeIsTotal(p.key, q.key);
    }
  }

  lemma PairsAreOrdered(pairs: seq<Pair>)
    ensures PreorderOn(PairLe, pairs) && AntisymmetricOn(PairLe, pairs)
  {
    forall p, q | p in pairs && q in pairs
      ensures (PairLe(p, q) || PairLe(q, p)) && (PairLe(p, q) && PairLe(q, p) ==> p == q)
    {
      PairLeIsTotal(p, q);
    }
    forall p, q, r | p in pairs && q in pairs && r in pairs && PairLe(p, q) && PairLe(q, r)
      ensures PairLe(p, r)
    {
      PairLeIsTransitive(p, q, r);
    }
  }

  // --- main results ---

  lemma DecodedIsUtf8(items: seq<Bytes>)
    ensures forall p :: p in DecodeItems(items) ==> ValidUtf8(p.key) && ValidUtf8(p.value)
  {
    MapAt(DecodeItem, items);
    forall i | 0 <= i < |items|
      ensures ValidUtf8(DecodeItem(items[i]).key) && ValidUtf8(DecodeItem(items[i]).value)
    {
      DecodedItemIsUtf8(items[i]);
    }
  }

  lemma DecodedItemIsUtf8(item: Bytes)
    ensures ValidUtf8(DecodeItem(item).key) && ValidUtf8(DecodeItem(item).value)
  {
    var s := SplitOnce(item, EQUALS);
    LossyIsUtf8(DecodeBytes(if s.Some? then s.value.0 else item));
    LossyIsUtf8(DecodeBytes(if s.Some? then s.value.1 else []));
  }

  lemma EncodedDecodesBack(pairs: seq<Pair>)
    requires pairs != [] && forall p :: p in pairs ==> ValidUtf8(p.key) && ValidUtf8(p.value)
    ensures JoinBytes(EncodePairs(pairs), AMP) != []
    ensures DecodeItems(SplitBytes(JoinBytes(EncodePairs(pairs), AMP), AMP)) == pairs
  {
    hide EncodePair, DecodeItem, ValidUtf8;
    var parts := EncodePairs(pairs);
    forall i | 0 <= i < |pairs|
      ensures AMP !in parts[i] && parts[i] != [] && DecodeItem(parts[i]) == pairs[i]
    {
      assert pairs[i] in pairs;
      ItemRoundTrip(pairs[i]);
    }
    SplitOfJoin(parts, AMP);
    MapAt(DecodeItem, parts);
    assert parts[0] != [];
  }

  /** Canonicalizing twice is canonicalizing once. */
  lemma CanonicalQueryIsIdempotent(query: Bytes)
    ensures CanonicalQuery(CanonicalQuery(query)) == CanonicalQuery(query)
  {
    hide EncodePair, DecodeItem, ValidUtf8, PairLe, JoinBytes, SplitBytes;
    if query != [] {
      var decoded := DecodeItems(SplitBytes(query, AMP));
      var pairs := Sort(PairLe, decoded);
      DecodedIsUtf8(SplitBytes(query, AMP));
      SortIsPermutation(PairLe, decoded);
      SameElements(pairs, decoded);
      PairsAreOrdered(decoded);
      SortIsSorted(PairLe, decoded);
      EncodedDecodesBack(pairs);
      SortOfSorted(PairLe, pairs);
    }
  }

  lemma {:induction false} SplitIsEmptyOnlyOnEmpty(s: Bytes)
    ensures SplitBytes(s, AMP) == [[]] <==> s == []
  {
    if s != [] {
      assert if s[0] == AMP then |SplitBytes(s, AMP)| >= 2 else SplitBytes(s, AMP)[0] != [];
    }
  }

  /** Putting the items of a query in another order does not change its canonical form. */
  lemma CanonicalQueryForgetsOrder(q1: Bytes, q2: Bytes)
    requires multiset(SplitBytes(q1, AMP)) == multiset(SplitBytes(q2, AMP))
    ensures CanonicalQuery(q1) == CanonicalQuery(q2)
  {
    hide DecodeItem, PairLe, EncodePair, SplitBytes, JoinBytes;
    var (a, b) := (SplitBytes(q1, AMP), SplitBytes(q2, AMP));
    SplitIsEmptyOnlyOnEmpty(q1);
    SplitIsEmptyOnlyOnEmpty(q2);
    SingletonItems(a, b);
    SingletonItems(b, a);
    MapOfPermutation(DecodeItem, a, b);
    PairsAreOrdered(DecodeItems(a));
    SortForgetsOrder(PairLe, DecodeItems(a), DecodeItems(b));
  }

  lemma SingletonItems(a: seq<Bytes>, b: seq<Bytes>)
    requires multiset(a) == multiset(b)
    ensures a == [[]] ==> b == [[]]
  {
    assert |multiset(a)| == |a| && |multiset(b)| == |b|;
    if a == [[]] {
      assert b[0] in multiset(a);
    }
  }
}
