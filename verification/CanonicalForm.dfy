/** The canonical query string, said without the code that makes it: how it is written, how a query is read,
    and in which order the pairs stand. */
module CanonicalForm {
  import opened Common
  import opened Utf8
  import Q = SigV4Query
  import StableSort

  const AMPERSAND: Byte := '&' as int
  const EQUALS_SIGN: Byte := '=' as int

  // --- writing ---

  /** The unreserved characters of section 2.3 of RFC 3986. */
  predicate Unreserved(c: char) {
    'A' <= c <= 'Z' || 'a' <= c <= 'z' || '0' <= c <= '9' || c in "-_.~"
  }

  const UPPER_DIGITS: string := "0123456789ABCDEF"
  const LOWER_DIGITS: string := "0123456789abcdef"

  function AsByte(c: char): Byte {
    if c < 256 as char then c as int else 0
  }

  /** An unreserved byte stands for itself, any other is a percent sign and two digits in upper case. */
  function Spelled(b: Byte): Bytes {
    if Unreserved(b as char) then [b]
    else ['%' as int, AsByte(UPPER_DIGITS[b / 16]), AsByte(UPPER_DIGITS[b % 16])]
  }

  function SpelledText(s: Bytes): Bytes {
    if s == [] then [] else Spelled(s[0]) + SpelledText(s[1..])
  }

  function Joined(parts: seq<Bytes>, separator: Byte): Bytes {
    if parts == [] then []
    else if |parts| == 1 then parts[0]
    else parts[0] + ([separator] + Joined(parts[1..], separator))
  }

  function SpelledPairs(pairs: seq<Q.Pair>): (r: seq<Bytes>)
    ensures |r| == |pairs|
    ensures forall i :: 0 <= i < |r| ==>
              r[i] == SpelledText(pairs[i].key) + [EQUALS_SIGN] + SpelledText(pairs[i].value)
  {
    seq(|pairs|, i requires 0 <= i < |pairs| =>
      SpelledText(pairs[i].key) + [EQUALS_SIGN] + SpelledText(pairs[i].value))
  }

  // --- reading ---

  /** The byte is this digit, in either case. */
  predicate IsDigit(b: Byte, v: nat) {
    v < 16 && (b as char == UPPER_DIGITS[v] || b as char == LOWER_DIGITS[v])
  }

  /** `out` is what the text stands for: a percent sign and two digits for a byte, a plus sign for a space, and
      any other byte for itself. */
  ghost predicate StandsFor(s: Bytes, out: Bytes) {
    if s == [] then out == []
    else if |s| >= 3 && s[0] as char == '%' && (exists hi: nat, lo: nat :: IsDigit(s[1], hi) && IsDigit(s[2], lo)) then
      && out != [] && (exists hi: nat, lo: nat :: IsDigit(s[1], hi) && IsDigit(s[2], lo) && out[0] == 16 * hi + lo)
      && StandsFor(s[3..], out[1..])
    else out != [] && out[0] == (if s[0] as char == '+' then ' ' as int else s[0]) && StandsFor(s[1..], out[1..])
  }

  /** The item is read as this pair: what stands before its first equals sign, and after it if there is one. */
  ghost predicate IsReadAs(item: Bytes, p: Q.Pair) {
    exists i: nat, key, value ::
      && i <= |item| && EQUALS_SIGN !in item[..i] && (i < |item| ==> item[i] == EQUALS_SIGN)
      && StandsFor(item[..i], key) && p.key == Lossy(key)
      && StandsFor(if i < |item| then item[i + 1..] else [], value) && p.value == Lossy(value)
  }

  /** By key, then by value. */
  ghost predicate PairBelow(p: Q.Pair, q: Q.Pair) {
    TextBelow(p.key, q.key) || (p.key == q.key && TextBelow(p.value, q.value))
  }

  // --- the canonical form ---

  /** The pairs that the items are read as, each as often as it is there, none below an earlier one, written
      out. */
  ghost predicate IsCanonicalOf(text: Bytes, items: seq<Bytes>, pairs: seq<Q.Pair>) {
    && (exists read: seq<Q.Pair> :: |read| == |items| && (forall i :: 0 <= i < |read| ==> IsReadAs(items[i], read[i]))
          && multiset(pairs) == multiset(read))
    && (forall i, j :: 0 <= i < j < |pairs| ==> !PairBelow(pairs[j], pairs[i]))
    && text == Joined(SpelledPairs(pairs), AMPERSAND)
  }

  // --- the code does that ---

  lemma UnreservedAre(b: Byte)
    ensures Unreserved(b as char) <==> Q.IsUnreserved(b)
  {
  }

  lemma DigitsAre(d: nat)
    requires d < 16
    ensures AsByte(UPPER_DIGITS[d]) == Q.UpperHex(d)
  {
  }

  lemma {:induction false} EncodedIsSpelled(s: Bytes)
    ensures Q.PercentEncode(s) == SpelledText(s)
  {
    if s != [] {
      EncodedIsSpelled(s[1..]);
      ByteIsSpelled(s[0]);
    }
  }

  lemma ByteIsSpelled(b: Byte)
    ensures Q.EncodeByte(b) == Spelled(b)
  {
    UnreservedAre(b);
    DigitsAre(b / 16);
    DigitsAre(b % 16);
  }

  lemma DigitIsRead(b: Byte, v: nat)
    ensures IsDigit(b, v) <==> Q.HexDigit(b) == Some(v)
  {
  }

  lemma {:induction false} DecodedStandsFor(s: Bytes)
    ensures StandsFor(s, Q.DecodeBytes(s))
  {
    hide IsDigit, Q.HexDigit;
    if s != [] {
      forall b: Byte, v: nat ensures IsDigit(b, v) <==> Q.HexDigit(b) == Some(v) {
        DigitIsRead(b, v);
      }
      if Q.EscapeAtHead(s).Some? {
        DecodedStandsFor(s[3..]);
        EscapeIsTwoDigits(s);
      } else {
        DecodedStandsFor(s[1..]);
      }
    }
  }

  lemma EscapeIsTwoDigits(s: Bytes)
    requires Q.EscapeAtHead(s).Some?
    ensures var (hi, lo) := (Q.HexDigit(s[1]).value, Q.HexDigit(s[2]).value);
            IsDigit(s[1], hi) && IsDigit(s[2], lo) && Q.EscapeAtHead(s).value == 16 * hi + lo
  {
    DigitIsRead(s[1], Q.HexDigit(s[1]).value);
    DigitIsRead(s[2], Q.HexDigit(s[2]).value);
  }

  lemma {:induction false} JoinIsJoined(parts: seq<Bytes>)
    ensures Q.JoinBytes(parts, Q.AMP) == Joined(parts, AMPERSAND)
  {
    if |parts| > 1 {
      JoinIsJoined(parts[1..]);
      assert parts[0] + [Q.AMP] + Q.JoinBytes(parts[1..], Q.AMP)
             == parts[0] + ([Q.AMP] + Q.JoinBytes(parts[1..], Q.AMP));
    }
  }

  lemma {:induction false} SplitIsJoined(s: Bytes)
    ensures var items := Q.SplitBytes(s, Q.AMP);
            s == Joined(items, AMPERSAND) && forall i :: 0 <= i < |items| ==> AMPERSAND !in items[i]
  {
    if s != [] {
      SplitIsJoined(s[1..]);
      var rest := Q.SplitBytes(s[1..], Q.AMP);
      assert s == [s[0]] + s[1..];
      if s[0] == Q.AMP {
        assert ([[]] + rest)[1..] == rest;
      } else {
        assert ([[s[0]] + rest[0]] + rest[1..])[1..] == rest[1..];
      }
    }
  }

  lemma ItemIsRead(item: Bytes)
    ensures IsReadAs(item, Q.DecodeItem(item))
  {
    hide StandsFor, Lossy, Q.DecodeBytes;
    var s := SplitOnce(item, Q.EQUALS);
    SplitOnceCuts(item, Q.EQUALS);
    if s.Some? {
      var i := |s.value.0|;
      DecodedStandsFor(s.value.0);
      DecodedStandsFor(s.value.1);
      assert item[..i] == s.value.0 && item[i + 1..] == s.value.1;
    } else {
      DecodedStandsFor(item);
      DecodedStandsFor([]);
      assert item[..|item|] == item;
    }
  }

  lemma {:induction false} OrderIsBelow(a: Bytes, b: Bytes)
    ensures Q.BytesLe(a, b) <==> !TextBelow(b, a)
  {
    hide TextBelow;
    TextBelowStep(b, a);
    if a != [] && b != [] { OrderIsBelow(a[1..], b[1..]); }
  }

  lemma PairOrderIsBelow(p: Q.Pair, q: Q.Pair)
    ensures Q.PairLe(p, q) <==> !PairBelow(q, p)
  {
    hide TextBelow, Q.BytesLe;
    OrderIsBelow(p.key, q.key);
    OrderIsBelow(q.key, p.key);
    OrderIsBelow(p.value, q.value);
    Q.BytesLeIsTotal(p.key, q.key);
  }

  lemma PairsAreSpelled(pairs: seq<Q.Pair>)
    ensures Q.EncodePairs(pairs) == SpelledPairs(pairs)
  {
    hide SpelledText, Q.PercentEncode;
    forall s ensures Q.PercentEncode(s) == SpelledText(s) {
      EncodedIsSpelled(s);
    }
  }

  // --- main result ---

  /** The canonical form of a query: its items, between its ampersands, read as pairs, in order and written out. */
  lemma CanonicalFormIs(query: Bytes) returns (items: seq<Bytes>, pairs: seq<Q.Pair>)
    requires query != []
    ensures query == Joined(items, AMPERSAND) && forall i :: 0 <= i < |items| ==> AMPERSAND !in items[i]
    ensures IsCanonicalOf(Q.CanonicalQuery(query), items, pairs)
    ensures Q.CanonicalQuery([]) == []
  {
    hide IsReadAs, PairBelow, Q.DecodeItem, Q.PairLe, SpelledPairs, Q.EncodePairs;
    items := Q.SplitBytes(query, Q.AMP);
    SplitIsJoined(query);
    var read := Q.DecodeItems(items);
    pairs := StableSort.Sort(Q.PairLe, read);
    StableSort.MapAt(Q.DecodeItem, items);
    forall i | 0 <= i < |items| ensures IsReadAs(items[i], read[i]) {
      ItemIsRead(items[i]);
    }
    Q.PairsAreOrdered(read);
    StableSort.SortIsPermutation(Q.PairLe, read);
    StableSort.SortIsSorted(Q.PairLe, read);
    forall i, j | 0 <= i < j < |pairs| ensures !PairBelow(pairs[j], pairs[i]) {
      PairOrderIsBelow(pairs[i], pairs[j]);
    }
    PairsAreSpelled(pairs);
    JoinIsJoined(SpelledPairs(pairs));
  }
}
