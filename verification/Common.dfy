/** Shared result types, bytes, and the search for a subsequence. */
module Common {

  datatype Option<+T> = None | Some(value: T)

  datatype Result<+T, +E> = Ok(value: T) | Err(error: E)

  type Byte = x: int | 0 <= x < 256

  type Bytes = seq<Byte>

  const CRLF: Bytes := [13, 10]

  /** `default_string`. */
  function DefaultString(value: string, fallback: string): string {
    if value == "" then fallback else value
  }

  lemma Regroup<T>(a: seq<T>, b: seq<T>, c: seq<T>)
    ensures (a + b) + c == a + (b + c)
  {
  }

  predicate OccursAt<T(==)>(haystack: seq<T>, needle: seq<T>, i: nat) {
    i + |needle| <= |haystack| && haystack[i..i + |needle|] == needle
  }

  /** The first position at or after `from` where `needle` occurs. */
  function FindFrom<T(==)>(haystack: seq<T>, needle: seq<T>, from: nat): (r: Option<nat>)
    requires from <= |haystack|
    ensures r.Some? ==> from <= r.value && OccursAt(haystack, needle, r.value)
    ensures r.Some? ==> forall j: nat :: from <= j < r.value ==> !OccursAt(haystack, needle, j)
    ensures r.None? ==> forall j: nat :: from <= j ==> !OccursAt(haystack, needle, j)
    decreases |haystack| - from
  {
    if OccursAt(haystack, needle, from) then Some(from)
    else if from == |haystack| then None
    else FindFrom(haystack, needle, from + 1)
  }

  /** `find_subslice`, and `str::find`: the position of the first occurrence. */
  function Find<T(==)>(haystack: seq<T>, needle: seq<T>): (r: Option<nat>)
    ensures r.Some? ==> OccursAt(haystack, needle, r.value)
    ensures r.Some? ==> forall j: nat :: j < r.value ==> !OccursAt(haystack, needle, j)
    ensures r.None? ==> forall j: nat :: !OccursAt(haystack, needle, j)
  {
    FindFrom(haystack, needle, 0)
  }

  /** `split_once`, and `cut`: what stands before the first `c` and after it, if there is one. */
  function SplitOnce<T(==)>(s: seq<T>, c: T): (r: Option<(seq<T>, seq<T>)>)
    ensures r.Some? ==> |r.value.1| < |s|
  {
    if s == [] then None
    else if s[0] == c then Some(([], s[1..]))
    else
      match SplitOnce(s[1..], c)
      case None => None
      case Some(p) => Some(([s[0]] + p.0, p.1))
  }

  lemma {:induction false} SplitOnceFirst<T>(a: seq<T>, c: T, b: seq<T>)
    requires c !in a
    ensures SplitOnce(a + [c] + b, c) == Some((a, b))
    ensures SplitOnce(a, c) == None
  {
    if a == [] {
      assert a + [c] + b == [c] + b;
    } else {
      assert (a + [c] + b)[1..] == a[1..] + [c] + b;
      SplitOnceFirst(a[1..], c, b);
      assert a == [a[0]] + a[1..];
    }
  }

  lemma {:induction false} SplitOnceCuts<T>(s: seq<T>, c: T)
    ensures var r := SplitOnce(s, c);
            if r.None? then c !in s else c !in r.value.0 && s == r.value.0 + [c] + r.value.1
  {
    if s != [] && s[0] != c {
      SplitOnceCuts(s[1..], c);
      assert s == [s[0]] + s[1..];
    }
  }

  predicate Contains<T(==)>(haystack: seq<T>, needle: seq<T>) {
    Find(haystack, needle).Some?
  }

  lemma OccursInPrefix<T>(a: seq<T>, b: seq<T>, needle: seq<T>, i: nat)
    requires i + |needle| <= |a|
    ensures OccursAt(a + b, needle, i) <==> OccursAt(a, needle, i)
  {
    assert (a + b)[i..i + |needle|] == a[i..i + |needle|];
  }

  lemma OccursShift<T>(a: seq<T>, b: seq<T>, needle: seq<T>, j: nat)
    requires j >= |a|
    ensures OccursAt(a + b, needle, j) <==> OccursAt(b, needle, j - |a|)
  {
    if j + |needle| <= |a + b| { assert (a + b)[j..j + |needle|] == b[j - |a|..j - |a| + |needle|]; }
  }

  /** Where nothing is found in the head, what is found is found in the rest. */
  lemma FindAfter<T>(a: seq<T>, b: seq<T>, needle: seq<T>)
    requires forall j: nat :: j < |a| ==> !OccursAt(a + b, needle, j)
    ensures Find(a + b, needle) == if Find(b, needle).None? then None else Some(|a| + Find(b, needle).value)
  {
    forall j: nat | j >= |a| ensures OccursAt(a + b, needle, j) <==> OccursAt(b, needle, j - |a|) {
      OccursShift(a, b, needle, j);
    }
    var r := Find(b, needle);
    if r.Some? { FindIs(a + b, needle, |a| + r.value); }
  }

  /** What was found stays found, at the same place, when the text grows at its end. */
  lemma FindInPrefix<T>(a: seq<T>, b: seq<T>, needle: seq<T>)
    ensures Find(a, needle).Some? ==> Find(a + b, needle) == Find(a, needle)
    ensures Find(a, needle).None? && Find(a + b, needle).Some? ==> Find(a + b, needle).value + |needle| > |a|
  {
    var r := Find(a + b, needle);
    if Find(a, needle).Some? {
      OccursInPrefix(a, b, needle, Find(a, needle).value);
    }
    if r.Some? && r.value + |needle| <= |a| {
      OccursInPrefix(a, b, needle, r.value);
    }
  }

  lemma FindIs<T>(haystack: seq<T>, needle: seq<T>, i: nat)
    requires OccursAt(haystack, needle, i)
    requires forall j: nat :: j < i ==> !OccursAt(haystack, needle, j)
    ensures Find(haystack, needle) == Some(i)
  {
  }

  // --- the order of texts ---

  /** Up to some place the texts agree, and there the first ends or has the smaller byte. */
  ghost predicate TextBelow(a: Bytes, b: Bytes) {
    exists n: nat :: n <= |a| && n < |b| && a[..n] == b[..n] && (n == |a| || a[n] < b[n])
  }

  lemma TextBelowStep(a: Bytes, b: Bytes)
    ensures a == [] ==> (TextBelow(a, b) <==> b != [])
    ensures b == [] ==> !TextBelow(a, b)
    ensures a != [] && b != [] ==> (TextBelow(a, b) <==> a[0] < b[0] || (a[0] == b[0] && TextBelow(a[1..], b[1..])))
  {
    if a == [] && b != [] {
      assert a[..0] == b[..0];
    } else if a != [] && b != [] {
      if a[0] < b[0] {
        assert a[..0] == b[..0];
      } else if TextBelow(a, b) {
        var n: nat :| n <= |a| && n < |b| && a[..n] == b[..n] && (n == |a| || a[n] < b[n]);
        assert n > 0 && a[..n][0] == b[..n][0];
        assert a[1..][..n - 1] == a[..n][1..] && b[1..][..n - 1] == b[..n][1..];
      }
      if a[0] == b[0] && TextBelow(a[1..], b[1..]) {
        var n: nat :| n <= |a[1..]| && n < |b[1..]| && a[1..][..n] == b[1..][..n]
            && (n == |a[1..]| || a[1..][n] < b[1..][n]);
        assert a[..n + 1] == [a[0]] + a[1..][..n] && b[..n + 1] == [b[0]] + b[1..][..n];
      }
    }
  }
}
