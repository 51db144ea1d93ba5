/** Texts made of words with single spaces between them. */
module Words {
  import opened Common
  import opened RustStr

  predicate IsWord(s: string) {
    s != "" && forall i :: 0 <= i < |s| ==> !IsWhitespace(s[i])
  }

  predicate AllWords(words: seq<string>) {
    forall i :: 0 <= i < |words| ==> IsWord(words[i])
  }

  /** Text with no white space at either end. */
  predicate Tight(s: string) {
    s != "" && !IsWhitespace(s[0]) && !IsWhitespace(s[|s| - 1])
  }

  /** What may follow a word: nothing, or a space and tight text. */
  predicate IsTail(s: string) {
    s == "" || (s[0] == ' ' && Tight(s[1..]))
  }

  function AfterSpace(tail: string): string {
    if tail == "" then "" else tail[1..]
  }

  // --- trimming ---

  lemma TrimTight(s: string)
    requires Tight(s)
    ensures Trim(s) == s && Trim(" " + s) == s
  {
    TrimOfTight(s);
    assert (" " + s)[1..] == s;
  }

  lemma TrimTail(tail: string)
    requires IsTail(tail)
    ensures Trim(tail) == AfterSpace(tail) && Trim(AfterSpace(tail)) == AfterSpace(tail)
  {
    if tail != "" {
      assert tail == " " + tail[1..];
      TrimTight(tail[1..]);
    }
  }

  lemma TightConcat(a: string, b: string)
    requires Tight(a) && Tight(b)
    ensures Tight(a + " " + b)
  {
  }

  lemma TightWithTail(a: string, tail: string)
    requires Tight(a) && IsTail(tail)
    ensures Tight(a + tail) && IsTail(" " + a + tail)
  {
    assert (" " + a + tail)[1..] == a + tail;
  }

  /** The end of a text is trimmed in what follows its last character that is not white space. */
  lemma {:induction false} TrimEndAfter(a: string, b: string)
    requires a != "" && !IsWhitespace(a[|a| - 1])
    ensures TrimEnd(a + b) == a + TrimEnd(b)
  {
    if b == "" {
      assert a + b == a;
    } else if IsWhitespace(b[|b| - 1]) {
      assert (a + b)[..|a + b| - 1] == a + b[..|b| - 1];
      TrimEndAfter(a, b[..|b| - 1]);
    }
  }

  lemma {:induction false} TrimEndEnds(s: string)
    ensures TrimEnd(s) != "" ==> !IsWhitespace(TrimEnd(s)[|TrimEnd(s)| - 1])
    ensures TrimEnd(s) <= s
  {
    if s != "" && IsWhitespace(s[|s| - 1]) { TrimEndEnds(s[..|s| - 1]); }
  }

  /** After tight text, only the end of what follows is trimmed. */
  lemma TrimAfter(a: string, b: string)
    requires Tight(a)
    ensures Trim(a + b) == a + TrimEnd(b)
  {
    TrimEndAfter(a, b);
    assert TrimStart(a + b) == a + b;
  }

  predicate IsBlank(s: string) {
    forall i :: 0 <= i < |s| ==> IsWhitespace(s[i])
  }

  lemma BlankParts(a: string, b: string)
    ensures IsBlank(a + b) <==> IsBlank(a) && IsBlank(b)
  {
    var s := a + b;
    assert forall i :: 0 <= i < |a| ==> s[i] == a[i];
    assert forall i :: 0 <= i < |b| ==> s[|a| + i] == b[i];
  }

  lemma BlankChar(c: char)
    ensures IsBlank([c]) <==> IsWhitespace(c)
  {
    hide IsWhitespace;
    var s := [c];
    assert s[0] == c;
  }

  lemma {:induction false} BlankAtEnd(s: string)
    ensures TrimEnd(s) == "" <==> IsBlank(s)
  {
    hide IsBlank, IsWhitespace;
    if s == "" {
      NoneIsBlank();
    } else {
      var (init, last) := (s[..|s| - 1], s[|s| - 1]);
      BlankAtEnd(init);
      assert s == init + [last];
      BlankParts(init, [last]);
      BlankChar(last);
    }
  }

  lemma {:induction false} BlankAtStart(s: string)
    ensures TrimStart(s) == "" <==> IsBlank(s)
    ensures IsBlank(TrimStart(s)) <==> IsBlank(s)
  {
    hide IsBlank, IsWhitespace;
    NoneIsBlank();
    if s != "" {
      BlankAtStart(s[1..]);
      assert s == [s[0]] + s[1..];
      BlankParts([s[0]], s[1..]);
      BlankChar(s[0]);
    }
  }

  lemma NoneIsBlank()
    ensures IsBlank("")
  {
  }

  /** Trimming what follows a space: all is trimmed exactly when there is nothing but white space. */
  lemma TrimAfterSpace(s: string)
    ensures Trim(s) == "" <==> IsBlank(s)
    ensures TrimEnd(" " + s) == if IsBlank(s) then "" else " " + TrimEnd(s)
  {
    hide IsBlank, TrimStart, TrimEnd;
    BlankAtStart(s);
    BlankAtEnd(TrimStart(s));
    if IsBlank(s) { BlankAfterSpace(s); } else { NotBlankAfter(s); }
  }

  lemma {:induction false} NotBlankAfter(s: string)
    requires !IsBlank(s)
    ensures TrimEnd(" " + s) == " " + TrimEnd(s) && TrimEnd(s) != ""
  {
    BlankAtEnd(s);
    hide IsBlank;
    NoneIsBlank();
    if IsWhitespace(s[|s| - 1]) {
      assert (" " + s)[..|s|] == " " + s[..|s| - 1];
      BlankAtEnd(s[..|s| - 1]);
      NotBlankAfter(s[..|s| - 1]);
    }
  }

  lemma BlankAfterSpace(s: string)
    requires IsBlank(s)
    ensures TrimEnd(" " + s) == ""
  {
    assert IsBlank(" " + s);
    BlankAtEnd(" " + s);
  }

  /** A tail whose end is trimmed, also after a part of it has been cut off, is a tail. */
  lemma TrimmedTail(tail: string, n: nat)
    requires IsTail(tail) && n <= |tail|
    ensures IsTail(TrimEnd(tail[..n]))
  {
    if n > 1 {
      var (a, b) := (tail[..2], tail[2..n]);
      assert tail[..n] == a + b;
      TrimEndAfter(a, b);
      TrimEndEnds(b);
      var t := a + TrimEnd(b);
      assert t[1..] == [tail[1]] + TrimEnd(b);
    } else {
      assert tail[..n] == "" || tail[..n] == " ";
      assert TrimEnd(" ") == TrimEnd("") == "";
    }
  }

  // --- joined words ---

  lemma {:induction false} JoinIsTight(words: seq<string>)
    requires words != [] && AllWords(words)
    ensures Tight(Join(words, " "))
  {
    if |words| > 1 {
      JoinIsTight(words[1..]);
      TightConcat(words[0], Join(words[1..], " "));
    }
  }

  lemma {:induction false} JoinConcat(a: seq<string>, b: seq<string>, sep: string)
    requires a != [] && b != []
    ensures Join(a + b, sep) == Join(a, sep) + sep + Join(b, sep)
  {
    assert (a + b)[1..] == a[1..] + b;
    if |a| > 1 {
      JoinConcat(a[1..], b, sep);
      assert a[0] + sep + (Join(a[1..], sep) + sep + Join(b, sep))
             == (a[0] + sep + Join(a[1..], sep)) + sep + Join(b, sep);
    } else {
      assert a[1..] + b == b;
    }
  }

  lemma {:induction false} WordThen(w: string, tail: string)
    requires IsWord(w) && (tail == "" || tail[0] == ' ')
    ensures SplitWhitespace(w + tail) == [w] + SplitWhitespace(tail)
  {
    var t := w + tail;
    if |w| == 1 {
      assert t[1..] == tail && [t[0]] == w;
    } else {
      WordThen(w[1..], tail);
      assert t[1..] == w[1..] + tail;
      assert [w[0]] + w[1..] == w;
    }
  }

  /** Splitting joined words gives the words. */
  lemma {:induction false} SplitOfJoin(words: seq<string>)
    requires AllWords(words)
    ensures SplitWhitespace(Join(words, " ")) == words
  {
    if words != [] {
      var tail := if |words| == 1 then "" else " " + Join(words[1..], " ");
      assert Join(words, " ") == words[0] + tail;
      WordThen(words[0], tail);
      SplitOfJoin(words[1..]);
      if |words| > 1 { assert tail[1..] == Join(words[1..], " "); }
      assert words == [words[0]] + words[1..];
    }
  }

  // --- where a word stands ---

  function SpaceAt(s: string): nat {
    if s == "" || s[0] == ' ' then 0 else 1 + SpaceAt(s[1..])
  }

  lemma {:induction false} SpaceAfterWord(w: string, rest: string)
    requires IsWord(w) && (rest == "" || rest[0] == ' ')
    ensures SpaceAt(w + rest) == |w|
  {
    assert (w + rest)[1..] == w[1..] + rest;
    assert IsWhitespace(' ');
    if |w| > 1 { SpaceAfterWord(w[1..], rest); } else { assert w[1..] + rest == rest; }
  }

  lemma WordEndsAtSpace(w: string, kw: string, rest: string)
    requires IsWord(w) && IsWord(kw) && (rest == "" || rest[0] == ' ')
    ensures kw + " " <= w + rest ==> w == kw
  {
    var t := w + rest;
    if kw + " " <= t {
      SpaceAfterWord(w, rest);
      assert t == kw + t[|kw|..] && t[|kw|] == (kw + " ")[|kw|];
      SpaceAfterWord(kw, t[|kw|..]);
      assert t[..|w|] == w && t[..|kw|] == kw;
    }
  }

  lemma OccursStarts(t: string, needle: string, j: nat)
    requires needle != ""
    ensures OccursAt(t, needle, j) ==> j < |t| && t[j] == needle[0]
  {
    if OccursAt(t, needle, j) { assert t[j..j + |needle|][0] == t[j]; }
  }

  lemma SpacedPrefix(kw: string, x: string)
    ensures OccursAt(" " + x, " " + kw + " ", 0) ==> kw + " " <= x
  {
    var (t, needle) := (" " + x, " " + kw + " ");
    if OccursAt(t, needle, 0) {
      assert t[0..|needle|][1..] == x[..|kw| + 1] && needle[1..] == kw + " ";
    }
  }

  /** Words other than `kw` hide no occurrence of `kw` between spaces. */
  lemma {:induction false} NoEarlierWord(words: seq<string>, kw: string, rest: string, j: nat)
    requires words != [] && AllWords(words) && kw !in words[1..] && IsWord(kw)
    requires (rest == "" || rest[0] == ' ') && j < |Join(words, " ")|
    ensures !OccursAt(Join(words, " ") + rest, " " + kw + " ", j)
  {
    var (w, needle) := (words[0], " " + kw + " ");
    var t := Join(words, " ") + rest;
    OccursStarts(t, needle, j);
    assert IsWhitespace(' ');
    if j >= |w| {
      var after := Join(words[1..], " ") + rest;
      assert t == w + (" " + after) && t == (w + " ") + after;
      hide OccursAt, Join;
      if j == |w| {
        NotNextWord(words, kw, rest);
      } else {
        OccursShift(w + " ", after, needle, j);
        NoEarlierWord(words[1..], kw, rest, j - |w| - 1);
      }
    } else {
      assert t[j] == w[j];
    }
  }

  lemma NotNextWord(words: seq<string>, kw: string, rest: string)
    requires |words| > 1 && AllWords(words) && kw !in words[1..] && IsWord(kw) && (rest == "" || rest[0] == ' ')
    ensures !OccursAt(words[0] + (" " + (Join(words[1..], " ") + rest)), " " + kw + " ", |words[0]|)
  {
    hide OccursAt, Join;
    var after := Join(words[1..], " ") + rest;
    OccursShift(words[0], " " + after, " " + kw + " ", |words[0]|);
    SpacedPrefix(kw, after);
    NextWordIs(words, kw, rest);
  }

  lemma NextWordIs(words: seq<string>, kw: string, rest: string)
    requires |words| > 1 && AllWords(words) && IsWord(kw) && (rest == "" || rest[0] == ' ')
    ensures kw + " " <= Join(words[1..], " ") + rest ==> words[1] == kw && kw in words[1..]
  {
    var v := words[1];
    var more := (if |words| == 2 then "" else " " + Join(words[2..], " ")) + rest;
    assert words[1..][1..] == words[2..] && words[1..][0] == v;
    assert Join(words[1..], " ") + rest == v + more;
    WordEndsAtSpace(v, kw, more);
  }

  // --- upper case ---

  function UpperWords(words: seq<string>): (r: seq<string>)
    ensures |r| == |words|
    ensures forall i :: 0 <= i < |r| ==> r[i] == Upper(words[i])
  {
    seq(|words|, i requires 0 <= i < |words| => Upper(words[i]))
  }

  lemma {:induction false} UpperOfJoin(words: seq<string>)
    requires AllWords(words)
    ensures Upper(Join(words, " ")) == Join(UpperWords(words), " ") && AllWords(UpperWords(words))
  {
    hide Upper;
    if words != [] {
      UpperOfJoin(words[1..]);
      assert UpperWords(words)[1..] == UpperWords(words[1..]);
      UpperWord(words[0]);
      forall i | 0 <= i < |words| ensures IsWord(UpperWords(words)[i]) { UpperWord(words[i]); }
      if |words| > 1 {
        UpperConcat(words[0] + " ", Join(words[1..], " "));
        UpperConcat(words[0], " ");
        assert Upper(" ") == " ";
      }
    }
  }

  lemma UpperWord(w: string)
    ensures IsWord(w) <==> IsWord(Upper(w))
  {
    forall i | 0 <= i < |w| ensures IsWhitespace(w[i]) <==> IsWhitespace(Upper(w)[i]) {
    }
  }
}
