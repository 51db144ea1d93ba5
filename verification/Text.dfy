/** Decimal text: the parts of Rust's formatting and trimming that the services use. */
module Text {

  function DigitChar(d: int): char
    requires 0 <= d < 10
  {
    '0' + d as char
  }

  /** `{}` of a non-negative integer. */
  function Decimal(n: nat): string {
    if n < 10 then [DigitChar(n)] else Decimal(n / 10) + [DigitChar(n % 10)]
  }

  function PadLeft(s: string, width: nat): string
    decreases width - |s|
  {
    if |s| >= width then s else PadLeft("0" + s, width)
  }

  function PadRight(s: string, width: nat): string
    decreases width - |s|
  {
    if |s| >= width then s else PadRight(s + "0", width)
  }

  /** `{:0w}` of an integer: the sign counts toward the width. */
  function ZeroPadded(n: int, width: nat): string {
    if n >= 0 then PadLeft(Decimal(n), width)
    else "-" + PadLeft(Decimal(-n), if width == 0 then 0 else width - 1)
  }

  /** `trim_end_matches(c)`. */
  function TrimEndChar(s: string, c: char): string {
    if |s| > 0 && s[|s| - 1] == c then TrimEndChar(s[..|s| - 1], c) else s
  }

  /** `n` in exactly `width` digits. */
  function Fixed(n: nat, width: nat): (s: string)
    ensures |s| == width
  {
    if width == 0 then "" else Fixed(n / 10, width - 1) + [DigitChar(n % 10)]
  }

  function Pow10(k: nat): nat {
    if k == 0 then 1 else 10 * Pow10(k - 1)
  }

  lemma {:induction false} PadLeftPrepends(s: string, t: string, width: nat)
    requires |s| <= width
    ensures PadLeft(s + t, width + |t|) == PadLeft(s, width) + t
    decreases width - |s|
  {
    if |s| < width {
      assert "0" + (s + t) == ("0" + s) + t;
      PadLeftPrepends("0" + s, t, width);
    }
  }

  lemma {:induction false} FixedZero(width: nat)
    ensures PadLeft("", width) == Fixed(0, width)
  {
    if width > 0 {
      PadLeftPrepends("", "0", width - 1);
      FixedZero(width - 1);
      assert "" + "0" == "0" && "0" + "" == "0";
    }
  }

  lemma {:induction false} ZeroPaddedIsFixed(n: nat, width: nat)
    requires width > 0 && n < Pow10(width)
    ensures PadLeft(Decimal(n), width) == Fixed(n, width)
  {
    if n < 10 {
      PadLeftPrepends("", Decimal(n), width - 1);
      FixedZero(width - 1);
      assert "" + Decimal(n) == Decimal(n);
    } else {
      assert width > 1;
      DecimalFits(n / 10, width - 1);
      ZeroPaddedIsFixed(n / 10, width - 1);
      PadLeftPrepends(Decimal(n / 10), [DigitChar(n % 10)], width - 1);
    }
  }

  lemma {:induction false} DecimalFits(n: nat, width: nat)
    requires width > 0 && n < Pow10(width)
    ensures 1 <= |Decimal(n)| <= width
  {
    if n >= 10 { DecimalFits(n / 10, width - 1); }
  }

  lemma {:induction false} FixedIsDigits(n: nat, width: nat)
    ensures forall i :: 0 <= i < width ==> '0' <= Fixed(n, width)[i] <= '9'
  {
    if width > 0 { FixedIsDigits(n / 10, width - 1); }
  }

  lemma {:induction false} PadRightRestoresTrimmedZeros(s: string)
    ensures |TrimEndChar(s, '0')| <= |s|
    ensures PadRight(TrimEndChar(s, '0'), |s|) == s
  {
    if |s| > 0 && s[|s| - 1] == '0' {
      var t := s[..|s| - 1];
      PadRightRestoresTrimmedZeros(t);
      PadRightOneMore(TrimEndChar(t, '0'), |t|);
      assert s == t + "0";
    }
  }

  lemma {:induction false} PadRightOneMore(s: string, width: nat)
    requires |s| <= width
    ensures PadRight(s, width + 1) == PadRight(s, width) + "0"
    decreases width - |s|
  {
    if |s| < width {
      PadRightOneMore(s + "0", width);
    } else {
      assert |s + "0"| == width + 1;
    }
  }

  // --- the order of strings ---

  predicate LexLess(a: string, b: string) {
    b != [] && (a == [] || a[0] < b[0] || (a[0] == b[0] && LexLess(a[1..], b[1..])))
  }

  lemma {:induction false} LexLessOfEqualLengths(a: string, b: string, r: string, s: string)
    requires |a| == |b|
    ensures LexLess(a + r, b + s) <==> LexLess(a, b) || (a == b && LexLess(r, s))
  {
    if a == [] {
      assert a + r == r && b + s == s;
    } else {
      assert (a + r)[1..] == a[1..] + r && (b + s)[1..] == b[1..] + s;
      LexLessOfEqualLengths(a[1..], b[1..], r, s);
      assert a == [a[0]] + a[1..] && b == [b[0]] + b[1..];
    }
  }

  lemma {:induction false} FixedOrder(a: nat, b: nat, width: nat)
    requires a < Pow10(width) && b < Pow10(width)
    ensures LexLess(Fixed(a, width), Fixed(b, width)) <==> a < b
    ensures Fixed(a, width) == Fixed(b, width) <==> a == b
  {
    if width > 0 {
      FixedOrder(a / 10, b / 10, width - 1);
      LexLessOfEqualLengths(Fixed(a / 10, width - 1), Fixed(b / 10, width - 1),
                            [DigitChar(a % 10)], [DigitChar(b % 10)]);
      var x, y := Fixed(a, width), Fixed(b, width);
      assert x[..width - 1] == Fixed(a / 10, width - 1) && y[..width - 1] == Fixed(b / 10, width - 1);
      assert x[width - 1] == DigitChar(a % 10) && y[width - 1] == DigitChar(b % 10);
    }
  }
}
