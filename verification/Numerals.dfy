/** Integers as text: `parse::<i64>` and `to_string`, on bytes. */
module Numerals {
  import opened Common

  const TWO_TO_THE_63 := 0x8000_0000_0000_0000
  const TWO_TO_THE_64 := 0x1_0000_0000_0000_0000

  predicate IsI64(n: int) {
    -TWO_TO_THE_63 <= n < TWO_TO_THE_63
  }

  /** The two's complement reading of `n` in 64 bits. */
  function Wrap(n: int): (r: int)
    ensures IsI64(r) && (r - n) % TWO_TO_THE_64 == 0
    ensures IsI64(n) ==> r == n
  {
    (n + TWO_TO_THE_63) % TWO_TO_THE_64 - TWO_TO_THE_63
  }

  predicate AllDigits(s: Bytes) {
    forall i :: 0 <= i < |s| ==> 48 <= s[i] <= 57
  }

  function DigitsValue(s: Bytes): nat
    requires AllDigits(s)
  {
    if s == [] then 0 else 10 * DigitsValue(s[..|s| - 1]) + (s[|s| - 1] - 48)
  }

  /** An optional sign and at least one digit. */
  function ParseInt(s: Bytes): Option<int> {
    var digits := if s != [] && (s[0] == 43 || s[0] == 45) then s[1..] else s;
    if digits == [] || !AllDigits(digits) then None
    else
      var value: int := DigitsValue(digits);
      Some(if s[0] == 45 then -value else value)
  }

  /** `str::parse::<i64>`. */
  function ParseI64(s: Bytes): Option<int> {
    var n := ParseInt(s);
    if n.Some? && IsI64(n.value) then n else None
  }

  function ShowNat(n: nat): Bytes {
    if n < 10 then [48 + n] else ShowNat(n / 10) + [48 + n % 10]
  }

  /** `i64::to_string`. */
  function ShowInt(n: int): Bytes {
    if n < 0 then [45] + ShowNat(-n) else ShowNat(n)
  }

  lemma {:induction false} ShowNatReadsBack(n: nat)
    ensures ShowNat(n) != [] && AllDigits(ShowNat(n)) && DigitsValue(ShowNat(n)) == n
  {
    if n < 10 {
      assert ShowNat(n)[..0] == [];
    } else {
      ShowNatReadsBack(n / 10);
      assert ShowNat(n)[..|ShowNat(n)| - 1] == ShowNat(n / 10);
    }
  }

  /** What is shown is read back. */
  lemma ShowIntReadsBack(n: int)
    ensures ParseInt(ShowInt(n)) == Some(n)
    ensures IsI64(n) ==> ParseI64(ShowInt(n)) == Some(n)
  {
    hide DigitsValue, ShowNat;
    if n < 0 {
      ShowNatReadsBack(-n);
      assert ShowInt(n)[1..] == ShowNat(-n);
    } else {
      ShowNatReadsBack(n);
      assert ShowNat(n)[0] != 43 && ShowNat(n)[0] != 45;
    }
  }

  /** Decimal digits of `n`, the last one for the remainder by ten. */
  predicate IsNumeral(s: Bytes, n: nat) {
    && s != [] && s[|s| - 1] as char == "0123456789"[n % 10]
    && if |s| == 1 then n < 10 else IsNumeral(s[..|s| - 1], n / 10)
  }

  /** Digits, after a sign or without one. */
  predicate IsDecimalText(s: Bytes, n: int) {
    || (n >= 0 && IsNumeral(s, n))
    || (s != [] && s[0] as char == '+' && n >= 0 && IsNumeral(s[1..], n))
    || (s != [] && s[0] as char == '-' && n <= 0 && IsNumeral(s[1..], -n))
  }

  lemma DigitCharacters(b: Byte, k: nat)
    requires k < 10
    ensures b as char == "0123456789"[k] <==> b == 48 + k
  {
  }

  lemma DigitsStep(s: Bytes)
    requires s != []
    ensures AllDigits(s) <==> AllDigits(s[..|s| - 1]) && 48 <= s[|s| - 1] <= 57
    ensures AllDigits(s) ==> DigitsValue(s) == 10 * DigitsValue(s[..|s| - 1]) + (s[|s| - 1] - 48)
  {
    var (init, last) := (s[..|s| - 1], s[|s| - 1]);
    assert s == init + [last];
  }

  lemma {:induction false} NumeralIsDigits(s: Bytes, n: nat)
    ensures IsNumeral(s, n) <==> s != [] && AllDigits(s) && DigitsValue(s) == n
  {
    if s != [] {
      var init := s[..|s| - 1];
      DigitsStep(s);
      DigitCharacters(s[|s| - 1], n % 10);
      hide AllDigits;
      if |s| == 1 {
        assert init == [];
      } else {
        NumeralIsDigits(init, n / 10);
      }
    }
  }

  /** What is parsed is the integer of 64 bits that the text says, and a text that says none is refused. */
  lemma ParseIsDecimal(s: Bytes, n: int)
    ensures ParseI64(s) == Some(n) <==> IsDecimalText(s, n) && -0x8000_0000_0000_0000 <= n <= 0x7fff_ffff_ffff_ffff
  {
    hide IsNumeral, DigitsValue, AllDigits;
    if n >= 0 { NumeralIsDigits(s, n); }
    if s != [] {
      NumeralIsDigits(s[1..], if n < 0 then -n else n);
      if 48 <= s[0] <= 57 {
      } else {
        SignIsNoDigit(s);
      }
    }
  }

  lemma SignIsNoDigit(s: Bytes)
    requires s != [] && !(48 <= s[0] <= 57)
    ensures !AllDigits(s)
  {
  }

  /** Sums taken step by step in 64 bits are the sum taken once. */
  lemma WrapAdds(a: int, b: int)
    ensures Wrap(Wrap(a) + b) == Wrap(a + b)
  {
    WrapIsCongruent(Wrap(a) + b, a + b, (Wrap(a) - a) / TWO_TO_THE_64);
  }

  lemma WrapIsCongruent(a: int, b: int, k: int)
    requires a - b == TWO_TO_THE_64 * k
    ensures Wrap(a) == Wrap(b)
  {
    var (x, y) := (a + TWO_TO_THE_63, b + TWO_TO_THE_63);
    assert x == y + TWO_TO_THE_64 * k;
    ShiftedRemainder(y, k);
  }

  lemma ShiftedRemainder(y: int, k: int)
    ensures (y + TWO_TO_THE_64 * k) % TWO_TO_THE_64 == y % TWO_TO_THE_64
  {
  }
}
