/** A timestamp's text read by section 5.6 of RFC 3339: it is the instant it was made from. */
module TimestampReader {
  import opened Calendar
  import opened Common
  import opened Text
  import opened Timestamp

  // --- a reader ---

  predicate AreDigits(s: string) {
    s != "" && forall i :: 0 <= i < |s| ==> '0' <= s[i] <= '9'
  }

  function ValueOf(s: string): nat
    requires s == "" || AreDigits(s)
  {
    if s == "" then 0 else 10 * ValueOf(s[..|s| - 1]) + (s[|s| - 1] as int - '0' as int)
  }

  /** The two digits at a place. */
  function TwoDigits(s: string, i: nat): Option<nat> {
    if i + 2 <= |s| && AreDigits(s[i..i + 2]) then Some(ValueOf(s[i..i + 2])) else None
  }

  /** A fraction of a second in nanoseconds: nothing, or a point and at most nine digits. */
  function Nanoseconds(s: string): Option<nat> {
    if s == "" then Some(0)
    else if s[0] == '.' && AreDigits(s[1..]) && |s| <= 10 then Some(ValueOf(s[1..]) * Pow10(10 - |s|))
    else None
  }

  /** A date, `T`, a time of day, a fraction and `Z`: seconds since 1970-01-01 and nanoseconds. */
  function ReadInstant(text: string): Option<(int, nat)> {
    match SplitOnce(text, '-')
    case None => None
    case Some((year, rest)) =>
      var (month, day) := (TwoDigits(rest, 0), TwoDigits(rest, 3));
      var (hour, minute, second) := (TwoDigits(rest, 6), TwoDigits(rest, 9), TwoDigits(rest, 12));
      if !AreDigits(year) || |year| < 4 || month.None? || day.None? || hour.None? || minute.None? || second.None?
         || |rest| < 15 || rest[2] != '-' || rest[5] != 'T' || rest[8] != ':' || rest[11] != ':'
         || rest[|rest| - 1] != 'Z'
      then None
      else
        var date := Date(ValueOf(year), month.value, day.value);
        var nanos := Nanoseconds(rest[14..|rest| - 1]);
        if !ValidDate(date) || hour.value > 23 || minute.value > 59 || second.value > 59 || nanos.None? then None
        else Some((86400 * DayNumber(date) + 3600 * hour.value + 60 * minute.value + second.value, nanos.value))
  }

  // --- reading digits back ---

  lemma {:induction false} FixedIsRead(n: nat, width: nat)
    requires n < Pow10(width) && width > 0
    ensures AreDigits(Fixed(n, width)) && ValueOf(Fixed(n, width)) == n
  {
    var s := Fixed(n, width);
    FixedIsDigits(n, width);
    assert s[..width - 1] == Fixed(n / 10, width - 1) && s[width - 1] == DigitChar(n % 10);
    if width == 1 {
      assert s[..0] == "" && n < 10 by { assert Pow10(1) == 10 * Pow10(0); }
    } else {
      FixedIsRead(n / 10, width - 1);
    }
  }

  lemma {:induction false} TrimmedIsScaled(s: string)
    requires s == "" || AreDigits(s)
    ensures var t := TrimEndChar(s, '0');
            |t| <= |s| && (t == "" || AreDigits(t)) && ValueOf(t) * Pow10(|s| - |t|) == ValueOf(s)
  {
    var t := TrimEndChar(s, '0');
    if s != "" && s[|s| - 1] == '0' {
      var r := s[..|s| - 1];
      TrimmedIsScaled(r);
      var k := |r| - |t|;
      assert Pow10(k + 1) == 10 * Pow10(k);
      assert ValueOf(t) * Pow10(k + 1) == 10 * (ValueOf(t) * Pow10(k));
    } else {
      assert Pow10(0) == 1;
    }
  }

  lemma FractionIsRead(nanos: nat)
    requires nanos < NANOS_PER_SECOND
    ensures var frac := TrimEndChar(Fixed(nanos, 9), '0');
            Nanoseconds(if nanos > 0 then "." + frac else "") == Some(nanos)
  {
    assert Pow10(9) == 1_000_000_000 by { assert Pow10(4) == 10000; assert Pow10(8) == 10000 * Pow10(4); }
    FixedIsRead(nanos, 9);
    TrimmedIsScaled(Fixed(nanos, 9));
    var frac := TrimEndChar(Fixed(nanos, 9), '0');
    hide Fixed, TrimEndChar, Pow10;
    if nanos > 0 { assert ("." + frac)[1..] == frac; }
  }

  // --- the text of a timestamp ---

  /** What follows the year. */
  function AfterYear(v: seq<nat>, fraction: string): string
    requires |v| == 7
  {
    Fixed(v[1], 2) + "-" + Fixed(v[2], 2) + "T" + Fixed(v[3], 2) + ":" + Fixed(v[4], 2) + ":" + Fixed(v[5], 2)
    + fraction + "Z"
  }

  lemma PlacesInTail(a: string, b: string, c: string, d: string, e: string, fraction: string)
    requires |a| == |b| == |c| == |d| == |e| == 2
    ensures var s := a + "-" + b + "T" + c + ":" + d + ":" + e + fraction + "Z";
            && |s| == 15 + |fraction| && s[2] == '-' && s[5] == 'T' && s[8] == ':' && s[11] == ':' && s[|s| - 1] == 'Z'
            && s[0..2] == a && s[3..5] == b && s[6..8] == c && s[9..11] == d && s[12..14] == e
            && s[14..|s| - 1] == fraction
  {
  }

  lemma TextAfterYear(v: seq<nat>, w: nat, fraction: string)
    requires |v| == 7
    ensures Head(v, w) + fraction + "Z" == Fixed(v[0], w) + ['-'] + AfterYear(v, fraction)
  {
    hide Fixed;
  }

  lemma NoDash(year: nat, w: nat)
    ensures '-' !in Fixed(year, w)
  {
    FixedIsDigits(year, w);
  }

  lemma TwoAreRead(n: nat)
    requires n < 100
    ensures AreDigits(Fixed(n, 2)) && ValueOf(Fixed(n, 2)) == n
  {
    assert Pow10(2) == 100;
    FixedIsRead(n, 2);
  }

  lemma TwoAt(s: string, i: nat, n: nat)
    requires i + 2 <= |s| && n < 100 && s[i..i + 2] == Fixed(n, 2)
    ensures TwoDigits(s, i) == Some(n)
  {
    TwoAreRead(n);
  }

  lemma FieldsInTail(v: seq<nat>, fraction: string)
    requires |v| == 7 && forall i :: 1 <= i < 6 ==> v[i] < 100
    ensures var s := AfterYear(v, fraction);
            && |s| >= 15 && s[2] == '-' && s[5] == 'T' && s[8] == ':' && s[11] == ':' && s[|s| - 1] == 'Z'
            && TwoDigits(s, 0) == Some(v[1]) && TwoDigits(s, 3) == Some(v[2]) && TwoDigits(s, 6) == Some(v[3])
            && TwoDigits(s, 9) == Some(v[4]) && TwoDigits(s, 12) == Some(v[5]) && s[14..|s| - 1] == fraction
  {
    hide Fixed, TwoDigits;
    var s := AfterYear(v, fraction);
    PlacesInTail(Fixed(v[1], 2), Fixed(v[2], 2), Fixed(v[3], 2), Fixed(v[4], 2), Fixed(v[5], 2), fraction);
    TwoAt(s, 0, v[1]);
    TwoAt(s, 3, v[2]);
    TwoAt(s, 6, v[3]);
    TwoAt(s, 9, v[4]);
    TwoAt(s, 12, v[5]);
  }

  lemma TailIsRead(v: seq<nat>, year: string, fraction: string, nanos: nat)
    requires |v| == 7 && AreDigits(year) && |year| >= 4 && ValueOf(year) == v[0] && '-' !in year
    requires forall i :: 1 <= i < 6 ==> v[i] < 100
    requires ValidDate(Date(v[0], v[1], v[2])) && v[3] < 24 && v[4] < 60 && v[5] < 60
    requires Nanoseconds(fraction) == Some(nanos)
    ensures ReadInstant(year + ['-'] + AfterYear(v, fraction))
            == Some((86400 * DayNumber(Date(v[0], v[1], v[2])) + 3600 * v[3] + 60 * v[4] + v[5], nanos))
  {
    hide SplitOnce, Nanoseconds, ValidDate, DayNumber, AreDigits, ValueOf, AfterYear, TwoDigits;
    SplitOnceFirst(year, '-', AfterYear(v, fraction));
    FieldsInTail(v, fraction);
  }

  lemma FieldsAreInRange(secs: int, nanos: nat)
    requires FromYearZero(secs, nanos)
    ensures var v := Values(secs, nanos);
            && (forall i :: 1 <= i < 6 ==> v[i] < 100) && v[3] < 24 && v[4] < 60 && v[5] < 60
            && ValidDate(Date(v[0], v[1], v[2])) && v[0] < Pow10(WidthOf(v[0]))
            && secs == 86400 * DayNumber(Date(v[0], v[1], v[2])) + 3600 * v[3] + 60 * v[4] + v[5]
  {
    hide WidthOf, CivilFromDays;
    CivilFromDaysIsInverse(secs / 86400);
    YearFits(Values(secs, nanos)[0]);
  }

  /** From year 0 on, the text of an instant, read by the standard, is that instant. */
  lemma TextIsTheInstant(secs: int, nanos: nat)
    requires FromYearZero(secs, nanos)
    ensures ReadInstant(Rfc3339(secs, nanos)) == Some((secs, nanos))
  {
    hide WidthOf, Rfc3339, Values, ReadInstant, Head, AfterYear, Fixed, TrimEndChar, Nanoseconds, ValidDate, DayNumber;
    hide AreDigits, ValueOf, Pow10;
    var v := Values(secs, nanos);
    var w := WidthOf(v[0]);
    var fraction := if nanos > 0 then "." + TrimEndChar(Fixed(nanos, 9), '0') else "";
    HeadOfRfc3339(secs, nanos);
    FieldsAreInRange(secs, nanos);
    TextAfterYear(v, w, fraction);
    FixedIsRead(v[0], w);
    NoDash(v[0], w);
    FractionIsRead(nanos);
    TailIsRead(v, Fixed(v[0], w), fraction, nanos);
  }
}
