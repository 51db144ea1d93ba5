/** RFC 3339 timestamps with trimmed fractions, and the key that orders them. */
module Timestamp {
  import opened Common
  import opened Calendar
  import opened Text

  const NANOS_PER_SECOND := 1_000_000_000

  /** `rfc3339_from_unix`, and the same text in the other two services. */
  function Rfc3339(secs: int, nanos: nat): string {
    var date := CivilFromDays(secs / 86400);
    var sod := secs % 86400;
    var head := ZeroPadded(date.year, 4) + "-" + ZeroPadded(date.month, 2) + "-" + ZeroPadded(date.day, 2)
      + "T" + ZeroPadded(sod / 3600, 2) + ":" + ZeroPadded((sod % 3600) / 60, 2) + ":" + ZeroPadded(sod % 60, 2);
    head + (if nanos > 0 then "." + TrimEndChar(ZeroPadded(nanos, 9), '0') else "") + "Z"
  }

  /** `sortable`. */
  function Sortable(ts: string): string {
    var t := TrimEndChar(ts, 'Z');
    match SplitOnce(t, '.')
    case None => t + "." + PadRight("", 9)
    case Some(parts) => parts.0 + "." + PadRight(parts.1, 9)
  }

  // --- a key is a row of fixed-width fields ---

  datatype Column = Column(width: nat, sep: string)

  function Row(values: seq<nat>, columns: seq<Column>): string
    requires |values| == |columns|
  {
    if values == [] then ""
    else Fixed(values[0], columns[0].width) + columns[0].sep + Row(values[1..], columns[1..])
  }

  predicate RowLess(a: seq<nat>, b: seq<nat>)
    requires |a| == |b|
  {
    a != [] && (a[0] < b[0] || (a[0] == b[0] && RowLess(a[1..], b[1..])))
  }

  predicate Fits(values: seq<nat>, columns: seq<Column>)
    requires |values| == |columns|
  {
    forall i :: 0 <= i < |values| ==> values[i] < Pow10(columns[i].width)
  }

  lemma {:induction false} RowOrder(a: seq<nat>, b: seq<nat>, columns: seq<Column>)
    requires |a| == |b| == |columns| && Fits(a, columns) && Fits(b, columns)
    ensures LexLess(Row(a, columns), Row(b, columns)) <==> RowLess(a, b)
  {
    hide Fixed, LexLess;
    if a == [] {
      LexIrreflexive("");
    } else {
      var c := columns[0];
      var (fa, fb) := (Fixed(a[0], c.width), Fixed(b[0], c.width));
      RowOrder(a[1..], b[1..], columns[1..]);
      FixedOrder(a[0], b[0], c.width);
      LexLessOfEqualLengths(c.sep, c.sep, Row(a[1..], columns[1..]), Row(b[1..], columns[1..]));
      LexIrreflexive(c.sep);
      LexLessOfEqualLengths(fa, fb, c.sep + Row(a[1..], columns[1..]), c.sep + Row(b[1..], columns[1..]));
      assert Row(a, columns) == fa + (c.sep + Row(a[1..], columns[1..]));
      assert Row(b, columns) == fb + (c.sep + Row(b[1..], columns[1..]));
    }
  }

  lemma {:induction false} LexIrreflexive(s: string)
    ensures !LexLess(s, s)
  {
    if s != [] { LexIrreflexive(s[1..]); }
  }

  /** The columns of a key whose year takes `w` digits. */
  function Columns(w: nat): (c: seq<Column>)
    ensures |c| == 7
  {
    [Column(w, "-"), Column(2, "-"), Column(2, "T"), Column(2, ":"), Column(2, ":"), Column(2, "."), Column(9, "")]
  }

  /** From 0000-01-01 to the end of 9999-12-31. */
  const FIRST_DAY := -719528
  const END_DAY := 2932897

  predicate InRange(secs: int, nanos: nat) {
    FIRST_DAY * 86400 <= secs < END_DAY * 86400 && nanos < NANOS_PER_SECOND
  }

  /** These are exactly the days of the years 0 to 9999. */
  lemma DaysOfFourDigitYears(days: int)
    ensures FIRST_DAY <= days < END_DAY <==> 0 <= CivilFromDays(days).year <= 9999
  {
    hide CivilFromDays;
    var (d, first, end) := (CivilFromDays(days), Date(0, 1, 1), Date(10000, 1, 1));
    CivilFromDaysIsInverse(days);
    EndsOfFourDigitYears();
    DayNumberOrdersDates(d, first);
    DayNumberOrdersDates(d, end);
  }

  lemma EndsOfFourDigitYears()
    ensures DayNumber(Date(0, 1, 1)) == FIRST_DAY && DayNumber(Date(10000, 1, 1)) == END_DAY
    ensures ValidDate(Date(0, 1, 1)) && ValidDate(Date(10000, 1, 1))
  {
  }

  /** From 0000-01-01 on. */
  predicate FromYearZero(secs: int, nanos: nat) {
    FIRST_DAY * 86400 <= secs && nanos < NANOS_PER_SECOND
  }

  lemma DaysFromYearZero(days: int)
    ensures FIRST_DAY <= days <==> 0 <= CivilFromDays(days).year
  {
    hide CivilFromDays;
    CivilFromDaysIsInverse(days);
    EndsOfFourDigitYears();
    DayNumberOrdersDates(CivilFromDays(days), Date(0, 1, 1));
  }

  function YearOf(secs: int): int {
    CivilFromDays(secs / 86400).year
  }

  /** How many digits a year is written with: as many as it has, and at least four. */
  function WidthOf(year: nat): (w: nat)
    ensures w >= 4
  {
    if |Decimal(year)| < 4 then 4 else |Decimal(year)|
  }

  function Values(secs: int, nanos: nat): (v: seq<nat>)
    requires FromYearZero(secs, nanos)
    ensures |v| == 7 && v[0] == YearOf(secs)
  {
    var date := CivilFromDays(secs / 86400);
    var sod := secs % 86400;
    CivilFromDaysIsInverse(secs / 86400);
    DaysFromYearZero(secs / 86400);
    [date.year, date.month, date.day, sod / 3600, (sod % 3600) / 60, sod % 60, nanos]
  }

  // --- the text of an instant is its row of fields ---

  /** The date and time of day in fixed-width digits. */
  function Head(v: seq<nat>, w: nat): string
    requires |v| == 7
  {
    Fixed(v[0], w) + "-" + Fixed(v[1], 2) + "-" + Fixed(v[2], 2)
    + "T" + Fixed(v[3], 2) + ":" + Fixed(v[4], 2) + ":" + Fixed(v[5], 2)
  }

  lemma HeadHasNoPoint(v: seq<nat>, w: nat)
    requires |v| == 7
    ensures '.' !in Head(v, w) && |Head(v, w)| == 15 + w && '0' <= Head(v, w)[14 + w] <= '9'
  {
    FixedIsDigits(v[0], w);
    FixedIsDigits(v[1], 2);
    FixedIsDigits(v[2], 2);
    FixedIsDigits(v[3], 2);
    FixedIsDigits(v[4], 2);
    FixedIsDigits(v[5], 2);
  }

  lemma RowIsHead(v: seq<nat>, w: nat)
    requires |v| == 7
    ensures Row(v, Columns(w)) == Head(v, w) + "." + Fixed(v[6], 9)
  {
    var c := Columns(w);
    assert c[0] == Column(w, "-") && c[1] == Column(2, "-") && c[2] == Column(2, "T");
    assert c[3] == Column(2, ":") && c[4] == Column(2, ":") && c[5] == Column(2, ".") && c[6] == Column(9, "");
    TimeRow(v, c);
    DateRow(v, c, w);
    assert v[0..] == v && c[0..] == c;
    hide Row, Fixed;
    var date := Fixed(v[0], w) + "-" + Fixed(v[1], 2) + "-" + Fixed(v[2], 2) + "T";
    SevenParts(date, Fixed(v[3], 2), Fixed(v[4], 2), Fixed(v[5], 2), Fixed(v[6], 9));
  }

  lemma SevenParts(date: string, h: string, m: string, s: string, n: string)
    ensures date + (h + ":" + m + ":" + s + "." + n) == date + h + ":" + m + ":" + s + "." + n
  {
    Regroup(date, h, ":");
    Regroup(date, h + ":", m);
    Regroup(date, h + ":" + m, ":");
    Regroup(date, h + ":" + m + ":", s);
    Regroup(date, h + ":" + m + ":" + s, ".");
    Regroup(date, h + ":" + m + ":" + s + ".", n);
  }

  lemma DateRow(v: seq<nat>, c: seq<Column>, w: nat)
    requires |v| == |c| == 7 && c[0] == Column(w, "-") && c[1] == Column(2, "-") && c[2] == Column(2, "T")
    ensures Row(v[0..], c[0..])
            == Fixed(v[0], w) + "-" + Fixed(v[1], 2) + "-" + Fixed(v[2], 2) + "T" + Row(v[3..], c[3..])
  {
    RowStep(v, c, 0);
    RowStep(v, c, 1);
    RowStep(v, c, 2);
  }

  lemma TimeRow(v: seq<nat>, c: seq<Column>)
    requires |v| == |c| == 7 && c[3] == Column(2, ":") && c[4] == Column(2, ":") && c[5] == Column(2, ".")
             && c[6] == Column(9, "")
    ensures Row(v[3..], c[3..]) == Fixed(v[3], 2) + ":" + Fixed(v[4], 2) + ":" + Fixed(v[5], 2) + "." + Fixed(v[6], 9)
  {
    RowStep(v, c, 3);
    RowStep(v, c, 4);
    RowStep(v, c, 5);
    RowStep(v, c, 6);
    assert v[7..] == [] && Row(v[7..], c[7..]) == "";
  }

  lemma RowStep(v: seq<nat>, columns: seq<Column>, i: nat)
    requires i < |v| == |columns|
    ensures Row(v[i..], columns[i..])
            == Fixed(v[i], columns[i].width) + columns[i].sep + Row(v[i + 1..], columns[i + 1..])
  {
    assert v[i..][1..] == v[i + 1..] && columns[i..][1..] == columns[i + 1..];
  }

  lemma {:induction false} DecimalLength(n: nat)
    ensures |Decimal(n)| >= 1 && n < Pow10(|Decimal(n)|)
    ensures n >= 10 ==> |Decimal(n)| >= 2 && Pow10(|Decimal(n)| - 1) <= n
  {
    if n >= 10 { DecimalLength(n / 10); }
  }

  lemma {:induction false} Pow10Grows(a: nat, b: nat)
    requires a <= b
    ensures 0 < Pow10(a) <= Pow10(b)
  {
    if a < b { Pow10Grows(a, b - 1); } else if b > 0 { Pow10Grows(a - 1, b - 1); }
  }

  lemma YearFits(year: nat)
    ensures year < Pow10(WidthOf(year))
    ensures WidthOf(year) > 4 ==> Pow10(WidthOf(year) - 1) <= year
    ensures WidthOf(year) == 4 <==> year <= 9999
  {
    DecimalLength(year);
    assert Pow10(2) == 100 && Pow10(4) == 100 * Pow10(2);
    Pow10Grows(|Decimal(year)|, WidthOf(year));
    if |Decimal(year)| > 4 { Pow10Grows(4, |Decimal(year)| - 1); }
  }

  lemma YearText(year: nat)
    ensures ZeroPadded(year, 4) == Fixed(year, WidthOf(year))
  {
    YearFits(year);
    ZeroPaddedIsFixed(year, WidthOf(year));
  }

  lemma ValuesFit(secs: int, nanos: nat)
    requires FromYearZero(secs, nanos)
    ensures Fits(Values(secs, nanos), Columns(WidthOf(Values(secs, nanos)[0])))
  {
    hide WidthOf, CivilFromDays;
    CivilFromDaysIsInverse(secs / 86400);
    YearFits(Values(secs, nanos)[0]);
    assert Pow10(2) == 100;
    assert Pow10(4) == 100 * Pow10(2);
    assert Pow10(9) == 100000 * Pow10(4);
  }

  lemma HeadOfRfc3339(secs: int, nanos: nat)
    requires FromYearZero(secs, nanos)
    ensures var v := Values(secs, nanos);
            Rfc3339(secs, nanos) ==
            Head(v, WidthOf(v[0])) + (if nanos > 0 then "." + TrimEndChar(Fixed(nanos, 9), '0') else "") + "Z"
  {
    hide WidthOf;
    var v := Values(secs, nanos);
    ValuesFit(secs, nanos);
    YearText(v[0]);
    ZeroPaddedIsFixed(v[1], 2);
    ZeroPaddedIsFixed(v[2], 2);
    ZeroPaddedIsFixed(v[3], 2);
    ZeroPaddedIsFixed(v[4], 2);
    ZeroPaddedIsFixed(v[5], 2);
    ZeroPaddedIsFixed(v[6], 9);
  }

  lemma {:induction false} TrimKeepsDigits(s: string)
    ensures |TrimEndChar(s, '0')| <= |s| && TrimEndChar(s, '0') == s[..|TrimEndChar(s, '0')|]
  {
    if |s| > 0 && s[|s| - 1] == '0' {
      TrimKeepsDigits(s[..|s| - 1]);
    }
  }

  lemma ZoneIsTrimmed(body: string)
    requires body != "" && body[|body| - 1] != 'Z'
    ensures TrimEndChar(body + "Z", 'Z') == body
  {
    assert (body + "Z")[..|body|] == body;
  }

  lemma KeyOf(head: string, point: bool, frac: string)
    requires head != "" && '.' !in head && head[|head| - 1] != 'Z'
    requires if point then 'Z' !in frac else frac == ""
    ensures Sortable(head + (if point then "." + frac else "") + "Z") == head + "." + PadRight(frac, 9)
  {
    hide PadRight, TrimEndChar, SplitOnce;
    var body := head + (if point then "." + frac else "");
    ZoneIsTrimmed(body);
    SplitOnceFirst(head, '.', frac);
    if point { assert body == head + ['.'] + frac; } else { assert body == head; }
  }

  lemma FractionIsRestored(nanos: nat)
    ensures var frac := TrimEndChar(Fixed(nanos, 9), '0');
            PadRight(frac, 9) == Fixed(nanos, 9) && 'Z' !in frac && (nanos == 0 ==> frac == "")
  {
    hide Fixed, PadRight, TrimEndChar;
    FixedIsDigits(nanos, 9);
    TrimKeepsDigits(Fixed(nanos, 9));
    PadRightRestoresTrimmedZeros(Fixed(nanos, 9));
    FixedOfZeroTrims(9);
  }

  /** The key puts back the zeros that the timestamp's text leaves out. */
  lemma SortableIsRow(secs: int, nanos: nat)
    requires FromYearZero(secs, nanos)
    ensures var v := Values(secs, nanos);
            Sortable(Rfc3339(secs, nanos)) == Row(v, Columns(WidthOf(v[0])))
  {
    hide WidthOf, Sortable, PadRight, Fixed, Head, TrimEndChar, Rfc3339;
    var v := Values(secs, nanos);
    var w := WidthOf(v[0]);
    HeadOfRfc3339(secs, nanos);
    HeadHasNoPoint(v, w);
    FractionIsRestored(nanos);
    KeyOf(Head(v, w), nanos > 0, TrimEndChar(Fixed(nanos, 9), '0'));
    RowIsHead(v, w);
  }

  lemma {:induction false} FixedOfZeroTrims(width: nat)
    ensures TrimEndChar(Fixed(0, width), '0') == ""
  {
    if width > 0 {
      assert Fixed(0, width)[..width - 1] == Fixed(0, width - 1);
      FixedOfZeroTrims(width - 1);
    }
  }

  // --- main results ---

  lemma ValuesOrderInstants(s1: int, n1: nat, s2: int, n2: nat)
    requires FromYearZero(s1, n1) && FromYearZero(s2, n2)
    ensures RowLess(Values(s1, n1), Values(s2, n2)) <==> s1 < s2 || (s1 == s2 && n1 < n2)
  {
    var (d1, d2) := (s1 / 86400, s2 / 86400);
    CivilFromDaysIsInverse(d1);
    CivilFromDaysIsInverse(d2);
    PartsOrder(CivilFromDays(d1), s1 % 86400, Values(s1, n1), CivilFromDays(d2), s2 % 86400, Values(s2, n2));
  }

  predicate Splits(v: seq<nat>, date: Date, sod: nat) {
    && |v| == 7
    && v[0] == date.year && v[1] == date.month && v[2] == date.day
    && v[3] == sod / 3600 && v[4] == (sod % 3600) / 60 && v[5] == sod % 60
  }

  lemma PartsOrder(c1: Date, x1: nat, v1: seq<nat>, c2: Date, x2: nat, v2: seq<nat>)
    requires ValidDate(c1) && ValidDate(c2) && x1 < 86400 && x2 < 86400
    requires Splits(v1, c1, x1) && Splits(v2, c2, x2)
    ensures RowLess(v1, v2) <==>
            DayNumber(c1) < DayNumber(c2)
            || (DayNumber(c1) == DayNumber(c2) && (x1 < x2 || (x1 == x2 && v1[6] < v2[6])))
  {
    DayNumberOrdersDates(c1, c2);
    UnfoldRowLess(v1, v2);
    SecondsOrder(x1, x2);
  }

  lemma UnfoldRowLess(a: seq<nat>, b: seq<nat>)
    requires |a| == |b| == 7
    ensures RowLess(a, b) <==>
            a[0] < b[0] || (a[0] == b[0] && (a[1] < b[1] || (a[1] == b[1] && (a[2] < b[2] || (a[2] == b[2] && (
            a[3] < b[3] || (a[3] == b[3] && (a[4] < b[4] || (a[4] == b[4] && (a[5] < b[5] || (a[5] == b[5] &&
            a[6] < b[6])))))))))))
  {
    RowLessTail(a, b, 0);
    RowLessTail(a, b, 1);
    RowLessTail(a, b, 2);
    RowLessTail(a, b, 3);
    RowLessTail(a, b, 4);
    RowLessTail(a, b, 5);
    RowLessTail(a, b, 6);
    assert a[0..] == a && b[0..] == b;
  }

  lemma RowLessTail(a: seq<nat>, b: seq<nat>, i: nat)
    requires i < |a| == |b|
    ensures RowLess(a[i..], b[i..]) <==> a[i] < b[i] || (a[i] == b[i] && RowLess(a[i + 1..], b[i + 1..]))
  {
    assert a[i..][1..] == a[i + 1..] && b[i..][1..] == b[i + 1..];
  }

  lemma SecondsOrder(x: nat, y: nat)
    requires x < 86400 && y < 86400
    ensures x < y <==>
            x / 3600 < y / 3600 || (x / 3600 == y / 3600 && (
            (x % 3600) / 60 < (y % 3600) / 60 || ((x % 3600) / 60 == (y % 3600) / 60 && x % 60 < y % 60)))
    ensures x == y <==> x / 3600 == y / 3600 && (x % 3600) / 60 == (y % 3600) / 60 && x % 60 == y % 60
  {
    SecondsSplit(x);
    SecondsSplit(y);
  }

  lemma SecondsSplit(x: nat)
    ensures x == 3600 * (x / 3600) + 60 * ((x % 3600) / 60) + x % 60
    ensures (x % 3600) / 60 < 60
    ensures (x / 60) % 60 == (x % 3600) / 60
  {
    var (h, r) := (x / 3600, x % 3600);
    QuotientIs(x, 60, 60 * h + r / 60, r % 60);
    QuotientIs(60 * h + r / 60, 60, h, r / 60);
  }

  // --- keys whose years take as many digits, and keys whose years do not ---

  lemma SameWidthOrder(s1: int, n1: nat, s2: int, n2: nat)
    requires FromYearZero(s1, n1) && FromYearZero(s2, n2)
    requires WidthOf(Values(s1, n1)[0]) == WidthOf(Values(s2, n2)[0])
    ensures LexLess(Sortable(Rfc3339(s1, n1)), Sortable(Rfc3339(s2, n2)))
            <==> s1 < s2 || (s1 == s2 && n1 < n2)
  {
    hide WidthOf, Sortable, Rfc3339, Values;
    var w := WidthOf(Values(s1, n1)[0]);
    SortableIsRow(s1, n1);
    SortableIsRow(s2, n2);
    ValuesFit(s1, n1);
    ValuesFit(s2, n2);
    RowOrder(Values(s1, n1), Values(s2, n2), Columns(w));
    ValuesOrderInstants(s1, n1, s2, n2);
  }

  /** A number without its last `b` digits. */
  function WithoutDigits(n: nat, b: nat): nat {
    if b == 0 then n else WithoutDigits(n / 10, b - 1)
  }

  /** The first digits of a number are those of what is left without the last ones. */
  lemma {:induction false} FixedPrefix(n: nat, a: nat, b: nat)
    ensures Fixed(n, a + b)[..a] == Fixed(WithoutDigits(n, b), a)
  {
    if b > 0 {
      FixedPrefix(n / 10, a, b - 1);
      assert Fixed(n, a + b)[..a] == Fixed(n / 10, a + b - 1)[..a];
    }
  }

  lemma {:induction false} WithoutDigitsFits(n: nat, a: nat, b: nat)
    requires n < Pow10(a + b)
    ensures WithoutDigits(n, b) < Pow10(a)
  {
    if b > 0 { WithoutDigitsFits(n / 10, a, b - 1); }
  }

  /** A key whose year takes fewer digits than another's stands before it exactly when the year is not
      above the same number of digits of the other. */
  lemma MixedWidthOrder(v1: seq<nat>, v2: seq<nat>, w1: nat, w2: nat)
    requires |v1| == |v2| == 7 && w1 < w2 && v1[0] < Pow10(w1) && v2[0] < Pow10(w2)
    ensures LexLess(Row(v1, Columns(w1)), Row(v2, Columns(w2))) <==> v1[0] <= WithoutDigits(v2[0], w2 - w1)
    ensures LexLess(Row(v2, Columns(w2)), Row(v1, Columns(w1))) <==> v1[0] > WithoutDigits(v2[0], w2 - w1)
  {
    hide *;
    WithoutDigitsFits(v2[0], w1, w2 - w1);
    var r1 := RowStarts(v1, w1);
    var t2 := RowAtWidth(v2, w1, w2);
    DashOrDigit(v1[0], WithoutDigits(v2[0], w2 - w1), w1, r1, t2);
  }

  /** A longer year's row begins with as many digits as a shorter year's, and goes on with a digit. */
  lemma RowAtWidth(v: seq<nat>, w1: nat, w2: nat) returns (rest: string)
    requires |v| == 7 && w1 < w2
    ensures Row(v, Columns(w2)) == Fixed(WithoutDigits(v[0], w2 - w1), w1) + rest
    ensures rest != "" && '0' <= rest[0] <= '9'
  {
    hide *;
    var f := Fixed(v[0], w2);
    var r := RowStarts(v, w2);
    FixedPrefix(v[0], w1, w2 - w1);
    FixedIsDigits(v[0], w2);
    rest := f[w1..] + r;
    assert rest[0] == f[w1];
    Rejoin(f, w1, r);
  }

  lemma Rejoin(f: string, i: nat, r: string)
    requires i <= |f|
    ensures f + r == f[..i] + (f[i..] + r)
  {
  }

  lemma DashOrDigit(x: nat, q: nat, w: nat, r1: string, t2: string)
    requires x < Pow10(w) && q < Pow10(w) && r1 != "" && r1[0] == '-' && t2 != "" && '0' <= t2[0] <= '9'
    ensures LexLess(Fixed(x, w) + r1, Fixed(q, w) + t2) <==> x <= q
    ensures LexLess(Fixed(q, w) + t2, Fixed(x, w) + r1) <==> x > q
  {
    DashBeforeDigit(r1, t2);
    FixedOrder(x, q, w);
    FixedOrder(q, x, w);
    hide LexLess, Fixed, Pow10;
    LexLessOfEqualLengths(Fixed(x, w), Fixed(q, w), r1, t2);
    LexLessOfEqualLengths(Fixed(q, w), Fixed(x, w), t2, r1);
  }

  lemma DashBeforeDigit(r1: string, t2: string)
    requires r1 != "" && r1[0] == '-' && t2 != "" && '0' <= t2[0] <= '9'
    ensures LexLess(r1, t2) && !LexLess(t2, r1)
  {
  }

  /** What follows the year. */
  lemma RowStarts(v: seq<nat>, w: nat) returns (rest: string)
    requires |v| == 7
    ensures Row(v, Columns(w)) == Fixed(v[0], w) + rest && rest != "" && rest[0] == '-'
  {
    hide Fixed;
    rest := "-" + Row(v[1..], Columns(w)[1..]);
    assert Row(v, Columns(w)) == Fixed(v[0], w) + "-" + Row(v[1..], Columns(w)[1..]);
  }

  /** The year `a` takes fewer digits than `b`, and is above as many digits of `b`. */
  predicate Crossed(a: nat, b: nat) {
    var (v, w) := (WidthOf(a), WidthOf(b));
    v < w && a > WithoutDigits(b, w - v)
  }

  predicate IsBefore(s1: int, n1: nat, s2: int, n2: nat) {
    s1 < s2 || (s1 == s2 && n1 < n2)
  }

  lemma ShorterYearIsEarlier(s1: int, n1: nat, s2: int, n2: nat)
    requires FromYearZero(s1, n1) && FromYearZero(s2, n2) && WidthOf(Values(s1, n1)[0]) < WidthOf(Values(s2, n2)[0])
    ensures s1 < s2
  {
    hide WidthOf;
    var (y1, y2) := (Values(s1, n1)[0], Values(s2, n2)[0]);
    YearFits(y1);
    YearFits(y2);
    Pow10Grows(WidthOf(y1), WidthOf(y2) - 1);
    assert y1 < y2;
    hide CivilFromDays;
    CivilFromDaysIsInverse(s1 / 86400);
    CivilFromDaysIsInverse(s2 / 86400);
    DayNumberOrdersDates(CivilFromDays(s1 / 86400), CivilFromDays(s2 / 86400));
  }

  lemma KeysOfMixedWidths(s1: int, n1: nat, s2: int, n2: nat)
    requires FromYearZero(s1, n1) && FromYearZero(s2, n2) && WidthOf(Values(s1, n1)[0]) < WidthOf(Values(s2, n2)[0])
    ensures var (k1, k2) := (Sortable(Rfc3339(s1, n1)), Sortable(Rfc3339(s2, n2)));
            && (LexLess(k1, k2) <==> !Crossed(Values(s1, n1)[0], Values(s2, n2)[0]))
            && (LexLess(k2, k1) <==> Crossed(Values(s1, n1)[0], Values(s2, n2)[0]))
  {
    hide WidthOf, Sortable, Rfc3339, Values, Row;
    var (v1, v2) := (Values(s1, n1), Values(s2, n2));
    YearFits(v1[0]);
    YearFits(v2[0]);
    SortableIsRow(s1, n1);
    SortableIsRow(s2, n2);
    MixedWidthOrder(v1, v2, WidthOf(v1[0]), WidthOf(v2[0]));
  }

  /** From year 0 on, the keys of two timestamps stand in the order of the instants exactly when neither
      year takes fewer digits than the other while being above as many digits of it. */
  lemma SortableFollowsTimeExactly(s1: int, n1: nat, s2: int, n2: nat)
    requires FromYearZero(s1, n1) && FromYearZero(s2, n2)
    ensures var (y1, y2) := (Values(s1, n1)[0], Values(s2, n2)[0]);
            (LexLess(Sortable(Rfc3339(s1, n1)), Sortable(Rfc3339(s2, n2))) <==> IsBefore(s1, n1, s2, n2))
            <==> !Crossed(y1, y2) && !Crossed(y2, y1)
  {
    hide WidthOf, Sortable, Rfc3339, Values;
    var (y1, y2) := (Values(s1, n1)[0], Values(s2, n2)[0]);
    if WidthOf(y1) == WidthOf(y2) {
      SameWidthOrder(s1, n1, s2, n2);
    } else if WidthOf(y1) < WidthOf(y2) {
      KeysOfMixedWidths(s1, n1, s2, n2);
      ShorterYearIsEarlier(s1, n1, s2, n2);
    } else {
      KeysOfMixedWidths(s2, n2, s1, n1);
      ShorterYearIsEarlier(s2, n2, s1, n1);
    }
  }

  /** Up to year 99999: a year of at most four digits, and one of five with fewer tens. */
  lemma CrossedYears(a: nat, b: nat)
    requires a <= 99999 && b <= 99999
    ensures Crossed(a, b) <==> a <= 9999 && b >= 10000 && a > b / 10
  {
    hide WidthOf;
    YearFits(a);
    YearFits(b);
    assert WithoutDigits(b, 1) == WithoutDigits(b / 10, 0);
    assert Pow10(5) == 10 * Pow10(4) && Pow10(2) == 100 && Pow10(4) == 100 * Pow10(2);
    if WidthOf(b) > 5 { Pow10Grows(5, WidthOf(b) - 1); }
    if WidthOf(a) > 5 { Pow10Grows(5, WidthOf(a) - 1); }
  }

  /** As strings, the keys of two timestamps of the years 0 to 9999 stand in the order of the instants. */
  lemma SortableOrdersInstants(s1: int, n1: nat, s2: int, n2: nat)
    requires InRange(s1, n1) && InRange(s2, n2)
    ensures LexLess(Sortable(Rfc3339(s1, n1)), Sortable(Rfc3339(s2, n2)))
            <==> s1 < s2 || (s1 == s2 && n1 < n2)
  {
    hide Sortable, Rfc3339, WidthOf;
    DaysOfFourDigitYears(s1 / 86400);
    DaysOfFourDigitYears(s2 / 86400);
    YearFits(Values(s1, n1)[0]);
    YearFits(Values(s2, n2)[0]);
    SameWidthOrder(s1, n1, s2, n2);
  }

  /** Every instant of the years 2000 to 9999 is before every instant of the years 10000 to 19999, and its
      key is after. */
  lemma SortableMisordersFiveDigitYears(s1: int, n1: nat, s2: int, n2: nat)
    requires 2000 <= YearOf(s1) <= 9999 && n1 < NANOS_PER_SECOND
    requires 10000 <= YearOf(s2) <= 19999 && n2 < NANOS_PER_SECOND
    ensures s1 < s2
    ensures LexLess(Sortable(Rfc3339(s2, n2)), Sortable(Rfc3339(s1, n1)))
  {
    hide Sortable, Rfc3339, WidthOf;
    DaysFromYearZero(s1 / 86400);
    DaysFromYearZero(s2 / 86400);
    CrossedYears(YearOf(s1), YearOf(s2));
    ShorterYearIsEarlier(s1, n1, s2, n2);
    KeysOfMixedWidths(s1, n1, s2, n2);
  }

  /** `format_rfc3339_nanos`: one count of nanoseconds, and the minute taken another way. */
  function Rfc3339Nanos(unixNanos: int): string {
    var secs, nanos := unixNanos / NANOS_PER_SECOND, unixNanos % NANOS_PER_SECOND;
    var date := CivilFromDays(secs / 86400);
    var sod := secs % 86400;
    var out := ZeroPadded(date.year, 4) + "-" + ZeroPadded(date.month, 2) + "-" + ZeroPadded(date.day, 2)
      + "T" + ZeroPadded(sod / 3600, 2) + ":" + ZeroPadded((sod / 60) % 60, 2) + ":" + ZeroPadded(sod % 60, 2);
    out + (if nanos > 0 then "." + TrimEndChar(ZeroPadded(nanos, 9), '0') else "") + "Z"
  }

  /** The two formatters agree, so the key orders the BigQuery timestamps as well. */
  lemma SortableOrdersUnixNanos(t1: int, t2: int)
    requires InRange(t1 / NANOS_PER_SECOND, 0) && InRange(t2 / NANOS_PER_SECOND, 0)
    ensures LexLess(Sortable(Rfc3339Nanos(t1)), Sortable(Rfc3339Nanos(t2))) <==> t1 < t2
  {
    FormattersAgree(t1);
    FormattersAgree(t2);
    SortableOrdersInstants(t1 / NANOS_PER_SECOND, t1 % NANOS_PER_SECOND, t2 / NANOS_PER_SECOND, t2 % NANOS_PER_SECOND);
  }

  /** The minute of the hour, taken in two ways, is the same. */
  lemma FormattersAgree(t: int)
    ensures Rfc3339Nanos(t) == Rfc3339(t / NANOS_PER_SECOND, t % NANOS_PER_SECOND)
  {
    SecondsSplit(t / NANOS_PER_SECOND % 86400);
  }
}
