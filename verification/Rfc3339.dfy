/** A reader of the timestamp text of RFC 3339 (section 5.6), written without the calendar tables: the day
    number is a closed formula over years that begin in March. Calendar's text reads back to the
    instant it was made from. */
module Rfc3339 {
  import opened Text
  import opened Calendar

  /** Days from 0000-01-01 to a date. Months are counted from March, where the closed form
      (153 k + 2) / 5 gives the days before month k of the year. */
  function DayOf(y: int, m: nat, d: nat): int {
    var year, k := if m <= 2 then y - 1 else y, (m + 9) % 12;
    365 * year + year / 4 - year / 100 + year / 400 + (153 * k + 2) / 5 + d - 1 + 60
  }

  predicate IsField(s: string, lo: int, hi: int) {
    |s| == 2 && AllDigits(s) && lo <= NumeralValue(s) <= hi
  }

  /** A year of at least four digits, with a sign if negative and no needless zeros. */
  predicate IsYear(s: string) {
    var t := if s != "" && s[0] == '-' then s[1..] else s;
    |t| >= 4 && AllDigits(t) && (|t| > 4 ==> t[0] != '0')
  }

  function YearOf(s: string): int {
    if s != "" && s[0] == '-' then -NumeralValue(s[1..]) else NumeralValue(s)
  }

  /** YYYY-MM-DD as days from 0000-01-01. */
  function ReadDate(s: string): Option<int> {
    var n := |s|;
    if n < 6 || s[n - 6] != '-' || s[n - 3] != '-' then None
    else
      var y, m, d := s[..n - 6], s[n - 5..n - 3], s[n - 2..];
      if IsYear(y) && IsField(m, 1, 12) && IsField(d, 1, 31) then Some(DayOf(YearOf(y), NumeralValue(m), NumeralValue(d)))
      else None
  }

  /** .f to .fffffffff as nanoseconds; nothing is zero, and a last zero is not allowed. */
  function ReadFraction(s: string): Option<int> {
    if s == "" then Some(0)
    else if s[0] == '.' && 2 <= |s| <= 10 && AllDigits(s[1..]) && s[|s| - 1] != '0' then Some(NumeralValue(s[1..]) * Pow10(10 - |s|))
    else None
  }

  /** HH:MM:SS with a fraction and Z, as nanoseconds of the day. */
  function ReadClock(s: string): Option<int> {
    if |s| < 9 || s[2] != ':' || s[5] != ':' || s[|s| - 1] != 'Z' then None
    else if !IsField(s[..2], 0, 23) || !IsField(s[3..5], 0, 59) || !IsField(s[6..8], 0, 59) then None
    else
      match ReadFraction(s[8..|s| - 1])
      case None => None
      case Some(ns) =>
        Some(((NumeralValue(s[..2]) * 60 + NumeralValue(s[3..5])) * 60 + NumeralValue(s[6..8])) * 1_000_000_000 + ns)
  }

  /** The position of the first T, or the length. */
  function FindT(s: string): (n: nat)
    ensures n <= |s|
  {
    if s == "" || s[0] == 'T' then 0 else 1 + FindT(s[1..])
  }

  /** A timestamp as nanoseconds from 0000-01-01T00:00:00Z. */
  function Read(s: string): Option<int> {
    var n := FindT(s);
    if n == |s| then None
    else
      match (ReadDate(s[..n]), ReadClock(s[n + 1..]))
      case (Some(days), Some(ns)) => Some(days * 86_400 * 1_000_000_000 + ns)
      case _ => None
  }

  // ---------------------------------------------------------------- days

  lemma Shift(y: int, k: nat)
    requires k > 1
    ensures (y - 1) / k == (y + k - 1) / k - 1 && (y - k) % k == y % k
    ensures (y - k + k) / k == y / k && (y - k + k - 1) / k == (y - 1) / k
  {
    var q, r := (y - 1) / k, (y - 1) % k;
    Quotient(y + k - 1, k, q + 1, r);
    Quotient(y - k, k, y / k - 1, y % k);
  }

  lemma DaysBeforeByQuotients(y: int)
    ensures DaysBefore(y) == 365 * y + (y - 1) / 4 - (y - 1) / 100 + (y - 1) / 400 + 1
  {
    Shift(y, 4);
    Shift(y, 100);
    Shift(y, 400);
  }

  lemma LeapByQuotients(y: int)
    ensures YearDays(y) == 365 + (y / 4 - (y - 1) / 4) - (y / 100 - (y - 1) / 100) + (y / 400 - (y - 1) / 400)
  {
    hide DaysBefore, YearDays;
    NextYear(y);
    DaysBeforeByQuotients(y);
    DaysBeforeByQuotients(y + 1);
  }

  /** The month table against the closed form. */
  lemma MonthByFormula(y: int, m: nat)
    requires 1 <= m <= 12
    ensures YearDays(y) - DaysFrom(y, m) ==
            (153 * ((m + 9) % 12) + 2) / 5 + (if m <= 2 then -306 else YearDays(y) - 306)
  {
    assert DaysFrom(y, 13) == 0;
    assert DaysFrom(y, 12) == 31 && DaysFrom(y, 11) == 61 && DaysFrom(y, 10) == 92;
    assert DaysFrom(y, 9) == 122 && DaysFrom(y, 8) == 153 && DaysFrom(y, 7) == 184;
    assert DaysFrom(y, 6) == 214 && DaysFrom(y, 5) == 245 && DaysFrom(y, 4) == 275;
    assert DaysFrom(y, 3) == 306;
  }

  lemma DayMatches(c: Civil)
    requires 1 <= c.month <= 12
    ensures DayOf(c.year, c.month, c.day) == DayNumber(c)
  {
    hide DaysBefore, DaysFrom, YearDays;
    MonthByFormula(c.year, c.month);
    DaysBeforeByQuotients(c.year);
    LeapByQuotients(c.year);
  }

  // ---------------------------------------------------------------- the parts of the text

  lemma FieldReads(n: nat, lo: int, hi: int)
    requires n < 100 && lo <= n <= hi
    ensures IsField(Digits(n, 2), lo, hi) && NumeralValue(Digits(n, 2)) == n
  {
    hide Digits, NumeralValue;
    assert Pow10(2) == 100;
    DigitsValue(n, 2);
  }

  lemma YearReads(y: int)
    ensures IsYear(YearText(y)) && YearOf(YearText(y)) == y && YearText(y) != ""
    ensures forall i :: 0 <= i < |YearText(y)| ==> YearText(y)[i] != 'T'
  {
    hide Digits, Decimal, NumeralValue;
    var n: nat := if y < 0 then -y else y;
    var t := if n <= 9999 then Digits(n, 4) else Decimal(n);
    assert Pow10(4) == 10000;
    if n <= 9999 {
      DigitsValue(n, 4);
    } else {
      DecimalValue(n);
      DecimalIsLong(n);
    }
    assert YearText(y) == if y < 0 then "-" + t else t;
    assert ("-" + t)[1..] == t;
  }

  lemma DecimalIsLong(n: nat)
    requires n > 9999
    ensures |Decimal(n)| > 4
  {
    assert |Decimal(n)| == 1 + |Decimal(n / 10)|;
    assert |Decimal(n / 10)| == 1 + |Decimal(n / 10 / 10)|;
    assert |Decimal(n / 10 / 10)| == 1 + |Decimal(n / 10 / 10 / 10)|;
    assert |Decimal(n / 10 / 10 / 10)| == 1 + |Decimal(n / 10 / 10 / 10 / 10)|;
  }

  lemma DateReads(c: Civil)
    requires 1 <= c.month <= 12 && 1 <= c.day <= 31
    ensures ReadDate(DateText(c)) == Some(DayNumber(c))
    ensures forall i :: 0 <= i < |DateText(c)| ==> DateText(c)[i] != 'T'
  {
    hide Digits, YearText, DayOf, DayNumber, NumeralValue, IsYear, IsField, YearOf;
    var s, y := DateText(c), YearText(c.year);
    YearReads(c.year);
    FieldReads(c.month, 1, 12);
    FieldReads(c.day, 1, 31);
    DayMatches(c);
    var n := |s|;
    assert s[..n - 6] == y && s[n - 5..n - 3] == Digits(c.month, 2) && s[n - 2..] == Digits(c.day, 2);
    assert s[n - 6] == '-' && s[n - 3] == '-';
  }

  lemma FractionReads(ms: nat)
    requires ms < 1000
    ensures ReadFraction(FractionText(ms)) == Some(ms * 1_000_000)
  {
    hide Digits, NumeralValue;
    assert Pow10(1) == 10 && Pow10(2) == 100 && Pow10(3) == 1000;
    assert Pow10(6) == 1_000_000 && Pow10(7) == 10_000_000 && Pow10(8) == 100_000_000;
    if ms == 0 {
    } else if ms % 100 == 0 {
      ShortFractionReads(ms / 100, 1);
    } else if ms % 10 == 0 {
      ShortFractionReads(ms / 10, 2);
    } else {
      ShortFractionReads(ms, 3);
    }
  }

  lemma ShortFractionReads(n: nat, w: nat)
    requires 1 <= w <= 9 && n < Pow10(w) && n % 10 != 0
    ensures ReadFraction("." + Digits(n, w)) == Some(n * Pow10(9 - w))
  {
    hide NumeralValue;
    DigitsValue(n, w);
    var s := "." + Digits(n, w);
    assert s[1..] == Digits(n, w);
    assert s[|s| - 1] == Digit(n % 10);
  }

  lemma ClockParts(secs: nat)
    requires secs < 86400
    ensures var s := ClockText(secs);
            && s[0] == 'T' && s[1..3] == Digits(secs / 3600, 2) && s[3] == ':'
            && s[4..6] == Digits(secs / 60 % 60, 2) && s[6] == ':' && s[7..9] == Digits(secs % 60, 2)
  {
    hide Digits;
  }

  lemma ClockReads(secs: nat, ms: nat)
    requires secs < 86400 && ms < 1000
    ensures var s := ClockText(secs) + FractionText(ms) + "Z";
            s[0] == 'T' && ReadClock(s[1..]) == Some(secs * 1_000_000_000 + ms * 1_000_000)
  {
    hide Digits, NumeralValue, FractionText, ReadFraction, IsField, ClockText;
    var s := ClockText(secs) + FractionText(ms) + "Z";
    var t := s[1..];
    HourMinuteSecond(secs);
    FieldReads(secs / 3600, 0, 23);
    FieldReads(secs / 60 % 60, 0, 59);
    FieldReads(secs % 60, 0, 59);
    FractionReads(ms);
    ClockParts(secs);
    var x := ClockText(secs);
    assert t[..2] == x[1..3] && t[3..5] == x[4..6] && t[6..8] == x[7..9] && t[2] == x[3] && t[5] == x[6];
    assert t[..2] == Digits(secs / 3600, 2) && t[3..5] == Digits(secs / 60 % 60, 2) && t[6..8] == Digits(secs % 60, 2);
    assert t[8..|t| - 1] == FractionText(ms);
  }

  lemma {:induction false} FindsT(a: string, b: string)
    requires (forall i :: 0 <= i < |a| ==> a[i] != 'T') && b != "" && b[0] == 'T'
    ensures FindT(a + b) == |a|
  {
    if a == "" {
      assert a + b == b;
    } else {
      assert (a + b)[1..] == a[1..] + b;
      FindsT(a[1..], b);
    }
  }

  /** For every instant, in any year, the text reads back to the instant cut to the millisecond. */
  lemma TimestampReads(t: int)
    ensures Read(Timestamp(t)) == Some(t - t % 1_000_000)
  {
    hide DateOf, DateText, ClockText, FractionText, ReadDate, ReadClock, DayNumber, FindT;
    var ms := Millis(t);
    var day, inDay := ms / DAY_MILLIS, ms % DAY_MILLIS;
    var c := DateOf(day);
    var a, b := DateText(c), ClockText(inDay / 1000) + FractionText(inDay % 1000) + "Z";
    DateRoundTrip(day);
    DateReads(c);
    ClockReads(inDay / 1000, inDay % 1000);
    Joined(DateText(c), ClockText(inDay / 1000), FractionText(inDay % 1000));
    FindsT(a, b);
    assert (a + b)[..|a|] == a && (a + b)[|a| + 1..] == b[1..];
    assert t == 1_000_000 * (DAY_MILLIS * day + inDay) + t % 1_000_000;
  }

  lemma Joined(a: string, b: string, c: string)
    ensures a + b + c + "Z" == a + (b + c + "Z")
  {
  }

  /** The zero time is the first instant of year 1. */
  lemma ZeroTimeIsYearOne()
    ensures Read("0001-01-01T00:00:00Z") == Some(ZERO_TIME)
  {
    hide DateText, ClockText, ReadDate, ReadClock, FindT;
    var a, b := DateText(Civil(1, 1, 1)), ClockText(0) + FractionText(0) + "Z";
    DateReads(Civil(1, 1, 1));
    ClockReads(0, 0);
    FirstInstant();
    YearOne();
    FindsT(a, b);
    assert (a + b)[..|a|] == a && (a + b)[|a| + 1..] == b[1..];
  }

  lemma YearOne()
    ensures DayNumber(Civil(1, 1, 1)) == 366
  {
    MonthsFillTheYear(1);
  }

  lemma FirstInstant()
    ensures DateText(Civil(1, 1, 1)) == "0001-01-01" && ClockText(0) + FractionText(0) + "Z" == "T00:00:00Z"
    ensures DateText(Civil(1, 1, 1)) + (ClockText(0) + FractionText(0) + "Z") == "0001-01-01T00:00:00Z"
  {
    assert Digits(0, 2) == "00" && Digits(1, 2) == "01";
    assert Digits(0, 3) == "000" && Digits(1, 4) == "0001";
  }
}
