/** Timestamps as ComputeHash writes them: the instant truncated to the millisecond, in UTC, in
    the RFC 3339 form with trailing fraction zeros removed (section 5.6 of RFC 3339).
    An instant is a count of nanoseconds from 0000-01-01T00:00:00Z in the proleptic Gregorian
    calendar; any integer is an instant. */
module Calendar {
  import opened Text

  const MILLI := 1_000_000
  const DAY_MILLIS := 86_400_000

  /** time.Time{} (0001-01-01T00:00:00Z), the value IsZero recognises. */
  const ZERO_TIME := 366 * DAY_MILLIS * MILLI

  /** A precision, in nanoseconds. */
  type Unit = u: nat | u > 0 witness 1

  /** Truncation to a multiple of `unit` nanoseconds, towards the past. */
  function Floor(t: int, unit: Unit): (r: int)
    ensures r <= t < r + unit
  {
    t - t % unit
  }

  function Millis(t: int): int {
    t / MILLI
  }

  // ---------------------------------------------------------------- the calendar

  predicate LeapYear(y: int) {
    y % 4 == 0 && (y % 100 != 0 || y % 400 == 0)
  }

  function YearDays(y: int): nat {
    if LeapYear(y) then 366 else 365
  }

  /** Days from 0000-01-01 to the first day of year `y`. */
  function DaysBefore(y: int): int {
    365 * y + (y + 3) / 4 - (y + 99) / 100 + (y + 399) / 400
  }

  lemma NextYear(y: int)
    ensures DaysBefore(y + 1) == DaysBefore(y) + YearDays(y)
  {
    Carry4(y);
    Carry100(y);
    Carry400(y);
  }

  /** Rounding up to a multiple of `k` moves exactly at the multiples. */
  lemma Carry(y: int, k: nat, q: int, r: nat)
    requires k > 1 && y == k * q + r && r < k
    ensures (y + k - 1) / k == (if r == 0 then q else q + 1) && (y + k) / k == q + 1
  {
    Quotient(y + k, k, q + 1, r);
    if r == 0 {
      Quotient(y + k - 1, k, q, k - 1);
    } else {
      Quotient(y + k - 1, k, q + 1, r - 1);
    }
  }

  lemma Quotient(n: int, k: nat, q: int, r: nat)
    requires k > 0 && n == k * q + r && r < k
    ensures n / k == q && n % k == r
  {
    var p := n / k;
    assert n == k * p + n % k;
    assert k * (p - q) == r - n % k;
    assert p - q >= 1 ==> k * (p - q) >= k;
    assert q - p >= 1 ==> k * (q - p) >= k;
  }

  lemma Carry4(y: int)
    ensures (y + 4) / 4 == (y + 3) / 4 + (if y % 4 == 0 then 1 else 0)
  {
    Carry(y, 4, y / 4, y % 4);
  }

  lemma Carry100(y: int)
    ensures (y + 100) / 100 == (y + 99) / 100 + (if y % 100 == 0 then 1 else 0)
    ensures y % 100 == 0 ==> y % 4 == 0
  {
    Carry(y, 100, y / 100, y % 100);
    if y % 100 == 0 {
      Quotient(y, 4, 25 * (y / 100), 0);
    }
  }

  lemma Carry400(y: int)
    ensures (y + 400) / 400 == (y + 399) / 400 + (if y % 400 == 0 then 1 else 0)
    ensures y % 400 == 0 ==> y % 100 == 0
  {
    Carry(y, 400, y / 400, y % 400);
    if y % 400 == 0 {
      Quotient(y, 100, 4 * (y / 400), 0);
    }
  }

  function MonthDays(y: int, m: nat): nat
    requires 1 <= m <= 12
  {
    if m == 2 then (if LeapYear(y) then 29 else 28)
    else if m in {4, 6, 9, 11} then 30
    else 31
  }

  /** Days from the first of month `m` to the end of the year. */
  function DaysFrom(y: int, m: nat): nat
    requires 1 <= m <= 13
    decreases 13 - m
  {
    if m == 13 then 0 else MonthDays(y, m) + DaysFrom(y, m + 1)
  }

  lemma MonthsFillTheYear(y: int)
    ensures DaysFrom(y, 1) == YearDays(y)
  {
    assert DaysFrom(y, 10) == 92;
    assert DaysFrom(y, 7) == 184;
    assert DaysFrom(y, 4) == 275;
  }

  /** The year of a day, walking forward from the start of year `y`, and the day's offset in it. */
  function FindYear(y: int, d: nat): (r: (int, nat))
    ensures DaysBefore(r.0) + r.1 == DaysBefore(y) + d
    ensures r.1 < YearDays(r.0)
    decreases d
  {
    if d < YearDays(y) then (y, d)
    else
      NextYear(y);
      FindYear(y + 1, d - YearDays(y))
  }

  function FindMonth(y: int, m: nat, d: nat): (r: (nat, nat))
    requires 1 <= m <= 12 && d < DaysFrom(y, m)
    ensures 1 <= r.0 <= 12 && r.1 < MonthDays(y, r.0)
    ensures DaysFrom(y, m) - d == DaysFrom(y, r.0) - r.1
    decreases 12 - m
  {
    if d < MonthDays(y, m) then (m, d) else FindMonth(y, m + 1, d - MonthDays(y, m))
  }

  datatype Civil = Civil(year: int, month: nat, day: nat)

  /** The date of day number `n`; day 0 is 0000-01-01. */
  function DateOf(n: int): (c: Civil)
    ensures 1 <= c.month <= 12 && 1 <= c.day <= MonthDays(c.year, c.month)
  {
    var era := n / 146097;
    var (y, d) := FindYear(400 * era, n % 146097);
    MonthsFillTheYear(y);
    var (m, k) := FindMonth(y, 1, d);
    Civil(y, m, k + 1)
  }

  /** The day number of a date: the inverse of DateOf. */
  function DayNumber(c: Civil): int
    requires 1 <= c.month <= 12
  {
    DaysBefore(c.year) + YearDays(c.year) - DaysFrom(c.year, c.month) + c.day - 1
  }

  lemma DateRoundTrip(n: int)
    ensures DayNumber(DateOf(n)) == n
  {
    hide DaysBefore, YearDays, DaysFrom, MonthDays, FindYear, FindMonth;
    var era := n / 146097;
    EraDays(era);
    var (y, d) := FindYear(400 * era, n % 146097);
    MonthsFillTheYear(y);
  }

  /** 400 years have 146097 days. */
  lemma EraDays(era: int)
    ensures DaysBefore(400 * era) == 146097 * era
  {
    Quotient(400 * era + 3, 4, 100 * era, 3);
    Quotient(400 * era + 99, 100, 4 * era, 99);
    Quotient(400 * era + 399, 400, era, 399);
  }

  // ---------------------------------------------------------------- the text

  /** At least four digits, as time.Format pads a year. */
  function YearText(y: int): (s: string)
    ensures 0 <= y <= 9999 ==> s == Digits(y, 4)
  {
    if 0 <= y <= 9999 then Digits(y, 4)
    else if y > 9999 then Decimal(y)
    else "-" + (if -y <= 9999 then Digits(-y, 4) else Decimal(-y))
  }

  /** The fraction of a second with trailing zeros removed, or nothing. */
  function FractionText(ms: nat): (s: string)
    requires ms < 1000
  {
    if ms == 0 then ""
    else if ms % 100 == 0 then "." + Digits(ms / 100, 1)
    else if ms % 10 == 0 then "." + Digits(ms / 10, 2)
    else "." + Digits(ms, 3)
  }

  function ClockText(secs: nat): (s: string)
    requires secs < 86400
    ensures |s| == 9 && s[6] == ':' && IsDigit(s[7]) && IsDigit(s[8])
  {
    "T" + Digits(secs / 3600, 2) + ":" + Digits(secs / 60 % 60, 2) + ":" + Digits(secs % 60, 2)
  }

  function DateText(c: Civil): string {
    YearText(c.year) + "-" + Digits(c.month, 2) + "-" + Digits(c.day, 2)
  }

  /** timestamp.UTC().Truncate(time.Millisecond).Format(time.RFC3339Nano), for the millisecond `ms`. */
  function MilliText(ms: int): string {
    var inDay := ms % DAY_MILLIS;
    DateText(DateOf(ms / DAY_MILLIS)) + ClockText(inDay / 1000) + FractionText(inDay % 1000) + "Z"
  }

  function Timestamp(t: int): string {
    MilliText(Millis(t))
  }

  /** Years the four-digit form covers. */
  predicate FourDigitYear(t: int) {
    0 <= DateOf(Millis(t) / DAY_MILLIS).year <= 9999
  }

  // ---------------------------------------------------------------- reading it back

  lemma DateTextInjective(c: Civil, d: Civil)
    requires 0 <= c.year <= 9999 && 0 <= d.year <= 9999
    requires c.month < 100 && d.month < 100 && c.day < 100 && d.day < 100
    ensures |DateText(c)| == |DateText(d)| == 10
    ensures DateText(c) == DateText(d) ==> c == d
  {
    hide Digits, YearText;
    var p, q := YearText(c.year) + "-" + Digits(c.month, 2), YearText(d.year) + "-" + Digits(d.month, 2);
    if DateText(c) == DateText(d) {
      SplitByRight(p + "-", Digits(c.day, 2), q + "-", Digits(d.day, 2));
      SplitByRight(p, "-", q, "-");
      SplitByRight(YearText(c.year) + "-", Digits(c.month, 2), YearText(d.year) + "-", Digits(d.month, 2));
      SplitByRight(YearText(c.year), "-", YearText(d.year), "-");
      SameDigits(c.year, d.year, 4);
      SameDigits(c.month, d.month, 2);
      SameDigits(c.day, d.day, 2);
    }
  }

  lemma SameDigits(a: nat, b: nat, w: nat)
    requires Digits(a, w) == Digits(b, w) && (w == 2 || w == 4)
    requires w == 2 ==> a < 100 && b < 100
    requires w == 4 ==> a < 10000 && b < 10000
    ensures a == b
  {
    hide Digits;
    assert Pow10(2) == 100 && Pow10(4) == 10000;
    DigitsValue(a, w);
    DigitsValue(b, w);
  }

  lemma ClockTextInjective(a: nat, b: nat)
    requires a < 86400 && b < 86400
    requires ClockText(a) == ClockText(b)
    ensures a == b
  {
    var x, y := ClockText(a), ClockText(b);
    assert x[1..3] == Digits(a / 3600, 2) && y[1..3] == Digits(b / 3600, 2);
    assert x[4..6] == Digits(a / 60 % 60, 2) && y[4..6] == Digits(b / 60 % 60, 2);
    assert x[7..9] == Digits(a % 60, 2) && y[7..9] == Digits(b % 60, 2);
    assert Pow10(2) == 100;
    DigitsValue(a / 3600, 2);
    DigitsValue(b / 3600, 2);
    DigitsValue(a / 60 % 60, 2);
    DigitsValue(b / 60 % 60, 2);
    DigitsValue(a % 60, 2);
    DigitsValue(b % 60, 2);
    HourMinuteSecond(a);
    HourMinuteSecond(b);
  }

  lemma HourMinuteSecond(a: nat)
    ensures a == 3600 * (a / 3600) + 60 * (a / 60 % 60) + a % 60
  {
    assert a / 60 / 60 == a / 3600;
  }

  lemma FractionTextInjective(a: nat, b: nat)
    requires a < 1000 && b < 1000
    requires FractionText(a) == FractionText(b)
    ensures a == b
  {
    if a != 0 && b != 0 {
      var w := |FractionText(a)| - 1;
      FractionDigits(a, w);
      FractionDigits(b, w);
    }
  }

  lemma FractionDigits(a: nat, w: nat)
    requires 0 < a < 1000 && |FractionText(a)| == w + 1
    ensures 1 <= w <= 3
    ensures a == NumeralValue(FractionText(a)[1..]) * (if w == 1 then 100 else if w == 2 then 10 else 1)
  {
    hide NumeralValue, Digits;
    assert Pow10(1) == 10 && Pow10(2) == 100 && Pow10(3) == 1000;
    var n := if w == 1 then a / 100 else if w == 2 then a / 10 else a;
    assert FractionText(a) == "." + Digits(n, w);
    assert FractionText(a)[1..] == Digits(n, w);
    DigitsValue(n, w);
  }

  /** The tail of a timestamp tells its own length: the last four characters say where the
      fraction starts, whatever text precedes it. */
  lemma TailShowsFraction(x: string, secs: nat, ms: nat)
    requires secs < 86400 && ms < 1000
    ensures var s := x + ClockText(secs) + FractionText(ms) + "Z";
            && |s| >= 10
            && |FractionText(ms)| == (
                 if s[|s| - 4] == ':' then 0
                 else if s[|s| - 3] == '.' then 2
                 else if s[|s| - 4] == '.' then 3
                 else 4)
  {
    var c, f := ClockText(secs), FractionText(ms);
    var s := x + c + f + "Z";
    var n := |x| + 9;
    assert forall i :: 0 <= i < 9 ==> s[|x| + i] == c[i];
    assert forall i :: 0 <= i < |f| ==> s[n + i] == f[i];
    if |f| == 2 {
      assert s[n] == '.';
    } else if |f| == 3 {
      assert s[n] == '.' && IsDigit(s[n + 1]);
    } else if |f| == 4 {
      assert s[n] == '.' && IsDigit(s[n + 1]) && IsDigit(s[n + 2]);
    } else {
      assert s[n - 3] == ':' && IsDigit(s[n - 2]);
    }
  }

  /** The parts of a timestamp at the end of a text are determined by the text. */
  lemma PartsDecodable(x: string, c: Civil, s: nat, f: nat, y: string, d: Civil, q: nat, g: nat)
    requires 0 <= c.year <= 9999 && 0 <= d.year <= 9999
    requires c.month < 100 && d.month < 100 && c.day < 100 && d.day < 100
    requires s < 86400 && q < 86400 && f < 1000 && g < 1000
    requires x + DateText(c) + ClockText(s) + FractionText(f) + "Z" == y + DateText(d) + ClockText(q) + FractionText(g) + "Z"
    ensures x == y && c == d && s == q && f == g
  {
    DateTextInjective(c, d);
    TailShowsFraction(x + DateText(c), s, f);
    TailShowsFraction(y + DateText(d), q, g);
    CancelSuffix(x + DateText(c) + ClockText(s) + FractionText(f), y + DateText(d) + ClockText(q) + FractionText(g), "Z");
    SplitByRight(x + DateText(c) + ClockText(s), FractionText(f), y + DateText(d) + ClockText(q), FractionText(g));
    SplitByRight(x + DateText(c), ClockText(s), y + DateText(d), ClockText(q));
    SplitByRight(x, DateText(c), y, DateText(d));
    FractionTextInjective(f, g);
    ClockTextInjective(s, q);
  }

  lemma Regroup(x: string, d: string, k: string, f: string)
    ensures x + (d + k + f + "Z") == x + d + k + f + "Z"
  {
  }

  /** A timestamp can be split off the end of any text, and it determines its millisecond. */
  lemma SuffixDecodable(x: string, t: int, y: string, u: int)
    requires FourDigitYear(t) && FourDigitYear(u)
    requires x + Timestamp(t) == y + Timestamp(u)
    ensures x == y && Millis(t) == Millis(u)
  {
    hide DateText, ClockText, FractionText, DateOf;
    var a, b := Millis(t), Millis(u);
    var c, d := DateOf(a / DAY_MILLIS), DateOf(b / DAY_MILLIS);
    var p, q := a % DAY_MILLIS, b % DAY_MILLIS;
    Regroup(x, DateText(c), ClockText(p / 1000), FractionText(p % 1000));
    Regroup(y, DateText(d), ClockText(q / 1000), FractionText(q % 1000));
    PartsDecodable(x, c, p / 1000, p % 1000, y, d, q / 1000, q % 1000);
    DateRoundTrip(a / DAY_MILLIS);
    DateRoundTrip(b / DAY_MILLIS);
  }

  // ---------------------------------------------------------------- storage precision

  /** Storing at any precision that divides the millisecond does not change the hashed instant. */
  lemma FloorKeepsMillis(t: int, unit: Unit)
    requires MILLI % unit == 0
    ensures Millis(Floor(t, unit)) == Millis(t) && Timestamp(Floor(t, unit)) == Timestamp(t)
  {
    var q, p, m := t / MILLI, t / unit, MILLI / unit;
    assert unit * m == MILLI;
    assert Floor(t, unit) == unit * p;
    assert unit * (m * q) == MILLI * q;
    Grows(unit, p, m * q);
    Quotient(Floor(t, unit), MILLI, q, Floor(t, unit) - MILLI * q);
  }

  lemma Grows(unit: Unit, p: int, q: int)
    ensures p < q ==> unit * p + unit <= unit * q
  {
    var d := q - p;
    assert d >= 1 ==> unit * d >= unit;
    assert unit * q == unit * p + unit * d;
  }
}
