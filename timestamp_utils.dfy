/**
 * Rendering of an epoch-millisecond instant in the two formats the LoTW
 * report interface takes (lib/timestamp-utils.js): the query format
 * `YYYY-MM-DD HH:MM:SS` of the UTC instant one second later, and the same
 * text with its separators removed.
 *
 * The civil date is computed by walking whole years from 1970 and then whole
 * months, in the proleptic Gregorian calendar that `Date` uses.
 */
module TimestampUtils {
  import opened Text

  const MsPerDay := 86400000
  /** The largest magnitude of a valid `Date` time value, in milliseconds. */
  const MaxTime := 8640000000000000

  // ---------------------------------------------------------------------------
  // Years

  predicate IsLeap(y: int) {
    y % 4 == 0 && (y % 100 != 0 || y % 400 == 0)
  }

  function YearLength(y: int): (n: nat)
    ensures n == 365 || n == 366
  {
    if IsLeap(y) then 366 else 365
  }

  /** Days from 1 January 1970 to 1 January of year `y` (negative before 1970). */
  function DaysFrom1970(y: int): int
    decreases if y > 1970 then y - 1970 else 1970 - y
  {
    if y == 1970 then 0
    else if y > 1970 then DaysFrom1970(y - 1) + YearLength(y - 1)
    else DaysFrom1970(y + 1) - YearLength(y)
  }

  lemma DaysFromStep(y: int)
    ensures DaysFrom1970(y + 1) == DaysFrom1970(y) + YearLength(y)
  {
  }

  /**
   * The year and day of the year `days` days after 1 January of year `y`.
   */
  function YearOf(days: int, y: int): (r: (int, nat))
    ensures r.1 < YearLength(r.0)
    ensures DaysFrom1970(r.0) + r.1 == DaysFrom1970(y) + days
    decreases if days < 0 then 400 - days else days
  {
    if days < 0 then
      DaysFromStep(y - 1);
      YearOf(days + YearLength(y - 1), y - 1)
    else if days >= YearLength(y) then
      DaysFromStep(y);
      YearOf(days - YearLength(y), y + 1)
    else (y, days)
  }

  /** A later year starts no earlier than the end of an earlier one. */
  lemma {:induction false} YearsAscend(a: int, b: int)
    requires a < b
    ensures DaysFrom1970(a) + YearLength(a) <= DaysFrom1970(b)
    decreases b - a
  {
    DaysFromStep(a);
    if a + 1 < b {
      YearsAscend(a + 1, b);
      DaysFromStep(a + 1);
    }
  }

  // ---------------------------------------------------------------------------
  // Months

  function MonthLength(y: int, m: int): (n: nat)
    requires 1 <= m <= 12
    ensures 28 <= n <= 31
  {
    if m == 2 then (if IsLeap(y) then 29 else 28)
    else if m == 4 || m == 6 || m == 9 || m == 11 then 30
    else 31
  }

  /** Days in months `m` to 12 of year `y`. */
  function DaysFromMonth(y: int, m: int): nat
    requires 1 <= m <= 12
    decreases 12 - m
  {
    if m == 12 then MonthLength(y, 12) else MonthLength(y, m) + DaysFromMonth(y, m + 1)
  }

  /** Days in months 1 to `m - 1` of year `y`. */
  function DaysBeforeMonth(y: int, m: int): nat
    requires 1 <= m <= 12
  {
    if m == 1 then 0 else DaysBeforeMonth(y, m - 1) + MonthLength(y, m - 1)
  }

  lemma {:induction false} MonthsFillYear(y: int, m: int)
    requires 1 <= m <= 12
    ensures DaysBeforeMonth(y, m) + DaysFromMonth(y, m) == YearLength(y)
    decreases 12 - m
  {
    if m < 12 {
      MonthsFillYear(y, m + 1);
      MonthMoves(y, m);
    } else {
      DecemberCloses(y);
    }
  }

  /** Moving month `m` from the months ahead to the months before. */
  lemma MonthMoves(y: int, m: int)
    requires 1 <= m < 12
    ensures DaysBeforeMonth(y, m + 1) == DaysBeforeMonth(y, m) + MonthLength(y, m)
    ensures DaysFromMonth(y, m) == MonthLength(y, m) + DaysFromMonth(y, m + 1)
  {
  }

  /** The days before December and December itself make up the year. */
  lemma DecemberCloses(y: int)
    ensures DaysBeforeMonth(y, 12) + DaysFromMonth(y, 12) == YearLength(y)
  {
    var feb := MonthLength(y, 2);
    assert DaysBeforeMonth(y, 2) == 31;
    assert DaysBeforeMonth(y, 3) == 31 + feb;
    assert DaysBeforeMonth(y, 4) == 62 + feb;
    assert DaysBeforeMonth(y, 5) == 92 + feb;
    assert DaysBeforeMonth(y, 6) == 123 + feb;
    assert DaysBeforeMonth(y, 7) == 153 + feb;
    assert DaysBeforeMonth(y, 8) == 184 + feb;
    assert DaysBeforeMonth(y, 9) == 215 + feb;
    assert DaysBeforeMonth(y, 10) == 245 + feb;
    assert DaysBeforeMonth(y, 11) == 276 + feb;
    assert DaysBeforeMonth(y, 12) == 306 + feb;
    assert DaysFromMonth(y, 12) == 31;
  }

  /** The month and day of the month of day `doy` (from 0) counted from the start of month `m`. */
  function MonthOf(doy: nat, y: int, m: int): (r: (int, int))
    requires 1 <= m <= 12 && doy < DaysFromMonth(y, m)
    ensures m <= r.0 <= 12 && 1 <= r.1 <= MonthLength(y, r.0)
    ensures DaysBeforeMonth(y, r.0) + r.1 - 1 == DaysBeforeMonth(y, m) + doy
    decreases 12 - m
  {
    if doy < MonthLength(y, m) then (m, doy + 1)
    else MonthOf(doy - MonthLength(y, m), y, m + 1)
  }

  // ---------------------------------------------------------------------------
  // Broken-down UTC time

  datatype DateTime = DateTime(year: int, month: int, day: int, hour: int, minute: int, second: int)

  predicate InRange(d: DateTime) {
    1 <= d.month <= 12 && 1 <= d.day <= MonthLength(d.year, d.month)
    && 0 <= d.hour < 24 && 0 <= d.minute < 60 && 0 <= d.second < 60
  }

  /** The instant, in epoch milliseconds, that a broken-down UTC time names. */
  function InstantOf(d: DateTime): int
    requires 1 <= d.month <= 12
  {
    (DaysFrom1970(d.year) + DaysBeforeMonth(d.year, d.month) + d.day - 1) * MsPerDay
      + d.hour * 3600000 + d.minute * 60000 + d.second * 1000
  }

  /** `getUTCFullYear()`, `getUTCMonth() + 1`, `getUTCDate()`, `getUTCHours()`, `getUTCMinutes()`, `getUTCSeconds()`. */
  function UtcFields(ms: int): (d: DateTime)
    ensures InRange(d)
  {
    var days := ms / MsPerDay;
    var secondOfDay := (ms % MsPerDay) / 1000;
    var (year, doy) := YearOf(days, 1970);
    MonthsFillYear(year, 1);
    var (month, day) := MonthOf(doy, year, 1);
    DateTime(year, month, day, secondOfDay / 3600, secondOfDay % 3600 / 60, secondOfDay % 60)
  }

  /** The broken-down time names the instant truncated to whole seconds. */
  lemma UtcFieldsDenote(ms: int)
    ensures InstantOf(UtcFields(ms)) == ms - ms % 1000
  {
    var days := ms / MsPerDay;
    var secondOfDay := (ms % MsPerDay) / 1000;
    var (year, doy) := YearOf(days, 1970);
    MonthsFillYear(year, 1);
    var (month, day) := MonthOf(doy, year, 1);
    assert DaysFrom1970(year) + DaysBeforeMonth(year, month) + day - 1 == days;
    ClockOfDay(secondOfDay);
    SplitMilliseconds(ms);
  }

  /** Hours, minutes and seconds make up the second of the day. */
  lemma ClockOfDay(s: nat)
    ensures s / 3600 * 3600000 + s % 3600 / 60 * 60000 + s % 60 * 1000 == s * 1000
  {
    MinutesOfHour(s);
    assert s == s / 3600 * 3600 + s % 3600;
  }

  /** The seconds into the hour are its whole minutes and the seconds into the minute. */
  lemma MinutesOfHour(s: nat)
    ensures s % 3600 / 60 * 60 + s % 60 == s % 3600
  {
    var rest := s % 3600;
    var q := s / 3600 * 60 + rest / 60;
    assert s == q * 60 + rest % 60;
    SecondsOfMinute(q, rest % 60);
  }

  lemma SecondsOfMinute(q: int, sec: int)
    requires 0 <= sec < 60
    ensures (q * 60 + sec) % 60 == sec
  {
  }

  /** An instant is its whole days, the whole seconds of its day, and its milliseconds. */
  lemma SplitMilliseconds(ms: int)
    ensures ms == ms / MsPerDay * MsPerDay + (ms % MsPerDay) / 1000 * 1000 + ms % 1000
  {
    var r := ms % MsPerDay;
    assert ms == ms / MsPerDay * MsPerDay + r;
    assert ms % 1000 == r % 1000 by {
      assert ms - r == ms / MsPerDay * 86400 * 1000;
    }
  }

  /** The day of the year a date names, counted from 0. */
  function DayOfYear(d: DateTime): int
    requires 1 <= d.month <= 12
  {
    DaysBeforeMonth(d.year, d.month) + d.day - 1
  }

  lemma DayOfYearInYear(d: DateTime)
    requires InRange(d)
    ensures 0 <= DayOfYear(d) < YearLength(d.year)
  {
    MonthsFillYear(d.year, d.month);
    MonthLengthLeadsRest(d.year, d.month);
  }

  lemma MonthLengthLeadsRest(y: int, m: int)
    requires 1 <= m <= 12
    ensures MonthLength(y, m) <= DaysFromMonth(y, m)
  {
  }

  /** A later month of the same year starts no earlier than the end of an earlier one. */
  lemma {:induction false} MonthsAscend(y: int, a: int, b: int)
    requires 1 <= a < b <= 12
    ensures DaysBeforeMonth(y, a) + MonthLength(y, a) <= DaysBeforeMonth(y, b)
    decreases b - a
  {
    if a + 1 < b {
      MonthsAscend(y, a + 1, b);
    }
  }

  /** Chronological order of broken-down times: field by field, from the year down. */
  predicate Before(d: DateTime, e: DateTime) {
    d.year < e.year
    || (d.year == e.year && (d.month < e.month
    || (d.month == e.month && (d.day < e.day
    || (d.day == e.day && (d.hour < e.hour
    || (d.hour == e.hour && (d.minute < e.minute
    || (d.minute == e.minute && d.second < e.second)))))))))
  }

  /** An earlier broken-down time names an earlier instant. */
  lemma BeforeIsEarlier(d: DateTime, e: DateTime)
    requires InRange(d) && InRange(e) && Before(d, e)
    ensures InstantOf(d) < InstantOf(e)
  {
    var dd := DaysFrom1970(d.year) + DayOfYear(d);
    var de := DaysFrom1970(e.year) + DayOfYear(e);
    DayOfYearInYear(d);
    DayOfYearInYear(e);
    if d.year < e.year {
      YearsAscend(d.year, e.year);
      assert dd < de;
    } else if d.month < e.month {
      MonthsAscend(d.year, d.month, e.month);
      assert dd < de;
    }
    var td := d.hour * 3600000 + d.minute * 60000 + d.second * 1000;
    var te := e.hour * 3600000 + e.minute * 60000 + e.second * 1000;
    assert 0 <= td < MsPerDay && 0 <= te < MsPerDay;
    assert InstantOf(d) == dd * MsPerDay + td;
    assert InstantOf(e) == de * MsPerDay + te;
    if dd < de {
      assert dd * MsPerDay + MsPerDay <= de * MsPerDay;
    }
  }

  /**
   * The query-format fields never go backwards: a later input never renders
   * an earlier broken-down time.
   */
  lemma UtcFieldsMonotone(ms1: int, ms2: int)
    requires ms1 <= ms2
    ensures !Before(UtcFields(ms2), UtcFields(ms1))
  {
    UtcFieldsDenote(ms1);
    UtcFieldsDenote(ms2);
    FloorThousandMonotone(ms1, ms2);
    if Before(UtcFields(ms2), UtcFields(ms1)) {
      BeforeIsEarlier(UtcFields(ms2), UtcFields(ms1));
    }
  }

  lemma FloorThousandMonotone(a: int, b: int)
    requires a <= b
    ensures a - a % 1000 <= b - b % 1000
  {
    assert a - a % 1000 == a / 1000 * 1000;
    assert b - b % 1000 == b / 1000 * 1000;
    assert a / 1000 <= b / 1000;
  }

  /** Only one year and day of the year fit a day count. */
  lemma YearOfUnique(days: int, y: int, year: int, doy: nat)
    requires doy < YearLength(year) && DaysFrom1970(year) + doy == DaysFrom1970(y) + days
    ensures YearOf(days, y) == (year, doy)
  {
    var r := YearOf(days, y);
    if r.0 < year {
      YearsAscend(r.0, year);
    } else if year < r.0 {
      YearsAscend(year, r.0);
    }
  }

  /** Only one month and day of the month fit a day of the year. */
  lemma MonthOfUnique(doy: nat, y: int, month: int, day: int)
    requires 1 <= month <= 12 && 1 <= day <= MonthLength(y, month)
    requires DaysBeforeMonth(y, month) + day - 1 == doy
    requires doy < DaysFromMonth(y, 1)
    ensures MonthOf(doy, y, 1) == (month, day)
  {
    var r := MonthOf(doy, y, 1);
    if r.0 < month {
      MonthsAscend(y, r.0, month);
    } else if month < r.0 {
      MonthsAscend(y, month, r.0);
    }
  }

  /** Breaking down the instant a broken-down time names gives that time back. */
  lemma UtcFieldsOfInstant(d: DateTime)
    requires InRange(d)
    ensures UtcFields(InstantOf(d)) == d
  {
    var ms := InstantOf(d);
    var days := DaysFrom1970(d.year) + DayOfYear(d);
    var secondOfDay := d.hour * 3600 + d.minute * 60 + d.second;
    assert 0 <= secondOfDay * 1000 < MsPerDay;
    assert ms == days * MsPerDay + secondOfDay * 1000;
    assert ms / MsPerDay == days && ms % MsPerDay == secondOfDay * 1000;
    assert secondOfDay * 1000 / 1000 == secondOfDay;
    assert secondOfDay / 3600 == d.hour && secondOfDay % 3600 == d.minute * 60 + d.second;
    assert (d.minute * 60 + d.second) / 60 == d.minute;
    assert secondOfDay % 60 == d.second;
    DayOfYearInYear(d);
    YearOfUnique(days, 1970, d.year, DayOfYear(d));
    MonthsFillYear(d.year, 1);
    MonthOfUnique(DayOfYear(d), d.year, d.month, d.day);
  }

  // ---------------------------------------------------------------------------
  // The two formats

  /** `${year}-${month}-${day} ${hour}:${minute}:${second}`, every field but the year padded to two digits. */
  function Render(d: DateTime): string
    requires InRange(d)
  {
    IntToString(d.year) + ("-" + MonthPart(d))
  }

  /** `MM-DD HH:MM:SS`, the part of the rendering after the year and its dash. */
  function MonthPart(d: DateTime): string
    requires InRange(d)
  {
    Pad2(d.month) + ("-" + DayPart(d))
  }

  /** `DD HH:MM:SS`. */
  function DayPart(d: DateTime): string
    requires InRange(d)
  {
    Pad2(d.day) + (" " + Clock(d))
  }

  /** `HH:MM:SS`. */
  function Clock(d: DateTime): string
    requires InRange(d)
  {
    Pad2(d.hour) + (":" + (Pad2(d.minute) + (":" + Pad2(d.second))))
  }

  /** Three-digit zero padding of a millisecond count. */
  function Pad3(n: nat): (r: string)
    requires n < 1000
    ensures |r| == 3 && AllDigits(r) && DigitsValue(r) == n
  {
    DigitsWithin(n, 3);
    ZeroPad(NatToString(n), 3)
  }

  /**
   * The year as `toISOString` writes it: four digits, zero-padded, for the
   * years 0 to 9999; otherwise a sign and at least six digits.
   */
  function IsoYear(y: int): (r: string)
    ensures 0 <= y <= 9999 ==> |r| == 4 && AllDigits(r) && DigitsValue(r) == y
    ensures 1000 <= y <= 9999 ==> r == IntToString(y)
    ensures !(0 <= y <= 9999) ==>
      |r| >= 7 && r[0] == (if y < 0 then '-' else '+') && AllDigits(r[1..]) && DigitsValue(r[1..]) == (if y < 0 then -y else y)
  {
    if 0 <= y <= 9999 then
      DigitsWithin(y, 4);
      ZeroPad(NatToString(y), 4)
    else
      var sign := if y < 0 then "-" else "+";
      var digits := ZeroPad(NatToString(if y < 0 then -y else y), 6);
      assert (sign + digits)[1..] == digits;
      sign + digits
  }

  /** `new Date(ms).toISOString()`: `YYYY-MM-DDTHH:MM:SS.mmmZ`, the year as `IsoYear` writes it. */
  function IsoText(ms: int): (r: string)
    ensures r != []
  {
    var d := UtcFields(ms);
    IsoYear(d.year) + ("-" + Pad2(d.month) + "-" + Pad2(d.day) + "T" + Clock(d) + "." + Pad3(ms % 1000) + "Z")
  }

  /**
   * `toISOString()` is `<year>-MM-DDTHH:MM:SS.mmmZ` for the instant's own
   * UTC fields, each field at its offset after the year.
   */
  lemma IsoTextShape(ms: int)
    ensures var d := UtcFields(ms); var r := IsoText(ms); var y := IsoYear(d.year); var n := |y|;
      && |r| == n + 20 && r[..n] == y
      && r[n] == '-' && r[n + 1..n + 3] == Pad2(d.month)
      && r[n + 3] == '-' && r[n + 4..n + 6] == Pad2(d.day)
      && r[n + 6] == 'T' && r[n + 7..n + 15] == Clock(d)
      && r[n + 15] == '.' && r[n + 16..n + 19] == Pad3(ms % 1000)
      && r[n + 19] == 'Z'
  {
    var d := UtcFields(ms);
    ClockShape(d);
    IsoParts(IsoText(ms), IsoYear(d.year), Pad2(d.month), Pad2(d.day), Clock(d), Pad3(ms % 1000));
  }

  /** `<y>-<mo>-<dd>T<c>.<f>Z`, each piece at its offset after `y`. */
  lemma IsoParts(r: string, y: string, mo: string, dd: string, c: string, f: string)
    requires |mo| == 2 && |dd| == 2 && |c| == 8 && |f| == 3
    requires r == y + ("-" + mo + "-" + dd + "T" + c + "." + f + "Z")
    ensures var n := |y|;
      && |r| == n + 20 && r[..n] == y
      && r[n] == '-' && r[n + 1..n + 3] == mo && r[n + 3] == '-' && r[n + 4..n + 6] == dd
      && r[n + 6] == 'T' && r[n + 7..n + 15] == c && r[n + 15] == '.' && r[n + 16..n + 19] == f
      && r[n + 19] == 'Z'
  {
    var t := "-" + mo + "-" + dd + "T" + c + "." + f + "Z";
    var n := |y|;
    IsoTail(t, mo, dd, c, f);
    assert r[n..] == t;
    SliceOfTail(r, n, t, 0, 1);
    SliceOfTail(r, n, t, 1, 3);
    SliceOfTail(r, n, t, 3, 4);
    SliceOfTail(r, n, t, 4, 6);
    SliceOfTail(r, n, t, 6, 7);
    SliceOfTail(r, n, t, 7, 15);
    SliceOfTail(r, n, t, 15, 16);
    SliceOfTail(r, n, t, 16, 19);
    SliceOfTail(r, n, t, 19, 20);
  }

  /** The part of `toISOString()` after the year, each field at its offset. */
  lemma IsoTail(t: string, mo: string, dd: string, c: string, f: string)
    requires |mo| == 2 && |dd| == 2 && |c| == 8 && |f| == 3
    requires t == "-" + mo + "-" + dd + "T" + c + "." + f + "Z"
    ensures |t| == 20 && t[0] == '-' && t[1..3] == mo && t[3] == '-' && t[4..6] == dd
      && t[6] == 'T' && t[7..15] == c && t[15] == '.' && t[16..19] == f && t[19] == 'Z'
  {
  }

  /**
   * The "Generated at" time of an ADI header: `toISOString()` with the `T`
   * turned into a space and the milliseconds and `Z` removed, which is the
   * rendering of the instant itself (not one second later).
   */
  function GeneratedText(ms: int): string {
    var d := UtcFields(ms);
    IsoYear(d.year) + ("-" + MonthPart(d))
  }

  /** Text with no `<` in it, so that it cannot open an ADIF tag. */
  predicate LtFree(s: string) {
    forall k :: 0 <= k < |s| ==> s[k] != '<'
  }

  lemma LtFreeJoin(a: string, b: string)
    requires LtFree(a) && LtFree(b)
    ensures LtFree(a + b)
  {
    forall k | 0 <= k < |a + b| ensures (a + b)[k] != '<' {
      if k < |a| { assert (a + b)[k] == a[k]; } else { assert (a + b)[k] == b[k - |a|]; }
    }
  }

  lemma DigitsLtFree(s: string)
    requires AllDigits(s)
    ensures LtFree(s)
  {
    forall k | 0 <= k < |s| ensures s[k] != '<' {
      assert IsDigit(s[k]);
    }
  }

  /** Every rendering of a clock reading is made of digits and `-`, ` ` and `:` only, never `<`. */
  lemma GeneratedTextLtFree(ms: int)
    ensures LtFree(GeneratedText(ms))
  {
    var d := UtcFields(ms);
    DigitsLtFree(Pad2(d.hour));
    DigitsLtFree(Pad2(d.minute));
    DigitsLtFree(Pad2(d.second));
    LtFreeJoin(":", Pad2(d.second));
    LtFreeJoin(Pad2(d.minute), ":" + Pad2(d.second));
    LtFreeJoin(":", Pad2(d.minute) + (":" + Pad2(d.second)));
    LtFreeJoin(Pad2(d.hour), ":" + (Pad2(d.minute) + (":" + Pad2(d.second))));
    DigitsLtFree(Pad2(d.day));
    LtFreeJoin(" ", Clock(d));
    LtFreeJoin(Pad2(d.day), " " + Clock(d));
    DigitsLtFree(Pad2(d.month));
    LtFreeJoin("-", DayPart(d));
    LtFreeJoin(Pad2(d.month), "-" + DayPart(d));
    LtFreeJoin("-", MonthPart(d));
    IsoYearLtFree(d.year);
    LtFreeJoin(IsoYear(d.year), "-" + MonthPart(d));
  }

  lemma IsoYearLtFree(y: int)
    ensures LtFree(IsoYear(y))
  {
    var r := IsoYear(y);
    if 0 <= y <= 9999 {
      DigitsLtFree(r);
    } else {
      forall k | 0 <= k < |r| ensures r[k] != '<' {
        if k > 0 {
          assert r[k] == r[1..][k - 1];
        }
      }
    }
  }

  /** In the years 1000 to 9999 the "Generated at" time is the query format of the same instant. */
  lemma GeneratedTextIsRender(ms: int)
    requires 1000 <= UtcFields(ms).year <= 9999
    ensures GeneratedText(ms) == Render(UtcFields(ms))
  {
  }

  /** What `String(NaN)` fields render as for an invalid date. */
  const InvalidRendering := "NaN-NaN-NaN NaN:NaN:NaN"

  /**
   * `timestampToLoTWQueryFormat`: None (null) for a falsy input, that is, a
   * missing value or 0; otherwise the UTC rendering of the instant one
   * second later, or the NaN rendering when that instant is outside the
   * range of `Date`.
   */
  function QueryFormat(timestamp: Option<int>): Option<string> {
    if timestamp.None? || timestamp.value == 0 then None
    else
      var adjusted := timestamp.value + 1000;
      if adjusted < -MaxTime || adjusted > MaxTime then Some(InvalidRendering)
      else Some(Render(UtcFields(adjusted)))
  }

  /** `s.replace(/[-: ]/g, "")`. */
  function StripSeparators(s: string): (r: string)
    ensures |r| <= |s|
    ensures forall k :: 0 <= k < |r| ==> r[k] != '-' && r[k] != ':' && r[k] != ' '
  {
    if s == [] then []
    else (if s[0] == '-' || s[0] == ':' || s[0] == ' ' then [] else [s[0]]) + StripSeparators(s[1..])
  }

  /** `timestampToLoTWUrlFormat`. */
  function UrlFormat(timestamp: Option<int>): Option<string> {
    match QueryFormat(timestamp)
    case None => None
    case Some(q) => if q == "" then None else Some(StripSeparators(q))
  }

  // ---------------------------------------------------------------------------
  // Properties of the rendering

  /** A four-digit year renders as two two-digit halves. */
  lemma FourDigitYear(y: int)
    requires 1000 <= y <= 9999
    ensures IntToString(y) == Pad2(y / 100) + Pad2(y % 100)
  {
    assert NatToString(y / 1000) == [('0' as int + y / 1000) as char];
    assert NatToString(y / 100) == NatToString(y / 1000) + [('0' as int + y / 100 % 10) as char];
    assert NatToString(y / 10) == NatToString(y / 100) + [('0' as int + y / 10 % 10) as char];
    assert NatToString(y) == NatToString(y / 10) + [('0' as int + y % 10) as char];
    assert y / 100 / 10 == y / 1000 && y % 100 / 10 == y / 10 % 10 && y % 100 % 10 == y % 10;
  }

  /** With a four-digit year the query format is exactly `YYYY-MM-DD HH:MM:SS`, 19 characters. */
  lemma RenderShape(d: DateTime)
    requires InRange(d) && 1000 <= d.year <= 9999
    ensures var s := Render(d);
      |s| == 19 && s[4] == '-' && s[7] == '-' && s[10] == ' ' && s[13] == ':' && s[16] == ':'
      && s[..4] == IntToString(d.year) && s[5..7] == Pad2(d.month) && s[8..10] == Pad2(d.day)
      && s[11..13] == Pad2(d.hour) && s[14..16] == Pad2(d.minute) && s[17..] == Pad2(d.second)
  {
    FourDigitYear(d.year);
    MonthPartShape(d);
    var s := Render(d);
    var mp := MonthPart(d);
    FieldJoin(IntToString(d.year), '-', mp, s);
    SliceOfTail(s, 5, mp, 0, 2);
    SliceOfTail(s, 5, mp, 3, 5);
    SliceOfTail(s, 5, mp, 6, 8);
    SliceOfTail(s, 5, mp, 9, 11);
    SliceOfTail(s, 5, mp, 12, 14);
  }

  /** `p`, a separator and `rest`: each piece where it belongs. */
  lemma FieldJoin(p: string, sep: char, rest: string, s: string)
    requires s == p + ([sep] + rest)
    ensures |s| == |p| + 1 + |rest| && s[|p|] == sep && s[..|p|] == p && s[|p| + 1..] == rest
  {
  }

  /** A slice of the tail of `s` from `a` is a slice of `s`. */
  lemma SliceOfTail(s: string, a: nat, m: string, i: nat, j: nat)
    requires a <= |s| && s[a..] == m && i <= j <= |m|
    ensures s[a + i..a + j] == m[i..j] && (i < j ==> s[a + i] == m[i])
  {
    assert s[a + i..a + j] == s[a..][i..j];
  }

  /** `HH:MM:SS`, each field in its place. */
  lemma ClockShape(d: DateTime)
    requires InRange(d)
    ensures var c := Clock(d);
      |c| == 8 && c[2] == ':' && c[5] == ':'
      && c[..2] == Pad2(d.hour) && c[3..5] == Pad2(d.minute) && c[6..] == Pad2(d.second)
  {
    var c := Clock(d);
    var ms := ":" + Pad2(d.second);
    var rest := Pad2(d.minute) + ms;
    FieldJoin(Pad2(d.hour), ':', rest, c);
    FieldJoin(Pad2(d.minute), ':', Pad2(d.second), rest);
    SliceOfTail(c, 3, rest, 0, 2);
    SliceOfTail(c, 3, rest, 2, 3);
    assert c[6..] == rest[3..];
  }

  /** `DD HH:MM:SS`, each field in its place. */
  lemma DayPartShape(d: DateTime)
    requires InRange(d)
    ensures var dp := DayPart(d);
      |dp| == 11 && dp[2] == ' ' && dp[5] == ':' && dp[8] == ':' && dp[..2] == Pad2(d.day)
      && dp[3..5] == Pad2(d.hour) && dp[6..8] == Pad2(d.minute) && dp[9..] == Pad2(d.second)
  {
    ClockShape(d);
    var dp := DayPart(d);
    var c := Clock(d);
    FieldJoin(Pad2(d.day), ' ', c, dp);
    SliceOfTail(dp, 3, c, 0, 2);
    SliceOfTail(dp, 3, c, 2, 3);
    SliceOfTail(dp, 3, c, 3, 5);
    SliceOfTail(dp, 3, c, 5, 6);
    assert dp[9..] == c[6..];
  }

  /** `MM-DD HH:MM:SS`, each field in its place. */
  lemma MonthPartShape(d: DateTime)
    requires InRange(d)
    ensures var mp := MonthPart(d);
      |mp| == 14 && mp[2] == '-' && mp[5] == ' ' && mp[8] == ':' && mp[11] == ':'
      && mp[..2] == Pad2(d.month) && mp[3..5] == Pad2(d.day)
      && mp[6..8] == Pad2(d.hour) && mp[9..11] == Pad2(d.minute) && mp[12..] == Pad2(d.second)
  {
    DayPartShape(d);
    var mp := MonthPart(d);
    var dp := DayPart(d);
    FieldJoin(Pad2(d.month), '-', dp, mp);
    SliceOfTail(mp, 3, dp, 0, 2);
    SliceOfTail(mp, 3, dp, 2, 3);
    SliceOfTail(mp, 3, dp, 3, 5);
    SliceOfTail(mp, 3, dp, 5, 6);
    SliceOfTail(mp, 3, dp, 6, 8);
    SliceOfTail(mp, 3, dp, 8, 9);
    assert mp[12..] == dp[9..];
  }

  /** One field of the rendering: a smaller field, or an equal one followed by a smaller rest, sorts first. */
  lemma FieldOrder(x: nat, y: nat, sep: string, a: string, b: string)
    requires x < 100 && y < 100
    requires x < y || (x == y && LexLe(a, b))
    ensures LexLe(Pad2(x) + (sep + a), Pad2(y) + (sep + b))
  {
    if x < y {
      Pad2Order(x, y, sep + a, sep + b);
    } else {
      LexLeCommonPrefix(sep, a, b);
      LexLeCommonPrefix(Pad2(x), sep + a, sep + b);
    }
  }

  lemma ClockMonotone(d: DateTime, e: DateTime)
    requires InRange(d) && InRange(e)
    requires d.hour < e.hour || (d.hour == e.hour && (d.minute < e.minute || (d.minute == e.minute && d.second <= e.second)))
    ensures LexLe(Clock(d), Clock(e))
  {
    if d.second < e.second {
      Pad2Order(d.second, e.second, [], []);
      assert Pad2(d.second) + [] == Pad2(d.second) && Pad2(e.second) + [] == Pad2(e.second);
    } else {
      LexLeRefl(Pad2(d.second));
    }
    if d.hour == e.hour && d.minute == e.minute {
      FieldOrder(d.minute, e.minute, ":", Pad2(d.second), Pad2(e.second));
    } else if d.hour == e.hour {
      Pad2Order(d.minute, e.minute, ":" + Pad2(d.second), ":" + Pad2(e.second));
    }
    FieldOrder(d.hour, e.hour, ":", Pad2(d.minute) + (":" + Pad2(d.second)), Pad2(e.minute) + (":" + Pad2(e.second)));
  }

  /** Within one year the part after the year sorts as the times do. */
  lemma MonthPartMonotone(d: DateTime, e: DateTime)
    requires InRange(d) && InRange(e) && d.year == e.year && !Before(e, d)
    ensures LexLe(MonthPart(d), MonthPart(e))
  {
    if d.month == e.month && d.day == e.day {
      ClockMonotone(d, e);
    }
    if d.month == e.month {
      FieldOrder(d.day, e.day, " ", Clock(d), Clock(e));
    }
    FieldOrder(d.month, e.month, "-", DayPart(d), DayPart(e));
  }

  /**
   * For four-digit years the query format sorts as the times do: a time not
   * after another renders to a string not after the other's.
   */
  lemma RenderMonotone(d: DateTime, e: DateTime)
    requires InRange(d) && InRange(e) && 1000 <= d.year <= 9999 && 1000 <= e.year <= 9999
    requires !Before(e, d)
    ensures LexLe(Render(d), Render(e))
  {
    var md, me := MonthPart(d), MonthPart(e);
    if d.year == e.year {
      MonthPartMonotone(d, e);
      LexLeCommonPrefix("-", md, me);
    }
    var ya, yb, za, zb := d.year / 100, d.year % 100, e.year / 100, e.year % 100;
    if ya == za && yb != zb {
      Pad2Order(yb, zb, "-" + md, "-" + me);
    } else if ya == za {
      assert d.year == e.year;
      LexLeCommonPrefix(Pad2(yb), "-" + md, "-" + me);
    }
    FieldOrder(ya, za, [], Pad2(yb) + ("-" + md), Pad2(zb) + ("-" + me));
    YearPrefix(d.year, "-" + md);
    YearPrefix(e.year, "-" + me);
  }

  lemma YearPrefix(y: int, rest: string)
    requires 1000 <= y <= 9999
    ensures IntToString(y) + rest == Pad2(y / 100) + ([] + (Pad2(y % 100) + rest))
  {
    FourDigitYear(y);
    assert [] + (Pad2(y % 100) + rest) == Pad2(y % 100) + rest;
  }

  // ---------------------------------------------------------------------------
  // Properties of the two formats

  /** The query format is absent exactly for a falsy timestamp (missing or 0). */
  lemma QueryFormatFalsy(timestamp: Option<int>)
    ensures QueryFormat(timestamp).None? <==> timestamp.None? || timestamp.value == 0
  {
  }

  /**
   * For a non-zero timestamp whose successor second is a valid `Date`, the
   * query format renders a second strictly after the timestamp and at most
   * one second after it, so a query from it excludes the last seen record.
   */
  lemma QueryFormatNextSecond(t: int)
    requires t != 0 && -MaxTime <= t + 1000 <= MaxTime
    ensures var d := UtcFields(t + 1000);
      QueryFormat(Some(t)) == Some(Render(d)) && t < InstantOf(d) <= t + 1000
  {
    QueryFormatRenders(t);
    WithinTheSecond(t + 1000);
  }

  lemma QueryFormatRenders(t: int)
    requires t != 0 && -MaxTime <= t + 1000 <= MaxTime
    ensures QueryFormat(Some(t)) == Some(Render(UtcFields(t + 1000)))
  {
    var timestamp := Some(t);
    assert !(timestamp.None? || timestamp.value == 0);
    assert !(timestamp.value + 1000 < -MaxTime || timestamp.value + 1000 > MaxTime);
  }

  /** The broken-down time of an instant names a moment in the second up to it. */
  lemma WithinTheSecond(ms: int)
    ensures ms - 1000 < InstantOf(UtcFields(ms)) <= ms
  {
    UtcFieldsDenote(ms);
  }

  /** A timestamp one second before the start of a UTC second renders as exactly that second. */
  lemma QueryFormatOfInstant(d: DateTime, t: int)
    requires InRange(d) && t != 0 && t + 1000 == InstantOf(d) && -MaxTime <= InstantOf(d) <= MaxTime
    ensures QueryFormat(Some(t)) == Some(Render(d))
  {
    UtcFieldsOfInstant(d);
  }

  /** Timestamps in the four-digit-year range render in an order that agrees with theirs. */
  lemma QueryFormatMonotone(t1: int, t2: int)
    requires t1 != 0 && t2 != 0 && t1 <= t2
    requires -MaxTime <= t1 + 1000 && t2 + 1000 <= MaxTime
    requires InstantOf(FirstFourDigitSecond) <= t1 + 1000 && t2 + 1000 <= InstantOf(LastFourDigitSecond)
    ensures QueryFormat(Some(t1)).Some? && QueryFormat(Some(t2)).Some?
    ensures LexLe(QueryFormat(Some(t1)).value, QueryFormat(Some(t2)).value)
  {
    var d1, d2 := UtcFields(t1 + 1000), UtcFields(t2 + 1000);
    QueryFormatNextSecond(t1);
    QueryFormatNextSecond(t2);
    FourDigitYears(t1 + 1000);
    FourDigitYears(t2 + 1000);
    UtcFieldsMonotone(t1 + 1000, t2 + 1000);
    RenderMonotone(d1, d2);
  }

  /** The instants from the first to the last second of years 1000 to 9999 have four-digit years. */
  lemma FourDigitYears(ms: int)
    requires InstantOf(FirstFourDigitSecond) <= ms <= InstantOf(LastFourDigitSecond)
    ensures 1000 <= UtcFields(ms).year <= 9999
  {
    UtcFieldsOfInstant(FirstFourDigitSecond);
    UtcFieldsOfInstant(LastFourDigitSecond);
    UtcFieldsMonotone(InstantOf(FirstFourDigitSecond), ms);
    UtcFieldsMonotone(ms, InstantOf(LastFourDigitSecond));
  }

  const FirstFourDigitSecond := DateTime(1000, 1, 1, 0, 0, 0)
  const LastFourDigitSecond := DateTime(9999, 12, 31, 23, 59, 59)

  /** Removing the separators distributes over concatenation. */
  lemma {:induction false} StripConcat(a: string, b: string)
    ensures StripSeparators(a + b) == StripSeparators(a) + StripSeparators(b)
  {
    if a == [] {
      assert a + b == b;
    } else {
      assert (a + b)[1..] == a[1..] + b;
      StripConcat(a[1..], b);
    }
  }

  /** A run of digits has no separators to remove. */
  lemma {:induction false} StripDigits(s: string)
    requires AllDigits(s)
    ensures StripSeparators(s) == s
  {
    if s != [] {
      assert AllDigits(s[1..]);
      StripDigits(s[1..]);
      assert s == [s[0]] + s[1..];
    }
  }

  /** A separator followed by two digits strips to the two digits. */
  lemma StripField(sep: string, n: nat)
    requires n < 100 && (sep == "-" || sep == ":" || sep == " ")
    ensures StripSeparators(sep + Pad2(n)) == Pad2(n)
  {
    StripConcat(sep, Pad2(n));
    StripDigits(Pad2(n));
    assert StripSeparators(sep) == [] + StripSeparators(sep[1..]);
    assert sep[1..] == [];
  }

  lemma StripClock(d: DateTime)
    requires InRange(d)
    ensures StripSeparators(Clock(d)) == Pad2(d.hour) + Pad2(d.minute) + Pad2(d.second)
  {
    StripField(":", d.second);
    StripSeparatorsHead(":", Pad2(d.minute), Pad2(d.second));
    StripSeparatorsHead(":", Pad2(d.hour), Pad2(d.minute) + (":" + Pad2(d.second)));
  }

  /** The URL format of a rendering: the fourteen digits `YYYYMMDDHHMMSS`. */
  lemma StripRender(d: DateTime)
    requires InRange(d) && 1000 <= d.year <= 9999
    ensures StripSeparators(Render(d)) == UrlDigits(d)
  {
    StripClock(d);
    StripSeparatorsHead(" ", Pad2(d.day), Clock(d));
    StripSeparatorsHead("-", Pad2(d.month), DayPart(d));
    StripSeparatorsHead("-", IntToString(d.year), MonthPart(d));
  }

  /** `YYYYMMDDHHMMSS` for a four-digit year. */
  function UrlDigits(d: DateTime): (r: string)
    requires InRange(d) && 1000 <= d.year <= 9999
    ensures |r| == 14 && AllDigits(r)
  {
    FourDigitYear(d.year);
    IntToString(d.year) + (Pad2(d.month) + (Pad2(d.day) + (Pad2(d.hour) + Pad2(d.minute) + Pad2(d.second))))
  }

  /** `digits + sep + rest` strips to the digits followed by the stripped rest. */
  lemma StripSeparatorsHead(sep: string, digits: string, rest: string)
    requires AllDigits(digits) && (sep == "-" || sep == ":" || sep == " ")
    ensures StripSeparators(digits + (sep + rest)) == digits + StripSeparators(rest)
  {
    StripConcat(digits, sep + rest);
    StripConcat(sep, rest);
    StripDigits(digits);
    assert StripSeparators(sep) == [] + StripSeparators(sep[1..]);
    assert sep[1..] == [];
  }

  /**
   * A timestamp one second before the start of a UTC second with a
   * four-digit year has as URL format the fourteen digits of that second.
   */
  lemma UrlFormatOfInstant(d: DateTime, t: int)
    requires InRange(d) && 1000 <= d.year <= 9999
    requires t != 0 && t + 1000 == InstantOf(d) && -MaxTime <= InstantOf(d) <= MaxTime
    ensures UrlFormat(Some(t)) == Some(UrlDigits(d))
  {
    QueryFormatOfInstant(d, t);
    StripRender(d);
  }

  /** The URL format is absent exactly when the query format is. */
  lemma UrlFormatPresence(timestamp: Option<int>)
    ensures UrlFormat(timestamp).None? <==> QueryFormat(timestamp).None?
  {
    if QueryFormat(timestamp).Some? {
      var t := timestamp.value + 1000;
      if -MaxTime <= t <= MaxTime {
        assert |Render(UtcFields(t))| > 0;
      }
    }
  }
}
