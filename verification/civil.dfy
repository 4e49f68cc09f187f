/** Proleptic Gregorian calendar arithmetic and the fixed-width date/time
    texts the scripts write (`strftime` with numeric fields).

    Times here are naive wall-clock readings and `EpochSeconds` is the
    plain calendar difference from 1970-01-01 00:00. Where a script turns
    a naive time into an instant through the host's local-time zone
    (`timestamp()`, `astimezone()`), the module modelling that script says
    how the host's offset enters.
 */
module Civil {
  import opened Wrappers
  import opened PyText
  import opened Numbers

  datatype DateTime = DateTime(year: int, month: int, day: int, hour: int, minute: int, second: int)

  predicate IsLeap(y: int) {
    y % 4 == 0 && (y % 100 != 0 || y % 400 == 0)
  }

  function DaysInMonth(y: int, m: int): (n: int)
    requires 1 <= m <= 12
    ensures 28 <= n <= 31
  {
    if m == 2 then (if IsLeap(y) then 29 else 28)
    else if m == 4 || m == 6 || m == 9 || m == 11 then 30
    else 31
  }

  predicate ValidDate(y: int, m: int, d: int) {
    1 <= m <= 12 && 1 <= d <= DaysInMonth(y, m)
  }

  predicate Valid(t: DateTime) {
    ValidDate(t.year, t.month, t.day)
    && 0 <= t.hour < 24 && 0 <= t.minute < 60 && 0 <= t.second < 60
  }

  // ---------------------------------------------------------------------
  // Day numbers
  // ---------------------------------------------------------------------

  /** Leap years in 1..x (counted backwards for x < 0). */
  function LeapsThrough(x: int): int {
    x / 4 - x / 100 + x / 400
  }

  lemma LeapStep(y: int)
    ensures LeapsThrough(y) - LeapsThrough(y - 1) == if IsLeap(y) then 1 else 0
  {
    Step4(y);
    Step100(y);
    Step400(y);
    Divides400(y);
    Divides100(y);
    LeapCount(y / 4 - (y - 1) / 4, y / 100 - (y - 1) / 100, y / 400 - (y - 1) / 400,
      y % 4 == 0, y % 100 == 0, y % 400 == 0);
  }

  /** The three counts combine by the Gregorian rule. */
  lemma LeapCount(d4: int, d100: int, d400: int, b4: bool, b100: bool, b400: bool)
    requires d4 == (if b4 then 1 else 0) && d100 == (if b100 then 1 else 0)
    requires d400 == (if b400 then 1 else 0)
    requires b400 ==> b100
    requires b100 ==> b4
    ensures d4 - d100 + d400 == if b4 && (!b100 || b400) then 1 else 0
  {
  }

  lemma Divides400(y: int)
    ensures y % 400 == 0 ==> y % 100 == 0
  {
    if y % 400 == 0 {
      var k := y / 400;
      assert y == 100 * (4 * k);
    }
  }

  lemma Divides100(y: int)
    ensures y % 100 == 0 ==> y % 4 == 0
  {
    if y % 100 == 0 {
      var k := y / 100;
      assert y == 4 * (25 * k);
    }
  }

  lemma Step4(y: int)
    ensures y / 4 - (y - 1) / 4 == if y % 4 == 0 then 1 else 0
  {
    var q, r := (y - 1) / 4, (y - 1) % 4;
    assert y == 4 * q + r + 1;
    if r == 3 {
      assert y == 4 * (q + 1);
    }
  }

  lemma Step100(y: int)
    ensures y / 100 - (y - 1) / 100 == if y % 100 == 0 then 1 else 0
  {
    var q, r := (y - 1) / 100, (y - 1) % 100;
    assert y == 100 * q + r + 1;
    if r == 99 {
      assert y == 100 * (q + 1);
    }
  }

  lemma Step400(y: int)
    ensures y / 400 - (y - 1) / 400 == if y % 400 == 0 then 1 else 0
  {
    var q, r := (y - 1) / 400, (y - 1) % 400;
    assert y == 400 * q + r + 1;
    if r == 399 {
      assert y == 400 * (q + 1);
    }
  }

  /** Days from 1970-01-01 to January 1st of year y. */
  function DaysBeforeYear(y: int): int {
    365 * (y - 1970) + LeapsThrough(y - 1) - LeapsThrough(1969)
  }

  lemma YearStep(y: int)
    ensures DaysBeforeYear(y + 1) == DaysBeforeYear(y) + if IsLeap(y) then 366 else 365
  {
    LeapStep(y);
  }

  /** Days in the months of year y before month m. */
  function DaysBeforeMonth(y: int, m: int): (n: int)
    requires 1 <= m <= 12
    ensures 0 <= n <= 335
  {
    var table := [0, 31, 59, 90, 120, 151, 181, 212, 243, 273, 304, 334];
    table[m - 1] + if m > 2 && IsLeap(y) then 1 else 0
  }

  lemma MonthStep(y: int, m: int)
    requires 1 <= m < 12
    ensures DaysBeforeMonth(y, m + 1) == DaysBeforeMonth(y, m) + DaysInMonth(y, m)
  {
  }

  lemma LastMonth(y: int)
    ensures DaysBeforeMonth(y, 12) + DaysInMonth(y, 12) == if IsLeap(y) then 366 else 365
  {
  }

  /** Days since 1970-01-01 (negative before it). */
  function DayNumber(y: int, m: int, d: int): int
    requires 1 <= m <= 12
  {
    DaysBeforeYear(y) + DaysBeforeMonth(y, m) + d - 1
  }

  lemma EpochDay()
    ensures DayNumber(1970, 1, 1) == 0
  {
  }

  datatype Date = Date(y: int, m: int, d: int)

  predicate ValidDay(t: Date) {
    ValidDate(t.y, t.m, t.d)
  }

  function DayOf(t: Date): int
    requires ValidDay(t)
  {
    DayNumber(t.y, t.m, t.d)
  }

  /** The calendar day after t. */
  function NextDay(t: Date): (r: Date)
    requires ValidDay(t)
    ensures ValidDay(r) && DayOf(r) == DayOf(t) + 1
  {
    if t.d < DaysInMonth(t.y, t.m) then Date(t.y, t.m, t.d + 1)
    else if t.m < 12 then
      MonthStep(t.y, t.m);
      Date(t.y, t.m + 1, 1)
    else
      YearStep(t.y);
      LastMonth(t.y);
      Date(t.y + 1, 1, 1)
  }

  /** The calendar day before t. */
  function PrevDay(t: Date): (r: Date)
    requires ValidDay(t)
    ensures ValidDay(r) && DayOf(r) == DayOf(t) - 1
  {
    if t.d > 1 then Date(t.y, t.m, t.d - 1)
    else if t.m > 1 then
      MonthStep(t.y, t.m - 1);
      Date(t.y, t.m - 1, DaysInMonth(t.y, t.m - 1))
    else
      YearStep(t.y - 1);
      LastMonth(t.y - 1);
      Date(t.y - 1, 12, 31)
  }

  /** `date + timedelta(days=k)`. */
  function AddDays(t: Date, k: int): (r: Date)
    requires ValidDay(t)
    decreases if k < 0 then -k else k
    ensures ValidDay(r) && DayOf(r) == DayOf(t) + k
  {
    if k == 0 then t
    else if k > 0 then AddDays(NextDay(t), k - 1)
    else AddDays(PrevDay(t), k + 1)
  }

  function DateOf(t: DateTime): Date {
    Date(t.year, t.month, t.day)
  }

  /** Seconds since 1970-01-01 00:00:00 of a naive date and time. */
  function EpochSeconds(t: DateTime): int
    requires Valid(t)
  {
    DayNumber(t.year, t.month, t.day) * 86400 + t.hour * 3600 + t.minute * 60 + t.second
  }

  /** Later calendar times have larger epoch seconds: the clock fields never
      overflow into the next day. */
  lemma EpochSecondsOrder(a: DateTime, b: DateTime)
    requires Valid(a) && Valid(b)
    requires DayOf(DateOf(a)) < DayOf(DateOf(b))
    ensures EpochSeconds(a) < EpochSeconds(b)
  {
    var da, db := DayOf(DateOf(a)), DayOf(DateOf(b));
    assert da * 86400 + 86400 <= db * 86400;
  }

  /** The naive time `k` seconds after t (before it when k < 0), as
      `t + timedelta(seconds=k)` gives it. */
  function ShiftSeconds(t: DateTime, k: int): (r: DateTime)
    requires Valid(t)
    ensures Valid(r) && EpochSeconds(r) == EpochSeconds(t) + k
  {
    var total := t.hour * 3600 + t.minute * 60 + t.second + k;
    var day := AddDays(DateOf(t), total / 86400);
    var rem := total % 86400;
    ClockSplit(rem);
    DateTime(day.y, day.m, day.d, rem / 3600, rem % 3600 / 60, rem % 60)
  }

  /** A second of the day splits into hour, minute and second. */
  lemma ClockSplit(rem: int)
    requires 0 <= rem < 86400
    ensures 0 <= rem / 3600 < 24 && 0 <= rem % 3600 / 60 < 60
    ensures rem / 3600 * 3600 + rem % 3600 / 60 * 60 + rem % 60 == rem
  {
  }

  // ---------------------------------------------------------------------
  // Fixed-width text
  // ---------------------------------------------------------------------

  /** `n` as exactly `w` digits (zero padded), as `%m`, `%d`, `%H`, `%M`,
      `%S` and four-digit `%Y` print it. */
  function Digits(n: nat, w: nat): (r: string)
    requires w > 0 && n < Pow10(w)
    ensures |r| == w && AllDigits(r) && DigitsValue(r) == n
    decreases w
  {
    if w == 1 then [DigitChar(n)]
    else
      var r := Digits(n / 10, w - 1) + [DigitChar(n % 10)];
      assert r[..w - 1] == Digits(n / 10, w - 1);
      r
  }

  lemma SmallPowers()
    ensures Pow10(2) == 100 && Pow10(4) == 10000
  {
    assert Pow10(1) == 10;
    assert Pow10(3) == 1000;
  }

  /** A field written by `Digits` reads back as the same number. */
  lemma FieldOfDigits(s: string, i: nat, n: nat, w: nat)
    requires w > 0 && n < Pow10(w) && i + w <= |s|
    requires s[i..i + w] == Digits(n, w)
    ensures FieldAt(s, i, w) == Some(n)
  {
  }

  /** The number written in `s[i..i+w]`, if that slice is all digits. */
  function FieldAt(s: string, i: nat, w: nat): (r: Option<nat>)
    requires i + w <= |s|
    ensures r.Some? ==> r.value < Pow10(w) || w == 0
  {
    if AllDigits(s[i..i + w]) then Some(DigitsBounded(s[i..i + w])) else None
  }

  function DigitsBounded(s: string): (n: nat)
    requires AllDigits(s)
    ensures n == DigitsValue(s) && (n < Pow10(|s|) || |s| == 0)
  {
    DigitsBelowPow(s);
    DigitsValue(s)
  }

  lemma {:induction false} DigitsBelowPow(s: string)
    requires AllDigits(s)
    ensures DigitsValue(s) < Pow10(|s|)
    decreases |s|
  {
    if |s| > 0 {
      DigitsBelowPow(s[..|s| - 1]);
    }
  }

  /** Builds a date/time from parsed fields, failing as `datetime` does on
      an out-of-range field (years run from 1 to 9999). */
  function Build(y: nat, mo: nat, d: nat, h: nat, mi: nat, sec: nat): (r: Result<DateTime>)
    ensures r.Ok? <==> Valid(DateTime(y, mo, d, h, mi, sec)) && 1 <= y <= 9999
    ensures r.Ok? ==> r.value == DateTime(y, mo, d, h, mi, sec)
    ensures r.Fail? ==> r.fault == ValueError
  {
    var t := DateTime(y, mo, d, h, mi, sec);
    if Valid(t) && 1 <= y <= 9999 then Ok(t) else Fail(ValueError)
  }

  /** A time as `%Y%m%d%H%M` writes it (year 0..9999). */
  function FormatCompact(t: DateTime): (r: string)
    requires Valid(t) && 0 <= t.year < 10000
    ensures |r| == 12
  {
    SmallPowers();
    Digits(t.year, 4) + Digits(t.month, 2) + Digits(t.day, 2)
      + Digits(t.hour, 2) + Digits(t.minute, 2)
  }

  /** Each field of a formatted time reads back as that field. */
  lemma CompactFields(t: DateTime)
    requires Valid(t) && 1 <= t.year < 10000
    ensures var s := FormatCompact(t);
      FieldAt(s, 0, 4) == Some(t.year) && FieldAt(s, 4, 2) == Some(t.month)
      && FieldAt(s, 6, 2) == Some(t.day) && FieldAt(s, 8, 2) == Some(t.hour)
      && FieldAt(s, 10, 2) == Some(t.minute)
  {
    CompactDateOf(t);
    CompactTimeOf(t);
  }

  lemma CompactDateOf(t: DateTime)
    requires Valid(t) && 1 <= t.year < 10000
    ensures var s := FormatCompact(t);
      FieldAt(s, 0, 4) == Some(t.year) && FieldAt(s, 4, 2) == Some(t.month) && FieldAt(s, 6, 2) == Some(t.day)
  {
    SmallPowers();
    var s := FormatCompact(t);
    FieldOfDigits(s, 0, t.year, 4);
    FieldOfDigits(s, 4, t.month, 2);
    FieldOfDigits(s, 6, t.day, 2);
  }

  lemma CompactTimeOf(t: DateTime)
    requires Valid(t) && 1 <= t.year < 10000
    ensures var s := FormatCompact(t);
      FieldAt(s, 8, 2) == Some(t.hour) && FieldAt(s, 10, 2) == Some(t.minute)
  {
    SmallPowers();
    var s := FormatCompact(t);
    FieldOfDigits(s, 8, t.hour, 2);
    FieldOfDigits(s, 10, t.minute, 2);
  }

  /** A time as `%Y-%m-%d{sep}%H:%M:%S` writes it; the CSV loader uses 'T'
      and the forecast loaders ' '. */
  function FormatIso(t: DateTime, sep: char): (r: string)
    requires Valid(t) && 0 <= t.year < 10000
    ensures |r| == 19
  {
    FormatDate(DateOf(t)) + [sep] + FormatClock(t)
  }

  /** `%H:%M:%S`. */
  function FormatClock(t: DateTime): (r: string)
    requires Valid(t)
    ensures |r| == 8
  {
    SmallPowers();
    Digits(t.hour, 2) + ":" + Digits(t.minute, 2) + ":" + Digits(t.second, 2)
  }

  /** A field in the front part of a text is the field of that part. */
  lemma FieldInFront(u: string, v: string, i: nat, w: nat)
    requires i + w <= |u|
    ensures FieldAt(u + v, i, w) == FieldAt(u, i, w)
  {
    SliceInFront(u, v, i, i + w);
  }

  /** A field in the back part of a text is the field of that part. */
  lemma FieldBehind(u: string, v: string, j: nat, w: nat)
    requires |u| <= j && j + w <= |u| + |v|
    ensures FieldAt(u + v, j, w) == FieldAt(v, j - |u|, w)
  {
    assert (u + v)[j..j + w] == v[j - |u|..j - |u| + w];
  }

  lemma IsoDateOf(t: DateTime, sep: char)
    requires Valid(t) && 1 <= t.year < 10000
    ensures var s := FormatIso(t, sep);
      s[4] == '-' && s[7] == '-' && s[10] == sep
      && FieldAt(s, 0, 4) == Some(t.year) && FieldAt(s, 5, 2) == Some(t.month) && FieldAt(s, 8, 2) == Some(t.day)
  {
    var date, clock := FormatDate(DateOf(t)), FormatClock(t);
    assert FormatIso(t, sep) == date + [sep] + clock;
    DateFields(DateOf(t));
    FieldInFront(date + [sep], clock, 0, 4);
    FieldInFront(date, [sep], 0, 4);
    FieldInFront(date + [sep], clock, 5, 2);
    FieldInFront(date, [sep], 5, 2);
    FieldInFront(date + [sep], clock, 8, 2);
    FieldInFront(date, [sep], 8, 2);
  }

  lemma IsoTimeOf(t: DateTime, sep: char)
    requires Valid(t) && 1 <= t.year < 10000
    ensures var s := FormatIso(t, sep);
      s[13] == ':' && s[16] == ':'
      && FieldAt(s, 11, 2) == Some(t.hour) && FieldAt(s, 14, 2) == Some(t.minute) && FieldAt(s, 17, 2) == Some(t.second)
  {
    var front, clock := FormatDate(DateOf(t)) + [sep], FormatClock(t);
    assert |front| == 11;
    ClockFields(t);
    FieldBehind(front, clock, 11, 2);
    FieldBehind(front, clock, 14, 2);
    FieldBehind(front, clock, 17, 2);
  }

  lemma ClockFields(t: DateTime)
    requires Valid(t)
    ensures var c := FormatClock(t);
      c[2] == ':' && c[5] == ':'
      && FieldAt(c, 0, 2) == Some(t.hour) && FieldAt(c, 3, 2) == Some(t.minute) && FieldAt(c, 6, 2) == Some(t.second)
  {
    SmallPowers();
    var c := FormatClock(t);
    FieldOfDigits(c, 0, t.hour, 2);
    FieldOfDigits(c, 3, t.minute, 2);
    FieldOfDigits(c, 6, t.second, 2);
  }

  /** `%Y-%m-%d`. */
  function FormatDate(t: Date): (r: string)
    requires ValidDay(t) && 0 <= t.y < 10000
    ensures |r| == 10
  {
    SmallPowers();
    Digits(t.y, 4) + "-" + Digits(t.m, 2) + "-" + Digits(t.d, 2)
  }

  lemma DateFields(t: Date)
    requires ValidDay(t) && 1 <= t.y < 10000
    ensures var s := FormatDate(t);
      s[4] == '-' && s[7] == '-'
      && FieldAt(s, 0, 4) == Some(t.y) && FieldAt(s, 5, 2) == Some(t.m) && FieldAt(s, 8, 2) == Some(t.d)
  {
    SmallPowers();
    var s := FormatDate(t);
    FieldOfDigits(s, 0, t.y, 4);
    FieldOfDigits(s, 5, t.m, 2);
    FieldOfDigits(s, 8, t.d, 2);
  }

  /** `strptime(s, '%Y-%m-%d')` for the zero-padded form. */
  function ParseDate(s: string): (r: Result<Date>)
    ensures r.Ok? ==> |s| == 10 && ValidDay(r.value) && 1 <= r.value.y <= 9999
    ensures r.Fail? ==> r.fault == ValueError
  {
    if |s| != 10 || s[4] != '-' || s[7] != '-' then Fail(ValueError)
    else
      var y := FieldAt(s, 0, 4);
      var mo := FieldAt(s, 5, 2);
      var d := FieldAt(s, 8, 2);
      if y.Some? && mo.Some? && d.Some? && ValidDate(y.value, mo.value, d.value) && 1 <= y.value <= 9999 then
        Ok(Date(y.value, mo.value, d.value))
      else Fail(ValueError)
  }

  lemma DateRoundTrip(t: Date)
    requires ValidDay(t) && 1 <= t.y < 10000
    ensures ParseDate(FormatDate(t)) == Ok(t)
  {
    DateFields(t);
  }

  const MonthAbbrevs: seq<string> :=
    ["JAN", "FEB", "MAR", "APR", "MAY", "JUN", "JUL", "AUG", "SEP", "OCT", "NOV", "DEC"]

  /** `%b` when parsing: the month whose abbreviation matches, ignoring
      case. */
  function MonthFromAbbrev(s: string): (r: Option<nat>)
    ensures r.Some? ==> 1 <= r.value <= 12 && Upper(s) == MonthAbbrevs[r.value - 1]
    ensures r.None? ==> forall k :: 0 <= k < 12 ==> Upper(s) != MonthAbbrevs[k]
  {
    match IndexOf(MonthAbbrevs, Upper(s))
    case Some(k) => Some(k + 1)
    case None => None
  }

  /** The `%d%b%Y %H%M` text of a time, with the month in capitals. */
  function FormatDayMonYear(t: DateTime): (r: string)
    requires Valid(t) && 1 <= t.year < 10000
    ensures |r| == 14
  {
    SmallPowers();
    Digits(t.day, 2) + MonthAbbrevs[t.month - 1] + Digits(t.year, 4) + " "
      + Digits(t.hour, 2) + Digits(t.minute, 2)
  }

  lemma MonthAbbrevRoundTrip(m: nat)
    requires 1 <= m <= 12
    ensures MonthFromAbbrev(MonthAbbrevs[m - 1]) == Some(m)
  {
    var a := MonthAbbrevs[m - 1];
    assert Upper(a) == a by { CapitalsUpper(a); }
    MonthIndex(m - 1);
  }

  lemma MonthIndex(k: nat)
    requires k < 12
    ensures IndexOf(MonthAbbrevs, MonthAbbrevs[k]) == Some(k)
  {
    var a := MonthAbbrevs[k];
    assert forall j :: 0 <= j < k ==> MonthAbbrevs[j] != a;
  }

  lemma CapitalsUpper(s: string)
    requires s in MonthAbbrevs
    ensures Upper(s) == s
  {
    assert forall i :: 0 <= i < |s| ==> 'A' <= s[i] <= 'Z';
  }

  lemma DayMonYearFields(t: DateTime)
    requires Valid(t) && 1 <= t.year < 10000
    ensures var s := FormatDayMonYear(t);
      FieldAt(s, 0, 2) == Some(t.day) && s[2..5] == MonthAbbrevs[t.month - 1]
      && FieldAt(s, 5, 4) == Some(t.year) && s[9] == ' '
      && FieldAt(s, 10, 2) == Some(t.hour) && FieldAt(s, 12, 2) == Some(t.minute)
  {
    DayMonYearDateOf(t);
    DayMonYearTimeOf(t);
  }

  lemma DayMonYearDateOf(t: DateTime)
    requires Valid(t) && 1 <= t.year < 10000
    ensures var s := FormatDayMonYear(t);
      FieldAt(s, 0, 2) == Some(t.day) && s[2..5] == MonthAbbrevs[t.month - 1]
      && FieldAt(s, 5, 4) == Some(t.year)
  {
    SmallPowers();
    var s := FormatDayMonYear(t);
    var d, m, y := Digits(t.day, 2), MonthAbbrevs[t.month - 1], Digits(t.year, 4);
    var rest := " " + Digits(t.hour, 2) + Digits(t.minute, 2);
    assert s == d + m + y + rest;
    SliceInFront(d + m + y, rest, 0, 9);
    SliceInFront(d + m, y, 0, 5);
    SliceInFront(d, m, 0, 2);
    SliceAtEnd(d, m);
    SliceAtEnd(d + m, y);
    FieldOfDigits(s, 0, t.day, 2);
    FieldOfDigits(s, 5, t.year, 4);
  }

  lemma DayMonYearTimeOf(t: DateTime)
    requires Valid(t) && 1 <= t.year < 10000
    ensures var s := FormatDayMonYear(t);
      s[9] == ' ' && FieldAt(s, 10, 2) == Some(t.hour) && FieldAt(s, 12, 2) == Some(t.minute)
  {
    SmallPowers();
    var s := FormatDayMonYear(t);
    FieldOfDigits(s, 10, t.hour, 2);
    FieldOfDigits(s, 12, t.minute, 2);
  }

}
