/**
 Timestamps (`format_epoch_ms` and `civil_from_days` in crates/clustershell-cli/src/run.rs),
 against a Gregorian calendar that is defined by counting years and months.
 */
module Calendar {
  import opened Text

  datatype Date = Date(year: int, month: int, day: int)

  // -------------------------------------------------------- the Gregorian calendar

  predicate IsLeap(y: int) {
    y % 4 == 0 && (y % 100 != 0 || y % 400 == 0)
  }

  function YearLength(y: int): int {
    if IsLeap(y) then 366 else 365
  }

  function MonthLength(y: int, m: int): int {
    if m == 2 then (if IsLeap(y) then 29 else 28)
    else if m == 4 || m == 6 || m == 9 || m == 11 then 30
    else 31
  }

  predicate ValidDate(date: Date) {
    1 <= date.month <= 12 && 1 <= date.day <= MonthLength(date.year, date.month)
  }

  /** Days from 1970-01-01 to the first of January of year `y`, one year at a time. */
  ghost function DaysBeforeYear(y: int): int
    decreases if y < 1970 then 1970 - y else y - 1970
  {
    if y == 1970 then 0
    else if y > 1970 then DaysBeforeYear(y - 1) + YearLength(y - 1)
    else DaysBeforeYear(y + 1) - YearLength(y)
  }

  /** Days of year `y` before its month `m`, one month at a time. */
  ghost function DaysBeforeMonth(y: int, m: nat): int {
    if m <= 1 then 0 else DaysBeforeMonth(y, m - 1) + MonthLength(y, m - 1)
  }

  /** The day number of a date: 0 is 1970-01-01. */
  ghost function DayNumber(date: Date): int
    requires ValidDate(date)
  {
    DaysBeforeYear(date.year) + DaysBeforeMonth(date.year, date.month) + date.day - 1
  }

  ghost predicate Earlier(a: Date, b: Date) {
    || a.year < b.year
    || (a.year == b.year && a.month < b.month)
    || (a.year == b.year && a.month == b.month && a.day < b.day)
  }

  // ------------------------------------------------------------- civil_from_days

  /** Rust's `/` on signed integers, with a positive divisor: rounds toward zero. */
  function TruncDiv(a: int, b: int): int
    requires b > 0
  {
    if a >= 0 then a / b else -((-a) / b)
  }

  /** The 400-year era of a day count that starts on 0000-03-01. */
  function Era(z: int): int {
    TruncDiv(if z >= 0 then z else z - 146096, 146097)
  }

  /** The year of the era, years starting in March. */
  function YearOfEra(doe: int): int {
    (doe - doe / 1460 + doe / 36524 - doe / 146096) / 365
  }

  /** The date of day `doy` of the March-based year `y`. */
  function FromMarch(y: int, doy: int): Date {
    var mp := (5 * doy + 2) / 153;
    var d := doy - (153 * mp + 2) / 5 + 1;
    var m := if mp < 10 then mp + 3 else mp - 9;
    Date(if m <= 2 then y + 1 else y, m, d)
  }

  /** The days of the era before its March-based year `yoe`. */
  function YearStart(yoe: int): int {
    365 * yoe + yoe / 4 - yoe / 100
  }

  function DateInEra(era: int, doe: int): Date {
    var yoe := YearOfEra(doe);
    FromMarch(yoe + era * 400, doe - YearStart(yoe))
  }

  function CivilFromDays(days: int): Date {
    var z := days + 719468;
    var era := Era(z);
    DateInEra(era, z - era * 146097)
  }

  // ---------------------------------------------------- facts about the definition

  /** Leap days are every fourth year, but not every hundredth, but every four hundredth. */
  lemma {:induction false} DaysBeforeYearClosed(y: int)
    ensures DaysBeforeYear(y) == 365 * (y - 1970) + (y - 1) / 4 - (y - 1) / 100 + (y - 1) / 400 - 477
    decreases if y < 1970 then 1970 - y else y - 1970
  {
    if y > 1970 {
      DaysBeforeYearClosed(y - 1);
      LeapDayStep(y - 1);
    } else if y < 1970 {
      DaysBeforeYearClosed(y + 1);
      LeapDayStep(y);
    }
  }

  lemma LeapDayStep(y: int)
    ensures (y / 4 - y / 100 + y / 400) - ((y - 1) / 4 - (y - 1) / 100 + (y - 1) / 400) ==
            if IsLeap(y) then 1 else 0
  {
    QuotientStep(y, 4);
    QuotientStep(y, 100);
    QuotientStep(y, 400);
    MultiplesNest(y);
  }

  lemma QuotientStep(y: int, b: int)
    requires b == 4 || b == 100 || b == 400
    ensures y / b - (y - 1) / b == if y % b == 0 then 1 else 0
  {}

  lemma MultiplesNest(y: int)
    ensures y % 400 == 0 ==> y % 100 == 0
    ensures y % 100 == 0 ==> y % 4 == 0
  {
    Shift(0, 4 * (y / 400), 100);
    Shift(0, 25 * (y / 100), 4);
    assert y == 400 * (y / 400) + y % 400 && y == 100 * (y / 100) + y % 100;
  }

  lemma {:induction false} DaysBeforeMonthTable(y: int)
    ensures DaysBeforeMonth(y, 1) == 0 && DaysBeforeMonth(y, 2) == 31
    ensures var feb := if IsLeap(y) then 29 else 28;
            && DaysBeforeMonth(y, 3) == 31 + feb && DaysBeforeMonth(y, 4) == 62 + feb
            && DaysBeforeMonth(y, 5) == 92 + feb && DaysBeforeMonth(y, 6) == 123 + feb
            && DaysBeforeMonth(y, 7) == 153 + feb && DaysBeforeMonth(y, 8) == 184 + feb
            && DaysBeforeMonth(y, 9) == 215 + feb && DaysBeforeMonth(y, 10) == 245 + feb
            && DaysBeforeMonth(y, 11) == 276 + feb && DaysBeforeMonth(y, 12) == 306 + feb
  {
    assert DaysBeforeMonth(y, 3) == DaysBeforeMonth(y, 2) + MonthLength(y, 2);
    assert DaysBeforeMonth(y, 5) == DaysBeforeMonth(y, 4) + MonthLength(y, 4);
    assert DaysBeforeMonth(y, 7) == DaysBeforeMonth(y, 6) + MonthLength(y, 6);
    assert DaysBeforeMonth(y, 9) == DaysBeforeMonth(y, 8) + MonthLength(y, 8);
    assert DaysBeforeMonth(y, 11) == DaysBeforeMonth(y, 10) + MonthLength(y, 10);
  }

  // -------------------------------------------------------- facts about the algorithm

  /** Truncating division with the adjusted numerator is floor division, also before year zero. */
  lemma EraIsFloor(z: int)
    ensures Era(z) == z / 146097
    ensures 0 <= z - Era(z) * 146097 < 146097
  {
    if z < 0 {
      var q, r := z / 146097, z % 146097;
      assert z == 146097 * q + r;
      assert -(z - 146096) == 146097 * (-q) + (146096 - r);
    }
  }

  /** Whether a March-based year of the era ends in a leap day. */
  predicate EndsLeap(yoe: int) {
    (yoe + 1) % 4 == 0 && ((yoe + 1) % 100 != 0 || (yoe + 1) % 400 == 0)
  }

  /** The year formula, with the year written as centuries, four-year cycles and years. */
  lemma YearFormula(c: int, q: int, r: int, doy: int)
    requires 0 <= c < 4 && 0 <= q < 25 && 0 <= r < 4
    requires 0 <= doy <= if r == 3 && (q != 24 || c == 3) then 365 else 364
    ensures var doe := 36524 * c + 1461 * q + 365 * r + doy;
            0 <= doe < 146097 && YearOfEra(doe) == 100 * c + 4 * q + r
  {
    var w := 365 * r + doy;
    var doe := 36524 * c + 1461 * q + w;
    var e := if 24 * c + q + w >= 1460 then 1 else 0;
    assert doe == 1460 * (25 * c + q + e) + (24 * c + q + w - 1460 * e);
    assert doe / 1460 == 25 * c + q + e;
    if q == 24 && w == 1460 {
      assert doe == 146096;
    } else {
      assert doe == 36524 * c + (1461 * q + w) && 0 <= 1461 * q + w < 36524;
      assert doe / 36524 == c;
      assert doe / 146096 == 0;
    }
    assert doe - doe / 1460 + doe / 36524 - doe / 146096 == 365 * (100 * c + 4 * q + r) + (doy - e);
  }

  /** Every day of the era is a day of exactly the year the formula gives. */
  lemma DayOfYear(doe: int)
    requires 0 <= doe < 146097
    ensures 0 <= YearOfEra(doe) < 400
    ensures 0 <= doe - YearStart(YearOfEra(doe)) <= if EndsLeap(YearOfEra(doe)) then 365 else 364
  {
    // the last day of the era belongs to its fourth century, the last day of a cycle to its fourth year
    var c := if doe == 146096 then 3 else doe / 36524;
    var inCentury := doe - 36524 * c;
    var q := inCentury / 1461;
    var inCycle := inCentury - 1461 * q;
    var r := if inCycle == 1460 then 3 else inCycle / 365;
    var doy := inCycle - 365 * r;
    YearFormula(c, q, r, doy);
    YearParts(c, q, r);
  }

  lemma YearParts(c: int, q: int, r: int)
    requires 0 <= c < 4 && 0 <= q < 25 && 0 <= r < 4
    ensures YearStart(100 * c + 4 * q + r) == 36524 * c + 1461 * q + 365 * r
    ensures EndsLeap(100 * c + 4 * q + r) <==> r == 3 && (q != 24 || c == 3)
  {
    var yoe := 100 * c + 4 * q + r;
    assert yoe / 4 == 25 * c + q && yoe / 100 == c;
    assert (yoe + 1) % 4 == (r + 1) % 4;
  }

  /** The month formula: March-based month `mp` starts at day (153*mp+2)/5 of the year. */
  lemma MonthFormula(y: int, doy: int)
    requires 0 <= doy <= if IsLeap(y + 1) then 365 else 364
    ensures var date := FromMarch(y, doy);
            && ValidDate(date)
            && date.year == (if date.month <= 2 then y + 1 else y)
            && DaysBeforeMonth(date.year, date.month) + date.day - 1 ==
               if date.month <= 2 then doy - 306 else DaysBeforeMonth(y, 3) + doy
  {
    DaysBeforeMonthTable(y);
    DaysBeforeMonthTable(y + 1);
    var mp := (5 * doy + 2) / 153;
    assert 153 * mp <= 5 * doy + 2 < 153 * mp + 153;
    assert 0 <= mp <= 11;
  }

  /** March-based years relate to January-based years. */
  lemma MarchYear(y: int)
    ensures DaysBeforeYear(y) + DaysBeforeMonth(y, 3) == 365 * y + LeapDays(y) - 719468
    ensures DaysBeforeYear(y + 1) == DaysBeforeYear(y) + DaysBeforeMonth(y, 3) + 306
  {
    DaysBeforeYearClosed(y);
    DaysBeforeYearClosed(y + 1);
    DaysBeforeMonthTable(y);
    LeapDayStep(y);
  }

  ghost function LeapDays(y: int): int {
    y / 4 - y / 100 + y / 400
  }

  lemma FromMarchDayNumber(y: int, doy: int)
    requires 0 <= doy <= if IsLeap(y + 1) then 365 else 364
    ensures ValidDate(FromMarch(y, doy))
    ensures DayNumber(FromMarch(y, doy)) == 365 * y + LeapDays(y) - 719468 + doy
  {
    MonthFormula(y, doy);
    MarchYear(y);
  }

  /** Adding whole eras to a year shifts every quotient and keeps every remainder. */
  lemma EraArithmetic(era: int, yoe: int)
    requires 0 <= yoe < 400
    ensures 365 * (yoe + era * 400) + LeapDays(yoe + era * 400) == 146097 * era + YearStart(yoe)
    ensures EndsLeap(yoe) <==> IsLeap(yoe + era * 400 + 1)
  {
    Shift(yoe, 100 * era, 4);
    Shift(yoe, 4 * era, 100);
    Shift(yoe, era, 400);
    Shift(yoe + 1, 100 * era, 4);
    Shift(yoe + 1, 4 * era, 100);
    Shift(yoe + 1, era, 400);
  }

  lemma Shift(a: int, k: int, b: int)
    requires b == 4 || b == 100 || b == 400
    ensures (a + k * b) / b == a / b + k && (a + k * b) % b == a % b
  {}

  /** The day number of a valid date; nothing for a date that does not exist. */
  ghost function DayOf(date: Date): Option<int> {
    if ValidDate(date) then Some(DayNumber(date)) else None
  }

  lemma EraYearDay(era: int, yoe: int, doe: int)
    requires 0 <= yoe < 400
    requires 0 <= doe - YearStart(yoe) <= if EndsLeap(yoe) then 365 else 364
    ensures DayOf(FromMarch(yoe + era * 400, doe - YearStart(yoe))) == Some(146097 * era + doe - 719468)
  {
    EraArithmetic(era, yoe);
    FromMarchDayNumber(yoe + era * 400, doe - YearStart(yoe));
  }

  lemma DateInEraCorrect(era: int, doe: int)
    requires 0 <= doe < 146097
    ensures DayOf(DateInEra(era, doe)) == Some(146097 * era + doe - 719468)
  {
    DayOfYear(doe);
    EraYearDay(era, YearOfEra(doe), doe);
  }

  // -------------------------------------------------------------------- main results

  /** The date computed is a valid Gregorian date, and its day number is the input. */
  lemma CivilFromDaysCorrect(days: int)
    ensures ValidDate(CivilFromDays(days))
    ensures DayNumber(CivilFromDays(days)) == days
  {
    var z := days + 719468;
    EraIsFloor(z);
    DateInEraCorrect(Era(z), z - Era(z) * 146097);
  }

  /** Later dates have larger day numbers. */
  lemma DayNumberMonotone(a: Date, b: Date)
    requires ValidDate(a) && ValidDate(b) && Earlier(a, b)
    ensures DayNumber(a) < DayNumber(b)
  {
    DaysBeforeMonthTable(a.year);
    DaysBeforeMonthTable(b.year);
    if a.year < b.year {
      YearsAdd(a.year, b.year);
    }
  }

  lemma {:induction false} YearsAdd(y: int, later: int)
    requires y < later
    ensures DaysBeforeYear(y) + YearLength(y) <= DaysBeforeYear(later)
    decreases later - y
  {
    DaysBeforeYearClosed(y);
    DaysBeforeYearClosed(y + 1);
    LeapDayStep(y);
    if y + 1 < later {
      YearsAdd(y + 1, later);
    }
  }

  /** The other direction: every valid date is the date of its own day number. */
  lemma CivilFromDaysInverts(date: Date)
    requires ValidDate(date)
    ensures CivilFromDays(DayNumber(date)) == date
  {
    var again := CivilFromDays(DayNumber(date));
    CivilFromDaysCorrect(DayNumber(date));
    if Earlier(again, date) {
      DayNumberMonotone(again, date);
    } else if Earlier(date, again) {
      DayNumberMonotone(date, again);
    }
  }

  /** Consequently dates follow days: a later day never gets an earlier or equal date. */
  lemma CivilFromDaysIncreasing(a: int, b: int)
    requires a < b
    ensures Earlier(CivilFromDays(a), CivilFromDays(b))
  {
    CivilFromDaysCorrect(a);
    CivilFromDaysCorrect(b);
    if Earlier(CivilFromDays(b), CivilFromDays(a)) {
      DayNumberMonotone(CivilFromDays(b), CivilFromDays(a));
    }
  }
}

module Timestamps {
  import opened Calendar

  const SECONDS_PER_DAY := 86400

  datatype Fields = Fields(date: Date, hours: int, minutes: int, seconds: int)

  /** The six fields computed for `ms` milliseconds since the epoch. */
  function FieldsOf(ms: nat): Fields {
    var secs := ms / 1000;
    var timeOfDay := secs % SECONDS_PER_DAY;
    Fields(CivilFromDays(secs / SECONDS_PER_DAY), timeOfDay / 3600, timeOfDay % 3600 / 60, timeOfDay % 60)
  }

  function Digit(d: int): char
    requires 0 <= d < 10
  {
    d as char + '0'
  }

  function Decimal(n: nat): string {
    if n < 10 then [Digit(n)] else Decimal(n / 10) + [Digit(n % 10)]
  }

  function Zeros(n: nat): string {
    seq(n, _ => '0')
  }

  /** `{n:0width}` */
  function Padded(n: nat, width: nat): string {
    var digits := Decimal(n);
    if |digits| < width then Zeros(width - |digits|) + digits else digits
  }

  function Render(f: Fields): string
    requires f.date.year >= 0 && f.date.month >= 0 && f.date.day >= 0
    requires f.hours >= 0 && f.minutes >= 0 && f.seconds >= 0
  {
    Triple(Padded(f.date.year, 4), '-', Padded(f.date.month, 2), Padded(f.date.day, 2)) + " "
    + Triple(Padded(f.hours, 2), ':', Padded(f.minutes, 2), Padded(f.seconds, 2))
  }

  /** Three parts with a separator between them. */
  function Triple(a: string, separator: char, b: string, c: string): string {
    a + [separator] + b + [separator] + c
  }

  /** The text shown for a timestamp; a negative one has none. */
  function FormatEpochMs(ms: int): string {
    if ms < 0 then "-" else
      FieldsInRange(ms);
      Render(FieldsOf(ms))
  }

  // ------------------------------------------------------------- reading it back

  /** The seconds since the epoch that a valid date and time of day stand for. */
  ghost function SecondsOf(f: Fields): int
    requires ValidDate(f.date)
  {
    DayNumber(f.date) * SECONDS_PER_DAY + f.hours * 3600 + f.minutes * 60 + f.seconds
  }

  lemma FieldsInRange(ms: nat)
    ensures var f := FieldsOf(ms);
            && ValidDate(f.date) && f.date.year >= 1970
            && 0 <= f.hours < 24 && 0 <= f.minutes < 60 && 0 <= f.seconds < 60
  {
    var days := ms / 1000 / SECONDS_PER_DAY;
    CivilFromDaysCorrect(days);
    var date := CivilFromDays(days);
    if date.year < 1970 {
      DayNumberMonotone(date, Date(1970, 1, 1));
    }
  }

  /** The six fields put together again are the whole seconds of the timestamp. */
  lemma FieldsRecombine(ms: nat)
    ensures ValidDate(FieldsOf(ms).date)
    ensures SecondsOf(FieldsOf(ms)) == ms / 1000
  {
    var secs := ms / 1000;
    var days, t := secs / SECONDS_PER_DAY, secs % SECONDS_PER_DAY;
    CivilFromDaysCorrect(days);
    assert secs == days * SECONDS_PER_DAY + t;
    TimeOfDay(t);
  }

  lemma TimeOfDay(t: nat)
    ensures t / 3600 * 3600 + t % 3600 / 60 * 60 + t % 60 == t
  {
    var h, r := t / 3600, t % 3600;
    var m, s := r / 60, r % 60;
    assert t == 60 * (60 * h + m) + s;
    SecondsUnique(t, 60 * h + m, s);
  }

  lemma SecondsUnique(t: nat, minutes: nat, s: nat)
    requires t == 60 * minutes + s && s < 60
    ensures t % 60 == s
  {}

  /** The number a string of decimal digits stands for. */
  ghost function Value(s: string): int {
    if s == "" then 0 else Value(s[..|s| - 1]) * 10 + (s[|s| - 1] as int - '0' as int)
  }

  lemma {:induction false} DecimalValue(n: nat)
    ensures Value(Decimal(n)) == n
    ensures |Decimal(n)| >= 1
    ensures n < 100 ==> |Decimal(n)| <= 2
  {
    if n < 10 {
      assert Decimal(n)[..0] == "";
    } else {
      DecimalValue(n / 10);
      assert Decimal(n)[..|Decimal(n)| - 1] == Decimal(n / 10);
      if n < 100 {
        assert n / 10 < 10;
      }
    }
  }

  lemma {:induction false} ZerosValue(k: nat, s: string)
    ensures Value(Zeros(k) + s) == Value(s)
    decreases k + |s|
  {
    var padded := Zeros(k) + s;
    if s != "" {
      ZerosValue(k, s[..|s| - 1]);
      assert padded[..|padded| - 1] == Zeros(k) + s[..|s| - 1];
    } else if k > 0 {
      ZerosValue(k - 1, s);
      assert padded[..|padded| - 1] == Zeros(k - 1) + s;
    }
  }

  lemma PaddedValue(n: nat, width: nat)
    ensures Value(Padded(n, width)) == n
    ensures width == 2 && n < 100 ==> |Padded(n, width)| == 2
  {
    DecimalValue(n);
    var digits := Decimal(n);
    if |digits| < width {
      ZerosValue(width - |digits|, digits);
    }
  }

  /** Reads `YYYY-MM-DD HH:MM:SS`; the year takes whatever is left of the last fifteen characters. */
  ghost function ReadFields(s: string): Fields
    requires |s| >= 15
  {
    var y := |s| - 15;
    Fields(Date(Value(s[..y]), Value(s[y + 1..y + 3]), Value(s[y + 4..y + 6])),
           Value(s[y + 7..y + 9]), Value(s[y + 10..y + 12]), Value(s[y + 13..y + 15]))
  }

  ghost predicate FitsWidths(f: Fields) {
    && f.date.year >= 0 && 0 <= f.date.month < 100 && 0 <= f.date.day < 100
    && 0 <= f.hours < 100 && 0 <= f.minutes < 100 && 0 <= f.seconds < 100
  }

  /** Where each field stands in the rendered text. */
  lemma RenderSlices(f: Fields)
    requires FitsWidths(f)
    ensures var s := Render(f);
            var y := |s| - 15;
            && y >= 0 && s[..y] == Padded(f.date.year, 4)
            && s[y + 1..y + 3] == Padded(f.date.month, 2) && s[y + 4..y + 6] == Padded(f.date.day, 2)
            && s[y + 7..y + 9] == Padded(f.hours, 2) && s[y + 10..y + 12] == Padded(f.minutes, 2)
            && s[y + 13..y + 15] == Padded(f.seconds, 2)
  {
    PaddedValue(f.date.month, 2);
    PaddedValue(f.date.day, 2);
    PaddedValue(f.hours, 2);
    PaddedValue(f.minutes, 2);
    PaddedValue(f.seconds, 2);
    DateTimeSlices(Padded(f.date.year, 4), Padded(f.date.month, 2), Padded(f.date.day, 2),
                   Padded(f.hours, 2), Padded(f.minutes, 2), Padded(f.seconds, 2));
  }

  lemma DateTimeSlices(year: string, month: string, day: string, hours: string, minutes: string, seconds: string)
    requires |month| == 2 && |day| == 2 && |hours| == 2 && |minutes| == 2 && |seconds| == 2
    ensures var s := Triple(year, '-', month, day) + " " + Triple(hours, ':', minutes, seconds);
            var y := |year|;
            && |s| == y + 15 && s[..y] == year && s[y + 1..y + 3] == month && s[y + 4..y + 6] == day
            && s[y + 7..y + 9] == hours && s[y + 10..y + 12] == minutes && s[y + 13..y + 15] == seconds
  {
    var date, time := Triple(year, '-', month, day), Triple(hours, ':', minutes, seconds);
    var s, y := date + " " + time, |year|;
    TripleParts(year, '-', month, day);
    TripleParts(hours, ':', minutes, seconds);
    assert s[..y] == date[..y] && s[y + 1..y + 3] == date[y + 1..y + 3] && s[y + 4..y + 6] == date[y + 4..y + 6];
    assert s[y + 7..y + 9] == time[..2] && s[y + 10..y + 12] == time[3..5] && s[y + 13..y + 15] == time[6..8];
  }

  lemma RenderReads(f: Fields)
    requires FitsWidths(f)
    ensures |Render(f)| >= 15 && ReadFields(Render(f)) == f
  {
    RenderSlices(f);
    PaddedValue(f.date.year, 4);
    PaddedValue(f.date.month, 2);
    PaddedValue(f.date.day, 2);
    PaddedValue(f.hours, 2);
    PaddedValue(f.minutes, 2);
    PaddedValue(f.seconds, 2);
  }

  lemma TripleParts(a: string, separator: char, b: string, c: string)
    requires |b| == 2 && |c| == 2
    ensures var s := Triple(a, separator, b, c);
            |s| == |a| + 6 && s[..|a|] == a && s[|a| + 1..|a| + 3] == b && s[|a| + 4..|a| + 6] == c
  {}

  /** Round trip: the text shown determines the timestamp to the second. */
  lemma FormatRoundTrip(ms: nat)
    ensures |FormatEpochMs(ms)| >= 15
    ensures ValidDate(ReadFields(FormatEpochMs(ms)).date)
    ensures SecondsOf(ReadFields(FormatEpochMs(ms))) == ms / 1000
  {
    FieldsInRange(ms);
    FieldsRecombine(ms);
    RenderReads(FieldsOf(ms));
  }

  ghost predicate AreDigits(s: string) {
    forall i | 0 <= i < |s| :: '0' <= s[i] <= '9'
  }

  lemma {:induction false} DecimalDigits(n: nat)
    ensures AreDigits(Decimal(n))
  {
    if n < 10 {
    } else {
      DecimalDigits(n / 10);
    }
  }

  lemma PaddedDigits(n: nat, width: nat)
    ensures AreDigits(Padded(n, width)) && |Padded(n, width)| >= width
  {
    DecimalDigits(n);
  }

  /** The shape of the text: digits, with dashes, a blank and colons between the fields. */
  ghost predicate IsDateTime(s: string) {
    var y := |s| - 15;
    && y >= 4 && AreDigits(s[..y])
    && s[y] == '-' && s[y + 3] == '-' && s[y + 6] == ' ' && s[y + 9] == ':' && s[y + 12] == ':'
  }

  lemma FormatShape(ms: int)
    ensures ms < 0 ==> FormatEpochMs(ms) == "-"
    ensures ms >= 0 ==> IsDateTime(FormatEpochMs(ms))
  {
    if ms >= 0 {
      FieldsInRange(ms);
      RenderShape(FieldsOf(ms));
    }
  }

  lemma RenderShape(f: Fields)
    requires FitsWidths(f)
    ensures IsDateTime(Render(f))
  {
    PaddedDigits(f.date.year, 4);
    PaddedValue(f.date.month, 2);
    PaddedValue(f.date.day, 2);
    PaddedValue(f.hours, 2);
    PaddedValue(f.minutes, 2);
    PaddedValue(f.seconds, 2);
    DateTimeShape(Padded(f.date.year, 4), Padded(f.date.month, 2), Padded(f.date.day, 2),
                  Padded(f.hours, 2), Padded(f.minutes, 2), Padded(f.seconds, 2));
  }

  lemma DateTimeShape(year: string, month: string, day: string, hours: string, minutes: string, seconds: string)
    requires |year| >= 4 && AreDigits(year)
    requires |month| == 2 && |day| == 2 && |hours| == 2 && |minutes| == 2 && |seconds| == 2
    ensures IsDateTime(Triple(year, '-', month, day) + " " + Triple(hours, ':', minutes, seconds))
  {
    var date, time := Triple(year, '-', month, day), Triple(hours, ':', minutes, seconds);
    SeparatorsAt(year, '-', month, day);
    SeparatorsAt(hours, ':', minutes, seconds);
    var s := date + " " + time;
    assert |s| == |year| + 15 && s[..|year|] == date[..|year|] == year;
  }

  lemma SeparatorsAt(a: string, separator: char, b: string, c: string)
    requires |b| == 2
    ensures var s := Triple(a, separator, b, c);
            |s| == |a| + |c| + 4 && s[..|a|] == a && s[|a|] == separator && s[|a| + 3] == separator
  {}
}
