/** The build script's epoch formatting, against the proleptic Gregorian calendar. */
module CivilDate {
  import opened Common
  import opened Decimal

  datatype Date = Date(year: int, month: int, day: int)

  datatype DateTime = DateTime(date: Date, hour: int, minute: int, second: int)

  // ---------------------------------------------------------------- the calendar

  predicate IsLeap(y: int) { y % 4 == 0 && (y % 100 != 0 || y % 400 == 0) }

  function LeapDay(y: int): int { if IsLeap(y) then 1 else 0 }

  function DaysInMonth(y: int, m: int): int
  {
    if m == 2 then 28 + LeapDay(y) else if m == 4 || m == 6 || m == 9 || m == 11 then 30 else 31
  }

  predicate ValidDate(d: Date)
  {
    1 <= d.month <= 12 && 1 <= d.day <= DaysInMonth(d.year, d.month)
  }

  predicate ValidTime(t: DateTime)
  {
    ValidDate(t.date) && 0 <= t.hour < 24 && 0 <= t.minute < 60 && 0 <= t.second < 60
  }

  function NextDay(d: Date): Date
  {
    if d.day < DaysInMonth(d.year, d.month) then Date(d.year, d.month, d.day + 1)
    else if d.month < 12 then Date(d.year, d.month + 1, 1)
    else Date(d.year + 1, 1, 1)
  }

  // ---------------------------------------------------------------- format_utc

  /** Division as the source has it, towards zero. */
  function TruncDiv(a: int, b: int): int
    requires b > 0
  {
    if a >= 0 then a / b else -(-a / b)
  }

  /** The civil date of a day count since 1970-01-01; every typed local is a cast or a subtraction of the source. */
  function CivilFromDays(epochDays: int64): Date
    requires -0x4000_0000_0000_0000 <= epochDays < 0x4000_0000_0000_0000
  {
    var days: int64 := epochDays as int + 719_468;
    var era: int64 := TruncDiv(if days >= 0 then days else days as int - 146_096, 146_097);
    EraIsFloor(days);
    CivilOfEra(era, days as int - era as int * 146_097)
  }

  /** Day `doe` of a 400-year era. */
  function CivilOfEra(era: int64, doe: uint32): Date
    requires doe < 146_097
  {
    var leaps: uint32 := doe as int - doe / 1460;
    var yoe: uint32 := (leaps as int + doe / 36524 - doe / 146_096) / 365;
    var y := yoe as int + era as int * 400;
    YearOfEra(doe);
    var doy: uint32 := doe as int - (365 * yoe as int + yoe / 4 - yoe / 100);
    var mp: uint32 := (5 * doy as int + 2) / 153;
    MonthOfYear(doy);
    var d: uint32 := doy as int - (153 * mp as int + 2) / 5 + 1;
    var mo: uint32 := if mp < 10 then mp as int + 3 else mp as int - 9;
    Date(if mo <= 2 then y + 1 else y, mo, d)
  }

  function Fields(epoch: int64): DateTime
  {
    var days, daySecs := epoch / 86400, epoch % 86400;
    DateTime(CivilFromDays(days), daySecs / 3600, daySecs % 3600 / 60, daySecs % 60)
  }

  // ---------------------------------------------------------------- years of an era

  lemma EraIsFloor(days: int)
    ensures TruncDiv(if days >= 0 then days else days - 146_096, 146_097) == days / 146_097
  {
    if days < 0 {
      var q, r := days / 146_097, days % 146_097;
      DivMod(-(days - 146_096), 146_097, -q, 146_096 - r);
    }
  }

  /** Day `doe` of an era is day `s` of its year `100c + 4q + r`. */
  predicate InYear(doe: int, c: int, q: int, r: int, s: int)
  {
    && 0 <= c <= 3 && 0 <= q <= 24 && 0 <= r <= 3 && 0 <= s <= 365
    && doe == 36524 * c + 1461 * q + 365 * r + s
    && (s == 365 ==> r == 3 && (q == 24 ==> c == 3))
  }

  lemma Decompose(doe: int) returns (c: int, q: int, r: int, s: int)
    requires 0 <= doe < 146_097
    ensures InYear(doe, c, q, r, s)
  {
    c := if doe / 36524 > 3 then 3 else doe / 36524;
    var d := doe - 36524 * c;
    q := d / 1461;
    var e := d - 1461 * q;
    r := if e / 365 > 3 then 3 else e / 365;
    s := e - 365 * r;
  }

  function Yoe(doe: int): int
  {
    (doe - doe / 1460 + doe / 36524 - doe / 146_096) / 365
  }

  lemma YoeOf(doe: int, c: int, q: int, r: int, s: int)
    requires InYear(doe, c, q, r, s)
    ensures Yoe(doe) == 100 * c + 4 * q + r
  {
    var t := if 24 * c + q + 365 * r + s >= 1460 then 1 else 0;
    assert doe / 1460 == 25 * c + q + t by {
      assert doe == 1460 * (25 * c + q) + (24 * c + q + 365 * r + s);
    }
    assert doe / 36524 - doe / 146_096 == c;
    assert doe - (25 * c + q + t) + c == 365 * (100 * c + 4 * q + r) + (s - t);
  }

  lemma YearDays(c: int, q: int, r: int)
    requires 0 <= c <= 3 && 0 <= q <= 24 && 0 <= r <= 3
    ensures var y := 100 * c + 4 * q + r;
            365 * y + y / 4 - y / 100 == 36524 * c + 1461 * q + 365 * r
  {
    var y := 100 * c + 4 * q + r;
    assert y / 4 == 25 * c + q;
    assert y / 100 == c;
  }

  lemma YearOfEra(doe: int)
    requires 0 <= doe < 146_097
    ensures 0 <= Yoe(doe) < 400
    ensures 0 <= doe - (365 * Yoe(doe) + Yoe(doe) / 4 - Yoe(doe) / 100) <= 365
  {
    var c, q, r, s := Decompose(doe);
    YoeOf(doe, c, q, r, s);
    YearDays(c, q, r);
  }

  lemma MonthOfYear(doy: int)
    requires 0 <= doy <= 365
    ensures var mp := (5 * doy + 2) / 153; 0 <= mp <= 11 && 0 <= doy - (153 * mp + 2) / 5 <= 30
  {
  }

  // ---------------------------------------------------------------- day numbers

  /** Days from 0001-01-01 to the first of January of `y`. */
  function DaysBeforeYear(y: int): int
  {
    365 * (y - 1) + (y - 1) / 4 - (y - 1) / 100 + (y - 1) / 400
  }

  function DaysBeforeMonth(y: int, m: int): int
    requires 1 <= m
    decreases m
  {
    if m == 1 then 0 else DaysBeforeMonth(y, m - 1) + DaysInMonth(y, m - 1)
  }

  /** Days since 1970-01-01. */
  function DayNumber(d: Date): int
    requires d.month >= 1
  {
    DaysBeforeYear(d.year) + DaysBeforeMonth(d.year, d.month) + d.day - 1 - 719_162
  }

  lemma YearLength(y: int)
    ensures DaysBeforeYear(y + 1) == DaysBeforeYear(y) + 365 + LeapDay(y)
  {
    DivStep(y, 4);
    DivStep(y, 100);
    DivStep(y, 400);
    Multiples(y);
  }

  lemma Multiples(y: int)
    ensures y % 400 == 0 ==> y % 100 == 0
    ensures y % 100 == 0 ==> y % 4 == 0
  {
    if y % 400 == 0 {
      DivMod(y, 100, 4 * (y / 400), 0);
    }
    if y % 100 == 0 {
      DivMod(y, 4, 25 * (y / 100), 0);
    }
  }

  /** A quotient and remainder are the only ones. */
  lemma DivMod(n: int, k: int, q: int, r: int)
    requires k > 0 && n == k * q + r && 0 <= r < k
    ensures n / k == q && n % k == r
  {
    var x := q - n / k;
    assert k * x == n % k - r;
    assert x >= 1 ==> k * x >= k;
    assert x <= -1 ==> k * x <= -k;
  }

  lemma DivStep(n: int, k: int)
    requires k == 4 || k == 100 || k == 400
    ensures n / k == (n - 1) / k + if n % k == 0 then 1 else 0
  {
  }

  lemma MonthTable(y: int)
    ensures DaysBeforeMonth(y, 1) == 0 && DaysBeforeMonth(y, 2) == 31 && DaysBeforeMonth(y, 3) == 59 + LeapDay(y)
    ensures DaysBeforeMonth(y, 4) == 90 + LeapDay(y) && DaysBeforeMonth(y, 5) == 120 + LeapDay(y)
    ensures DaysBeforeMonth(y, 6) == 151 + LeapDay(y) && DaysBeforeMonth(y, 7) == 181 + LeapDay(y)
    ensures DaysBeforeMonth(y, 8) == 212 + LeapDay(y) && DaysBeforeMonth(y, 9) == 243 + LeapDay(y)
    ensures DaysBeforeMonth(y, 10) == 273 + LeapDay(y) && DaysBeforeMonth(y, 11) == 304 + LeapDay(y)
    ensures DaysBeforeMonth(y, 12) == 334 + LeapDay(y)
  {
    assert DaysBeforeMonth(y, 3) == DaysBeforeMonth(y, 2) + 28 + LeapDay(y);
    assert DaysBeforeMonth(y, 5) == DaysBeforeMonth(y, 4) + 30;
    assert DaysBeforeMonth(y, 7) == DaysBeforeMonth(y, 6) + 30;
    assert DaysBeforeMonth(y, 9) == DaysBeforeMonth(y, 8) + 31;
    assert DaysBeforeMonth(y, 11) == DaysBeforeMonth(y, 10) + 31;
  }

  /** The day number counts days. */
  lemma NextDayCounts(d: Date)
    requires ValidDate(d)
    ensures ValidDate(NextDay(d)) && DayNumber(NextDay(d)) == DayNumber(d) + 1
  {
    MonthTable(d.year);
    MonthTable(d.year + 1);
    YearLength(d.year);
  }

  lemma WithinYear(d: Date)
    requires ValidDate(d)
    ensures 0 <= DaysBeforeMonth(d.year, d.month) + d.day - 1 < 365 + LeapDay(d.year)
  {
    MonthTable(d.year);
  }

  lemma {:induction false} LaterYear(y: int, y': int)
    requires y < y'
    ensures DaysBeforeYear(y') >= DaysBeforeYear(y) + 365 + LeapDay(y)
    decreases y' - y
  {
    YearLength(y' - 1);
    if y + 1 < y' {
      LaterYear(y, y' - 1);
    }
  }

  lemma {:induction false} LaterMonth(y: int, m: int, m': int)
    requires 1 <= m < m'
    ensures DaysBeforeMonth(y, m') >= DaysBeforeMonth(y, m) + DaysInMonth(y, m)
    decreases m'
  {
    if m + 1 < m' {
      LaterMonth(y, m, m' - 1);
    }
  }

  ghost predicate Before(a: Date, b: Date)
  {
    || a.year < b.year
    || (a.year == b.year && a.month < b.month)
    || (a.year == b.year && a.month == b.month && a.day < b.day)
  }

  lemma DayNumberMonotone(a: Date, b: Date)
    requires ValidDate(a) && ValidDate(b) && Before(a, b)
    ensures DayNumber(a) < DayNumber(b)
  {
    hide DaysBeforeYear, DaysBeforeMonth, DaysInMonth;
    WithinYear(a);
    WithinYear(b);
    if a.year < b.year {
      LaterYear(a.year, b.year);
    } else if a.month < b.month {
      LaterMonth(a.year, a.month, b.month);
    }
  }

  lemma DayNumberInjective(a: Date, b: Date)
    requires ValidDate(a) && ValidDate(b) && DayNumber(a) == DayNumber(b)
    ensures a == b
  {
    if Before(a, b) {
      DayNumberMonotone(a, b);
    } else if Before(b, a) {
      DayNumberMonotone(b, a);
    }
  }

  // ---------------------------------------------------------------- the algorithm is the calendar

  /** The date of day `doy` of the year that starts on the first of March of `y`. */
  function MarchDate(y: int, doy: int): Date
  {
    var mp := (5 * doy + 2) / 153;
    var mo := if mp < 10 then mp + 3 else mp - 9;
    Date(if mo <= 2 then y + 1 else y, mo, doy - (153 * mp + 2) / 5 + 1)
  }

  lemma MarchDateCounts(y: int, doy: int)
    requires 0 <= doy <= 364 + LeapDay(y + 1)
    ensures ValidDate(MarchDate(y, doy))
    ensures DayNumber(MarchDate(y, doy)) == 365 * y + y / 4 - y / 100 + y / 400 + doy - 719_468
  {
    hide IsLeap;
    var mp := (5 * doy + 2) / 153;
    MonthOfYear(doy);
    MonthTable(y);
    MonthTable(y + 1);
    YearLength(y);
    assert DaysBeforeYear(y + 1) == 365 * y + y / 4 - y / 100 + y / 400;
  }

  lemma YearOfEraIsLeap(era: int, c: int, q: int, r: int)
    requires 0 <= c <= 3 && 0 <= q <= 24 && 0 <= r <= 3
    ensures var y := 400 * era + 100 * c + 4 * q + r;
            && IsLeap(y + 1) == (r == 3 && (q == 24 ==> c == 3))
            && 365 * y + y / 4 - y / 100 + y / 400 == 146_097 * era + 36524 * c + 1461 * q + 365 * r
  {
    var y := 400 * era + 100 * c + 4 * q + r;
    DivMod(y, 4, 100 * era + 25 * c + q, r);
    DivMod(y, 100, 4 * era + c, 4 * q + r);
    DivMod(y, 400, era, 100 * c + 4 * q + r);
    if r == 3 {
      DivMod(y + 1, 4, 100 * era + 25 * c + q + 1, 0);
      if q == 24 {
        DivMod(y + 1, 100, 4 * era + c + 1, 0);
        if c == 3 {
          DivMod(y + 1, 400, era + 1, 0);
        } else {
          DivMod(y + 1, 400, era, 100 * (c + 1));
        }
      } else {
        DivMod(y + 1, 100, 4 * era + c, 4 * q + 4);
      }
    } else {
      DivMod(y + 1, 4, 100 * era + 25 * c + q, r + 1);
    }
  }

  lemma CivilOfEraIsMarchDate(era: int64, doe: uint32)
    requires doe < 146_097
    ensures var yoe := Yoe(doe);
            CivilOfEra(era, doe) == MarchDate(400 * era as int + yoe, doe as int - (365 * yoe + yoe / 4 - yoe / 100))
  {
  }

  lemma EraDayCounts(era: int, doe: int)
    requires 0 <= doe < 146_097
    ensures var yoe := Yoe(doe);
            var d := MarchDate(400 * era + yoe, doe - (365 * yoe + yoe / 4 - yoe / 100));
            ValidDate(d) && DayNumber(d) == 146_097 * era + doe - 719_468
  {
    hide DayNumber, IsLeap, MarchDate, ValidDate, Yoe;
    var c, q, r, s := Decompose(doe);
    YoeOf(doe, c, q, r, s);
    YearDays(c, q, r);
    YearOfEraIsLeap(era, c, q, r);
    MarchDateCounts(400 * era + 100 * c + 4 * q + r, s);
  }

  /** Every day count maps to a valid date, and to the date whose day number it is. */
  lemma CivilIsInverse(z: int64)
    requires -0x4000_0000_0000_0000 <= z < 0x4000_0000_0000_0000
    ensures ValidDate(CivilFromDays(z)) && DayNumber(CivilFromDays(z)) == z
  {
    hide DayNumber, CivilOfEra, MarchDate, ValidDate, Yoe, TruncDiv;
    var days := z as int + 719_468;
    EraIsFloor(days);
    CivilOfEraIsMarchDate(days / 146_097, days % 146_097);
    EraDayCounts(days / 146_097, days % 146_097);
  }

  /**
   For every epoch the fields are a valid date and time; a day later is the calendar's next day at
   the same time; and the count starts at 1970-01-01 00:00:00.
   */
  lemma FieldsFollowCalendar(epoch: int64)
    ensures ValidTime(Fields(epoch))
    ensures epoch as int + 86400 <= INT64_MAX ==>
              Fields(epoch as int + 86400) == Fields(epoch).(date := NextDay(Fields(epoch).date))
    ensures Fields(0) == DateTime(Date(1970, 1, 1), 0, 0, 0)
  {
    hide CivilFromDays, DayNumber, NextDay;
    var z := epoch / 86400;
    CivilIsInverse(z);
    if epoch as int + 86400 <= INT64_MAX {
      CivilIsInverse(z + 1);
      NextDayCounts(CivilFromDays(z));
      DayNumberInjective(CivilFromDays(z + 1), NextDay(CivilFromDays(z)));
      assert (epoch as int + 86400) / 86400 == z + 1 && (epoch as int + 86400) % 86400 == epoch % 86400;
    }
    CivilIsInverse(0);
    EpochDay();
    DayNumberInjective(CivilFromDays(0), Date(1970, 1, 1));
  }

  lemma EpochDay()
    ensures DayNumber(Date(1970, 1, 1)) == 0
  {
  }

  /** The fields determine the epoch. */
  lemma FieldsDetermineEpoch(epoch: int64)
    ensures var t := Fields(epoch);
            t.date.month >= 1 && epoch == DayNumber(t.date) * 86400 + t.hour * 3600 + t.minute * 60 + t.second
  {
    hide CivilFromDays, DayNumber;
    CivilIsInverse(epoch / 86400);
  }

  // ---------------------------------------------------------------- the printed form

  /** `{n:0width}`: zeros after the sign up to the width. */
  function Padded(n: int, width: nat): string
  {
    if n < 0 then "-" + Zeros(width - 1 - |ToDecimal(-n)|) + ToDecimal(-n)
    else Zeros(width - |ToDecimal(n)|) + ToDecimal(n)
  }

  function FormatUtc(epoch: int64): string
  {
    var t := Fields(epoch);
    Padded(t.date.year, 4) + Tail(t)
  }

  function Tail(t: DateTime): string
  {
    "-" + Padded(t.date.month, 2) + "-" + Padded(t.date.day, 2)
    + " " + Padded(t.hour, 2) + ":" + Padded(t.minute, 2) + ":" + Padded(t.second, 2)
  }

  /** Padding loses nothing: the printed number determines the number. */
  lemma PaddedInjective(a: int, b: int, width: nat)
    requires Padded(a, width) == Padded(b, width)
    ensures a == b
  {
    PaddedValue(a, width);
    PaddedValue(b, width);
  }

  lemma PaddedValue(n: int, width: nat)
    ensures var s := Padded(n, width);
            if n < 0 then s != "" && s[0] == '-' && AllDigits(s[1..]) && DigitsValue(s[1..]) == -n
            else s != "" && s[0] != '-' && AllDigits(s) && DigitsValue(s) == n
  {
    hide DigitsValue, ToDecimal, Zeros;
    var m: nat := if n < 0 then -n else n;
    var k := (if n < 0 then width - 1 else width) - |ToDecimal(m)|;
    DecimalRoundTrip(m);
    ZeroDigits(k, ToDecimal(m));
    if n < 0 {
      assert Padded(n, width)[1..] == Zeros(k) + ToDecimal(m);
    } else {
      assert IsDigit(Padded(n, width)[0]);
    }
  }

  lemma TwoDigits(n: int)
    requires 0 <= n < 100
    ensures |Padded(n, 2)| == 2
  {
    assert n >= 10 ==> |ToDecimal(n / 10)| == 1;
    OnlyZeros(2 - |ToDecimal(n)|);
  }

  /** The printed form determines the epoch. */
  lemma FormatUtcInjective(e: int64, e': int64)
    ensures FormatUtc(e) == FormatUtc(e') ==> e == e'
  {
    if FormatUtc(e) == FormatUtc(e') {
      PrintedAlike(e, e');
    }
  }

  lemma PrintedAlike(e: int64, e': int64)
    requires FormatUtc(e) == FormatUtc(e')
    ensures e == e'
  {
    hide Padded, Fields, DayNumber;
    var t, t' := Fields(e), Fields(e');
    FieldsFollowCalendar(e);
    FieldsFollowCalendar(e');
    var r, r' := Tail(t), Tail(t');
    TailParts(t);
    TailParts(t');
    var y, y' := Padded(t.date.year, 4), Padded(t'.date.year, 4);
    assert FormatUtc(e) == y + r && FormatUtc(e') == y' + r';
    assert |y| == |y'|;
    assert (y + r)[..|y|] == y && (y' + r')[..|y|] == y';
    assert (y + r)[|y|..] == r && (y' + r')[|y|..] == r';
    TailInjective(t, t');
    PaddedInjective(t.date.year, t'.date.year, 4);
    assert t == t';
    FieldsDetermineEpoch(e);
    FieldsDetermineEpoch(e');
  }

  lemma TailParts(t: DateTime)
    requires ValidTime(t)
    ensures |Tail(t)| == 15
    ensures Tail(t)[1..3] == Padded(t.date.month, 2) && Tail(t)[4..6] == Padded(t.date.day, 2)
    ensures Tail(t)[7..9] == Padded(t.hour, 2) && Tail(t)[10..12] == Padded(t.minute, 2)
    ensures Tail(t)[13..15] == Padded(t.second, 2)
  {
    hide Padded;
    TwoDigits(t.date.month);
    TwoDigits(t.date.day);
    TwoDigits(t.hour);
    TwoDigits(t.minute);
    TwoDigits(t.second);
  }

  /** Two-digit fields at their fixed places after the year, between their separators. */
  predicate ReadsAs(r: string, t: DateTime)
  {
    && |r| == 15 && r[0] == '-' && r[3] == '-' && r[6] == ' ' && r[9] == ':' && r[12] == ':'
    && ParseU64(r[1..3]) == Some(t.date.month) && ParseU64(r[4..6]) == Some(t.date.day)
    && ParseU64(r[7..9]) == Some(t.hour) && ParseU64(r[10..12]) == Some(t.minute) && ParseU64(r[13..15]) == Some(t.second)
  }

  lemma TailReadsAs(t: DateTime)
    requires ValidTime(t)
    ensures ReadsAs(Tail(t), t)
  {
    hide Padded, ParseU64;
    TailParts(t);
    PaddedParses(t.date.month, 2);
    PaddedParses(t.date.day, 2);
    PaddedParses(t.hour, 2);
    PaddedParses(t.minute, 2);
    PaddedParses(t.second, 2);
  }

  /** Reading the fixed positions of the printed form gives back the fields: a year of at least four characters, then the rest. */
  lemma FormatUtcReadsBack(e: int64)
    ensures var s := FormatUtc(e);
            var n := |s| - 15;
            n >= 4 && ParseI64(s[..n]) == Some(Fields(e).date.year) && ReadsAs(s[n..], Fields(e))
  {
    hide Padded, Fields, ParseI64, ReadsAs, Tail;
    var t := Fields(e);
    FieldsFollowCalendar(e);
    YearInRange(e);
    TailParts(t);
    TailReadsAs(t);
    var y, r := Padded(t.date.year, 4), Tail(t);
    PaddedParses(t.date.year, 4);
    assert (y + r)[..|y|] == y && (y + r)[|y|..] == r;
  }

  lemma YearInRange(e: int64)
    ensures -INT64_MAX <= Fields(e).date.year <= INT64_MAX
  {
    hide CivilFromDays, DaysBeforeMonth, DaysInMonth;
    CivilIsInverse(e / 86400);
    var d := Fields(e).date;
    WithinYear(d);
    YearBound(d.year);
  }

  lemma YearBound(y: int)
    ensures y >= 1 ==> DaysBeforeYear(y) >= y - 1
    ensures y <= 0 ==> DaysBeforeYear(y) <= y
  {
  }

  lemma PaddedParses(n: int, width: nat)
    requires -INT64_MAX <= n <= INT64_MAX
    ensures |Padded(n, width)| >= width && ParseI64(Padded(n, width)) == Some(n) && (n >= 0 ==> ParseU64(Padded(n, width)) == Some(n))
  {
    hide ToDecimal, DigitsValue, Zeros;
    PaddedValue(n, width);
    var m: nat := if n < 0 then -n else n;
    OnlyZeros((if n < 0 then width - 1 else width) - |ToDecimal(m)|);
    var s := Padded(n, width);
    assert n >= 0 ==> IsDigit(s[0]);
  }

  lemma TailInjective(t: DateTime, t': DateTime)
    requires ValidTime(t) && ValidTime(t') && Tail(t) == Tail(t')
    ensures t.date.month == t'.date.month && t.date.day == t'.date.day
    ensures t.hour == t'.hour && t.minute == t'.minute && t.second == t'.second
  {
    hide Tail, Padded;
    TailParts(t);
    TailParts(t');
    PaddedInjective(t.date.month, t'.date.month, 2);
    PaddedInjective(t.date.day, t'.date.day, 2);
    PaddedInjective(t.hour, t'.hour, 2);
    PaddedInjective(t.minute, t'.minute, 2);
    PaddedInjective(t.second, t'.second, 2);
  }
}
