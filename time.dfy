/**
 * The calendar arithmetic of src/lib/time.c: split_time breaks a count of seconds since
 * 1970 into a date_time_t, join_time adds the fields back up, and format_time writes a
 * date as text. Every field is a C int; C's `/` and `%` truncate toward zero.
 */
module Time {
  import opened CInt
  import opened Strings
  import opened Stdlib
  import BootUtil

  /** date_time_t. */
  datatype DateTime = DateTime(sec: int, min: int, hour: int, day: int, month: int, year: int,
                               weekDay: int, yearDay: int, tzOffset: int)

  predicate Int32(x: int)
  {
    -0x8000_0000 <= x < 0x8000_0000
  }

  predicate FieldsInt32(date: DateTime)
  {
    Int32(date.sec) && Int32(date.min) && Int32(date.hour) && Int32(date.day) && Int32(date.month) &&
    Int32(date.year) && Int32(date.weekDay) && Int32(date.yearDay) && Int32(date.tzOffset)
  }

  /** local_time_zone: minutes east of UTC. */
  const LocalTimeZone: int := -7 * 60

  /** TIME_STRING_SIZE: the buffer callers hand to format_time. */
  const TimeStringSize: int := 34

  const DaySecs: int := 24 * 60 * 60

  /** The most whole days an int32_t count of seconds reaches on either side of 1970. */
  const MaxDays: int := 24855

  // ---- The calendar the source follows ----------------------------------------------------------

  /** Every fourth year is a leap year (right for 1901 to 2099, which covers every int32_t time). */
  predicate IsLeap(year: int)
  {
    year % 4 == 0
  }

  function DaysInYear(year: int): int
  {
    if IsLeap(year) then 366 else 365
  }

  /** The days from 1 January 1970 to 1 January of year, counted year by year. */
  function DaysBefore(year: int): nat
    requires year >= 1970
    decreases year - 1970
  {
    if year == 1970 then 0 else DaysBefore(year - 1) + DaysInYear(year - 1)
  }

  /** The length of month 1..12. */
  function MonthLength(year: int, month: int): int
    requires 1 <= month <= 12
  {
    if month == 2 then (if IsLeap(year) then 29 else 28)
    else if month == 4 || month == 6 || month == 9 || month == 11 then 30
    else 31
  }

  /** Counted year by year, the days before 1970 + ey are 365 a year plus one per leap year. */
  lemma {:induction false} DaysBeforeCount(ey: nat)
    ensures DaysBefore(1970 + ey) == ey * 365 + (ey + 1) / 4
  {
    if ey > 0 {
      DaysBeforeCount(ey - 1);
      var q, r := ey / 4, ey % 4;
      assert ey == q * 4 + r;
      if r == 3 {
        DivMod(ey + 1, 4, q + 1, 0);
        DivMod(1969 + ey, 4, 493 + q, 0);
      } else {
        DivMod(ey + 1, 4, q, r + 1);
        DivMod(1969 + ey, 4, 492 + q, r + 1);
      }
    }
  }

  // ---- split_time -------------------------------------------------------------------------------

  /** split_time needs the sum t + tz_offset * 60 to be an int32_t, as C's signed arithmetic does. */
  predicate Splittable(t: int, tzOffset: int)
  {
    Int32(t) && Int32(tzOffset * 60) && Int32(t + tzOffset * 60)
  }

  /** month_start and leap_month_start: the day of the year each month starts on. */
  const CommonMonthStart: seq<int> := [0, 31, 59, 90, 120, 151, 181, 212, 243, 273, 304, 334, 365]
  const LeapMonthStart: seq<int> := [0, 31, 60, 91, 121, 152, 182, 213, 244, 274, 305, 335, 366]

  /** The table split_time scans: `year & 3` is year mod 4 for any two's-complement int. */
  function MonthTable(year: int): (table: seq<int>)
    ensures |table| == 13 && table[0] == 0 && table[12] == DaysInYear(year)
  {
    if year % 4 != 0 then CommonMonthStart else LeapMonthStart
  }

  /** Each table entry is the one before it plus the length of that month. */
  lemma MonthTableCounts(year: int, month: int)
    requires 1 <= month <= 12
    ensures MonthTable(year)[month] == MonthTable(year)[month - 1] + MonthLength(year, month)
  {
  }

  /** epoch_years: whole years since 1970, with one day per four years taken out first. */
  function EpochYears(days: int): int
  {
    CDiv(days - CDiv(days + 365, 1460), 365)
  }

  /** year_day: the days since 1 January of the year epoch_years reaches. */
  function YearDayOf(days: int): int
  {
    var ey := EpochYears(days);
    days - (ey * 365 + CDiv(ey + 1, 4))
  }

  /**
   * For a day on or after 1970, epoch_years and year_day name the year that day falls in
   * and its place in that year.
   */
  lemma {:induction false} CalendarOfDays(days: int)
    requires 0 <= days <= MaxDays
    ensures EpochYears(days) >= 0
    ensures DaysBefore(1970 + EpochYears(days)) + YearDayOf(days) == days
    ensures 0 <= YearDayOf(days) < DaysInYear(1970 + EpochYears(days))
  {
    var q, r := days / 1461, days % 1461;
    assert days == 1461 * q + r && 0 <= q <= 17;
    assert days + 365 == 1460 * q + (q + r + 365) && 0 <= q + r + 365 < 2920;
    var c := if q + r + 365 >= 1460 then 1 else 0;
    assert CDiv(days + 365, 1460) == q + c;
    var ey := EpochYears(days);
    assert days - CDiv(days + 365, 1460) == 1460 * q + r - c;
    if r < 365 {
      assert ey == 4 * q;
    } else if r < 730 {
      assert ey == 4 * q + 1;
    } else if r <= 1095 {
      assert ey == 4 * q + 2;
    } else {
      assert c == 1;
      assert ey == 4 * q + 3;
    }
    DaysBeforeCount(ey);
  }

  /** Before 1970 the truncating divisions leave year_day at most 0, so the scan stops at January. */
  lemma NegativeYearDay(days: int)
    requires -MaxDays <= days < 0
    ensures YearDayOf(days) <= 0
  {
    var x := days - CDiv(days + 365, 1460);
    assert x < 0;
    var a, b := (-x) / 365, (-x) % 365;
    assert EpochYears(days) == -a;
    assert 0 <= a <= 69;
  }

  /** Every year_day split_time can reach lies below the last table entry. */
  lemma YearDayInTable(days: int)
    requires -MaxDays <= days <= MaxDays
    ensures YearDayOf(days) < MonthTable(1970 + EpochYears(days))[12]
  {
    if days >= 0 {
      CalendarOfDays(days);
    } else {
      NegativeYearDay(days);
    }
  }

  /** The loop `while (year_day >= mstart[month]) ++month;` entered with month m. */
  function ScanMonth(table: seq<int>, yearDay: int, m: nat): (month: nat)
    requires |table| == 13 && 1 <= m <= 12 && yearDay < table[12]
    ensures m <= month <= 12 && yearDay < table[month]
    ensures forall k :: m <= k < month ==> table[k] <= yearDay
    decreases 12 - m
  {
    if yearDay >= table[m] then ScanMonth(table, yearDay, m + 1) else m
  }

  /** The whole days of an int32_t count of seconds stay within MaxDays. */
  lemma DaysInRange(u: int)
    requires Int32(u)
    ensures -MaxDays <= CDiv(u, DaySecs) <= MaxDays
  {
  }

  /** The fields split_time derives from the whole days and the seconds into the day. */
  function Assemble(days: int, secs: int, tzOffset: int): (date: DateTime)
    requires -MaxDays <= days <= MaxDays
    ensures 1 <= date.month <= 12 && date.tzOffset == tzOffset
  {
    var yearDay := YearDayOf(days);
    var year := 1970 + EpochYears(days);
    var table := MonthTable(year);
    YearDayInTable(days);
    var month := ScanMonth(table, yearDay, 1);
    DateTime(CMod(secs, 60), CDiv(CMod(secs, 3600), 60), CDiv(secs, 3600), 1 + yearDay - table[month - 1],
             month, year, CMod(days + 4, 7), yearDay, tzOffset)
  }

  /** What split_time stores for t seconds since 1970 in the zone tz_offset minutes east. */
  function Split(t: int, tzOffset: int): (date: DateTime)
    requires Splittable(t, tzOffset)
    ensures 1 <= date.month <= 12 && date.tzOffset == tzOffset
  {
    var u := t + tzOffset * 60;
    DaysInRange(u);
    Assemble(CDiv(u, DaySecs), CMod(u, DaySecs), tzOffset)
  }

  /**
   * split_time(date, t, tz_offset): the date_time_t it fills in, found with the same month
   * scan over the table for the year.
   */
  method SplitTime(t: int, tzOffset: int) returns (date: DateTime)
    requires Splittable(t, tzOffset)
    ensures date == Split(t, tzOffset)
  {
    var u := t + tzOffset * 60;
    var epochDays := CDiv(u, DaySecs);
    var daySecs := CMod(u, DaySecs);
    DaysInRange(u);
    date := SplitDays(epochDays, daySecs, tzOffset);
  }

  /** The body of split_time once the days and the seconds into the day are known. */
  method SplitDays(epochDays: int, daySecs: int, tzOffset: int) returns (date: DateTime)
    requires -MaxDays <= epochDays <= MaxDays
    ensures date == Assemble(epochDays, daySecs, tzOffset)
  {
    var sec := CMod(daySecs, 60);
    var min := CDiv(CMod(daySecs, 3600), 60);
    var hour := CDiv(daySecs, 3600);
    var epochYears := CDiv(epochDays - CDiv(epochDays + 365, 1460), 365);
    var yearDay := epochDays - (epochYears * 365 + CDiv(epochYears + 1, 4));
    var year := 1970 + epochYears;
    var mstart := if year % 4 != 0 then CommonMonthStart else LeapMonthStart;
    assert epochYears == EpochYears(epochDays) && yearDay == YearDayOf(epochDays) && mstart == MonthTable(year);
    YearDayInTable(epochDays);
    var month := MonthOf(mstart, yearDay);
    var day := 1 + yearDay - mstart[month - 1];
    var weekDay := CMod(epochDays + 4, 7);
    date := DateTime(sec, min, hour, day, month, year, weekDay, yearDay, tzOffset);
    AssembleOf(epochDays, daySecs, tzOffset, month);
  }

  /** Assemble once its month is scanned: the date it builds, field by field. */
  lemma AssembleOf(days: int, secs: int, tzOffset: int, month: nat)
    requires -MaxDays <= days <= MaxDays && YearDayOf(days) < MonthTable(1970 + EpochYears(days))[12]
    requires month == ScanMonth(MonthTable(1970 + EpochYears(days)), YearDayOf(days), 1)
    ensures Assemble(days, secs, tzOffset) ==
      DateTime(CMod(secs, 60), CDiv(CMod(secs, 3600), 60), CDiv(secs, 3600),
               1 + YearDayOf(days) - MonthTable(1970 + EpochYears(days))[month - 1],
               month, 1970 + EpochYears(days), CMod(days + 4, 7), YearDayOf(days), tzOffset)
  {
  }

  /** `while (year_day >= mstart[month]) ++month;` from month 1. */
  method MonthOf(mstart: seq<int>, yearDay: int) returns (month: nat)
    requires |mstart| == 13 && yearDay < mstart[12]
    ensures month == ScanMonth(mstart, yearDay, 1)
  {
    month := 1;
    while yearDay >= mstart[month]
      invariant 1 <= month <= 12
      invariant ScanMonth(mstart, yearDay, month) == ScanMonth(mstart, yearDay, 1)
      decreases 12 - month
    {
      month := month + 1;
    }
  }

  /** sec, min and hour of a number of seconds into a day. */
  lemma ClockOf(secs: int)
    requires 0 <= secs < DaySecs
    ensures 0 <= CMod(secs, 60) < 60 && 0 <= CDiv(CMod(secs, 3600), 60) < 60 && 0 <= CDiv(secs, 3600) < 24
    ensures CDiv(secs, 3600) * 3600 + CDiv(CMod(secs, 3600), 60) * 60 + CMod(secs, 60) == secs
  {
  }

  /** A moment u = t + tz * 60 at or after 1970 is split into its whole days and the seconds left over. */
  lemma SplitIsAssembled(t: int, tzOffset: int, u: int)
    requires Splittable(t, tzOffset) && u == t + tzOffset * 60 && u >= 0
    ensures 0 <= u / DaySecs <= MaxDays && 0 <= u % DaySecs < DaySecs
    ensures Split(t, tzOffset) == Assemble(u / DaySecs, u % DaySecs, tzOffset)
  {
    assert u / DaySecs <= MaxDays;
    assert CDiv(u, DaySecs) == u / DaySecs && CMod(u, DaySecs) == u % DaySecs;
  }

  /**
   * date is days whole days and secs seconds after 1 January 1970: second, minute and hour
   * are in range and count secs, year and year_day place the day in the calendar, and the
   * weekday counts on from the Thursday that was day 0.
   */
  predicate Counts(date: DateTime, days: int, secs: int)
  {
    && 0 <= date.sec < 60 && 0 <= date.min < 60 && 0 <= date.hour < 24
    && date.hour * 3600 + date.min * 60 + date.sec == secs
    && date.year >= 1970 && 0 <= date.yearDay < DaysInYear(date.year)
    && DaysBefore(date.year) + date.yearDay == days
    && 0 <= date.weekDay < 7 && date.weekDay == (days + 4) % 7
  }

  /** month and day name the day of the year: day is within the month, which starts where the table says. */
  predicate InMonth(date: DateTime)
  {
    && 1 <= date.month <= 12 && 1 <= date.day <= MonthLength(date.year, date.month)
    && MonthTable(date.year)[date.month - 1] + date.day - 1 == date.yearDay
  }

  lemma AssembleCounts(days: int, secs: int, tzOffset: int)
    requires 0 <= days <= MaxDays && 0 <= secs < DaySecs
    ensures Counts(Assemble(days, secs, tzOffset), days, secs)
  {
    CalendarOfDays(days);
    ClockOf(secs);
  }

  lemma AssembleInMonth(days: int, secs: int, tzOffset: int)
    requires 0 <= days <= MaxDays
    ensures InMonth(Assemble(days, secs, tzOffset))
  {
    var date := Assemble(days, secs, tzOffset);
    var table := MonthTable(date.year);
    CalendarOfDays(days);
    MonthTableCounts(date.year, date.month);
    if date.month > 1 {
      assert table[date.month - 1] <= date.yearDay;
    }
  }

  /**
   * From 1970 on, the fields count the seconds: the whole days and the seconds into the day
   * of t + tz * 60 are what the date says.
   */
  lemma SplitCounts(t: int, tzOffset: int)
    requires Splittable(t, tzOffset) && t + tzOffset * 60 >= 0
    ensures Counts(Split(t, tzOffset), (t + tzOffset * 60) / DaySecs, (t + tzOffset * 60) % DaySecs)
  {
    var u := t + tzOffset * 60;
    SplitIsAssembled(t, tzOffset, u);
    AssembleCounts(u / DaySecs, u % DaySecs, tzOffset);
  }

  /** From 1970 on, month and day follow the month lengths. */
  lemma SplitInMonth(t: int, tzOffset: int)
    requires Splittable(t, tzOffset) && t + tzOffset * 60 >= 0
    ensures InMonth(Split(t, tzOffset))
  {
    var u := t + tzOffset * 60;
    SplitIsAssembled(t, tzOffset, u);
    AssembleInMonth(u / DaySecs, u % DaySecs, tzOffset);
  }

  /** Dates that count consecutive days have consecutive weekdays. */
  lemma WeekDayNext(today: DateTime, tomorrow: DateTime, days: int, secs: int, later: int)
    requires Counts(today, days, secs) && Counts(tomorrow, days + 1, later)
    ensures tomorrow.weekDay == (today.weekDay + 1) % 7
  {
  }

  lemma DayLater(u: int)
    requires u >= 0
    ensures u / DaySecs * DaySecs + u % DaySecs == u
    ensures (u + DaySecs) / DaySecs == u / DaySecs + 1 && (u + DaySecs) % DaySecs == u % DaySecs
  {
  }

  /** A day later the weekday is the next one. */
  lemma SplitNextDay(t: int, tzOffset: int)
    requires Splittable(t, tzOffset) && Splittable(t + DaySecs, tzOffset) && t + tzOffset * 60 >= 0
    ensures Split(t + DaySecs, tzOffset).weekDay == (Split(t, tzOffset).weekDay + 1) % 7
  {
    var u := t + tzOffset * 60;
    var q := u / DaySecs;
    DayLater(u);
    SplitWeekDay(t, tzOffset, q);
    SplitWeekDay(t + DaySecs, tzOffset, q + 1);
    NextMod7(q + 4);
  }

  /** Counting one further moves the remainder modulo 7 one step round. */
  lemma NextMod7(x: int)
    ensures (x + 1) % 7 == (x % 7 + 1) % 7
  {
    var q, r := x / 7, x % 7;
    if r == 6 {
      DivMod(x + 1, 7, q + 1, 0);
      DivMod(r + 1, 7, 1, 0);
    } else {
      DivMod(x + 1, 7, q, r + 1);
      DivMod(r + 1, 7, 0, r + 1);
    }
  }

  /** split_time counts the weekday from the Thursday of 1 January 1970. */
  lemma SplitWeekDay(t: int, tzOffset: int, days: int)
    requires Splittable(t, tzOffset) && t + tzOffset * 60 >= 0 && days == (t + tzOffset * 60) / DaySecs
    ensures Split(t, tzOffset).weekDay == (days + 4) % 7
  {
    SplitCounts(t, tzOffset);
  }

  // ---- join_time --------------------------------------------------------------------------------

  /** The sum join_time forms, with y the year counted from 1900. */
  function JoinSum(date: DateTime, y: int): int
  {
    date.sec + date.min * 60 + date.hour * 3600 + date.yearDay * 86400 + (y - 70) * 31536000
    + CDiv(y - 69, 4) * 86400 - CDiv(y - 1, 100) * 86400 + CDiv(y + 299, 400) * 86400
  }

  /** join_time as written: date->year taken as years since 1900, the sum kept in 32 bits. */
  function JoinTimeAsWritten(date: DateTime): (t: int)
    ensures Int32(t)
  {
    Signed32(Wrap32(JoinSum(date, date.year)))
  }

  /** join_time as meant for the full years split_time and rtc_get_time produce. */
  function JoinTime(date: DateTime): (t: int)
    ensures Int32(t)
  {
    Signed32(Wrap32(JoinSum(date, date.year - 1900)))
  }

  /** For a date that counts days and secs since 1970, the corrected sum gives those seconds back. */
  lemma JoinCounts(date: DateTime, days: int, secs: int)
    requires Counts(date, days, secs) && days <= MaxDays
    ensures JoinSum(date, date.year - 1900) == days * DaySecs + secs
  {
    var ey, y := date.year - 1970, date.year - 1900;
    DaysBeforeCount(ey);
    assert 0 <= ey <= 68;
    if y >= 101 {
      DivMod(y - 1, 100, 1, y - 101);
      DivMod(y + 299, 400, 1, y - 101);
    } else {
      DivMod(y - 1, 100, 0, y - 1);
      DivMod(y + 299, 400, 0, y + 299);
    }
    assert CDiv(y - 1, 100) == CDiv(y + 299, 400);
    assert CDiv(y - 69, 4) == (ey + 1) / 4;
    assert date.yearDay + ey * 365 + (ey + 1) / 4 == days;
    assert JoinSum(date, y) == secs + (date.yearDay + ey * 365 + (ey + 1) / 4) * 86400;
  }

  /** ... and join_time returns them, the sum being an int32_t. */
  lemma JoinTimeCounts(date: DateTime, days: int, secs: int)
    requires Counts(date, days, secs) && days <= MaxDays && days * DaySecs + secs < 0x8000_0000
    ensures JoinTime(date) == days * DaySecs + secs
  {
    JoinCounts(date, days, secs);
    var u := days * DaySecs + secs;
    assert 0 <= u < 0x8000_0000;
    DivMod(u, B32, 0, u);
  }

  /** Joining what split_time gives back yields the local seconds t + tz * 60. */
  lemma JoinInvertsSplit(t: int, tzOffset: int)
    requires Splittable(t, tzOffset) && t + tzOffset * 60 >= 0
    ensures JoinTime(Split(t, tzOffset)) == t + tzOffset * 60
  {
    var u := t + tzOffset * 60;
    SplitCounts(t, tzOffset);
    DayBounds(u);
    JoinTimeCounts(Split(t, tzOffset), u / DaySecs, u % DaySecs);
  }

  /** A non-negative int32_t count of seconds is at most MaxDays whole days and the rest. */
  lemma DayBounds(u: int)
    requires 0 <= u < 0x8000_0000
    ensures u / DaySecs <= MaxDays && u / DaySecs * DaySecs + u % DaySecs == u
  {
  }

  /** The date of the epoch itself, joined as written. */
  lemma JoinAsWrittenAtEpoch(date: DateTime, days: int, secs: int)
    requires Counts(date, days, secs) && days == 0 && secs == 0
    ensures date.year == 1970 && JoinTimeAsWritten(date) == -171311744
  {
    assert date.year == 1970 && date.yearDay == 0;
    assert JoinSum(date, 1970) == 59958230400;
  }

  lemma SplitAtEpoch(t: int, tzOffset: int)
    requires Splittable(t, tzOffset) && t + tzOffset * 60 == 0
    ensures Counts(Split(t, tzOffset), 0, 0)
  {
    assert (t + tzOffset * 60) / DaySecs == 0 && (t + tzOffset * 60) % DaySecs == 0;
    SplitCounts(t, tzOffset);
  }

  /** As written, joining the split of the epoch itself does not give 0 back. */
  lemma JoinAsWrittenMissesEpoch(t: int, tzOffset: int)
    requires Splittable(t, tzOffset) && t + tzOffset * 60 == 0
    ensures Split(t, tzOffset).year == 1970
    ensures JoinTimeAsWritten(Split(t, tzOffset)) == -171311744
  {
    SplitAtEpoch(t, tzOffset);
    JoinAsWrittenAtEpoch(Split(t, tzOffset), 0, 0);
  }

  // ---- format_time ------------------------------------------------------------------------------

  const WeekDays: seq<seq<char>> := ["Sun", "Mon", "Tue", "Wed", "Thu", "Fri", "Sat"]
  const Months: seq<seq<char>> := ["Jan", "Feb", "Mar", "Apr", "May", "Jun", "Jul", "Aug", "Sep", "Oct", "Nov", "Dec"]
  const Unknown: seq<char> := "???"

  /** The weekday name: week_day read as a uint32_t indexes the table, "???" past its end. */
  function WeekDayName(weekDay: int): (name: seq<char>)
    ensures |name| == 3 && NUL !in name
  {
    var w := Wrap32(weekDay);
    if w < 7 then WeekDays[w] else Unknown
  }

  /** The month name: month - 1 read as a uint32_t indexes the table, "???" past its end. */
  function MonthName(month: int): (name: seq<char>)
    ensures |name| == 3 && NUL !in name
  {
    var m := Wrap32(month - 1);
    if m < 12 then Months[m] else Unknown
  }

  /** A name is "???" exactly when the field is out of range. */
  lemma NamesOutOfRange(weekDay: int, month: int)
    requires Int32(weekDay) && Int32(month)
    ensures WeekDayName(weekDay) == Unknown <==> !(0 <= weekDay < 7)
    ensures MonthName(month) == Unknown <==> !(1 <= month <= 12)
  {
    assert forall k :: 0 <= k < 7 ==> WeekDays[k][0] != '?';
    assert forall k :: 0 <= k < 12 ==> Months[k][0] != '?';
    if !(0 <= weekDay < 7) {
      assert Wrap32(weekDay) >= 7;
    }
    if !(1 <= month <= 12) {
      assert Wrap32(month - 1) >= 12;
    }
  }

  /**
   * A number as format_time writes it: a '0' first when pad is set and the value is below
   * 10, then the digits itoa gives in radix 10.
   */
  function Number(v: int, pad: bool): (n: seq<char>)
    ensures NUL !in n && 1 <= |n| && (pad ==> 2 <= |n|)
  {
    DigitsStep(Magnitude(v), 10);
    (if pad && v < 10 then "0" else []) + Spelled(v, 10)
  }

  /** Below 100 a padded number is two characters wide, the first a '0' below 10. */
  lemma NumberWidth(v: int)
    requires 0 <= v < 100
    ensures |Number(v, true)| == 2 && (v < 10 <==> Number(v, true)[0] == '0')
  {
    DigitsStep(v, 10);
    if v >= 10 {
      DigitsStep(v / 10, 10);
    }
  }

  /** The padding does not change the value atoi reads back. */
  lemma NumberReadsBack(v: int, pad: bool)
    requires 0 <= v < 0x8000_0000
    ensures BootUtil.Parse(Number(v, pad), 10, 0, false) == v
  {
    BootUtil.AtoiInvertsItoa(v, 10);
    if pad && v < 10 {
      assert DigitChar(0) == '0';
      BootUtil.ParseDigit(0, Spelled(v, 10), 10, 0, false);
      assert BootUtil.Accumulate(0, 10, 0) == 0;
    } else {
      assert Number(v, pad) == Spelled(v, 10);
    }
  }

  /** The zone as meant: its sign, then hours and minutes of its size, zero-padded. */
  function Zone(tzOffset: int): seq<char>
  {
    (if tzOffset < 0 then "-" else "+") + Number(Magnitude(tzOffset) / 60, true) + ":" + Number(Magnitude(tzOffset) % 60, true)
  }

  /** The zone as written: always '+', then tz_offset / 60 and tz_offset % 60, each with itoa's NUL. */
  function ZoneAsWritten(tzOffset: int): seq<char>
  {
    "+" + Number(CDiv(tzOffset, 60), true) + [NUL] + ":" + Number(CMod(tzOffset, 60), true) + [NUL]
  }

  /** The text format_time is meant to produce, "Thu, 01 Jan 1970 00:00:00 +00:00". */
  function Formatted(date: DateTime): (s: seq<char>)
    ensures NUL !in s
  {
    WeekDayName(date.weekDay) + ", " + Number(date.day, true) + " " + MonthName(date.month) + " " +
    Number(date.year, false) + " " + Number(date.hour, true) + ":" + Number(date.min, true) + ":" +
    Number(date.sec, true) + " " + Zone(date.tzOffset)
  }

  /**
   * The characters format_time stores as written: with the kernel itoa returning a pointer
   * past its NUL, every number keeps its NUL and the next character goes after it.
   */
  function Written(date: DateTime): seq<char>
  {
    WeekDayName(date.weekDay) + ", " + Number(date.day, true) + [NUL] + " " + MonthName(date.month) + " " +
    Number(date.year, false) + [NUL] + " " + Number(date.hour, true) + [NUL] + ":" + Number(date.min, true) + [NUL] +
    ":" + Number(date.sec, true) + [NUL] + " " + ZoneAsWritten(date.tzOffset)
  }

  /** Read as a C string, the text as written ends after the day: the rest hides behind its NUL. */
  lemma AsWrittenStopsAtDay(date: DateTime)
    ensures NUL in Written(date)
    ensures Text(Written(date)) == WeekDayName(date.weekDay) + ", " + Number(date.day, true)
  {
    var p := WeekDayName(date.weekDay) + ", " + Number(date.day, true);
    var s := p + [NUL];
    TextOf(s, p);
    TextKept(s, " "); s := s + " ";
    TextKept(s, MonthName(date.month)); s := s + MonthName(date.month);
    TextKept(s, " "); s := s + " ";
    TextKept(s, Number(date.year, false)); s := s + Number(date.year, false);
    TextKept(s, [NUL]); s := s + [NUL];
    TextKept(s, " "); s := s + " ";
    TextKept(s, Number(date.hour, true)); s := s + Number(date.hour, true);
    TextKept(s, [NUL]); s := s + [NUL];
    TextKept(s, ":"); s := s + ":";
    TextKept(s, Number(date.min, true)); s := s + Number(date.min, true);
    TextKept(s, [NUL]); s := s + [NUL];
    TextKept(s, ":"); s := s + ":";
    TextKept(s, Number(date.sec, true)); s := s + Number(date.sec, true);
    TextKept(s, [NUL]); s := s + [NUL];
    TextKept(s, " "); s := s + " ";
    TextKept(s, ZoneAsWritten(date.tzOffset)); s := s + ZoneAsWritten(date.tzOffset);
    assert s == Written(date);
  }

  /** The same holds wherever the text is written into a buffer. */
  lemma AsWrittenTextAt(d: seq<char>, at: nat, date: DateTime)
    requires at + |Written(date)| <= |d|
    ensures NUL in Overwritten(d, at, Written(date))[at..]
    ensures Text(Overwritten(d, at, Written(date))[at..]) == WeekDayName(date.weekDay) + ", " + Number(date.day, true)
  {
    AsWrittenStopsAtDay(date);
    OverwrittenText(d, at, Written(date), Text(Written(date)));
  }

  /** Whatever the date, the text as written does not fit the TIME_STRING_SIZE buffer. */
  lemma AsWrittenOverflows(date: DateTime)
    ensures |Written(date)| >= 36 > TimeStringSize
  {
  }

  /** For a zone at least an hour west, the text as written starts "+0-": the sign is never written. */
  lemma AsWrittenZoneNegative(tzOffset: int)
    requires Int32(tzOffset) && tzOffset <= -60
    ensures ZoneAsWritten(tzOffset)[..3] == "+0-"
    ensures Zone(tzOffset)[0] == '-'
  {
    var h := CDiv(tzOffset, 60);
    assert h < 0 && Number(h, true) == "0" + Spelled(h, 10);
    assert Spelled(h, 10)[0] == '-';
  }

  /** The kernel's own zone, UTC-7, comes out "+0-7\0:00\0" as written and "-07:00" as meant. */
  lemma LocalZoneText()
    ensures ZoneAsWritten(LocalTimeZone) == "+0-7" + [NUL] + ":00" + [NUL]
    ensures Zone(LocalTimeZone) == "-07:00"
  {
    DivMod(420, 60, 7, 0);
    assert CDiv(LocalTimeZone, 60) == -7 && CMod(LocalTimeZone, 60) == 0;
    assert Magnitude(LocalTimeZone) / 60 == 7 && Magnitude(LocalTimeZone) % 60 == 0;
    SingleDigit(7, '7');
    SingleDigit(0, '0');
    SingleDigit(-7, '7');
  }

  /** A padded number of one digit is that digit after a '0', the '-' between for a negative one. */
  lemma SingleDigit(v: int, c: char)
    requires -10 < v < 10 && c == DigitChar(Magnitude(v))
    ensures Number(v, true) == "0" + (if v < 0 then "-" else "") + [c]
  {
    DigitsStep(Magnitude(v), 10);
  }

  /** Within 100 hours, the zone as meant is six characters and reads back as its sign and size. */
  lemma ZoneReadsBack(tzOffset: int)
    requires -6000 < tzOffset < 6000
    ensures |Zone(tzOffset)| == 6 && Zone(tzOffset)[3] == ':'
    ensures Zone(tzOffset)[0] == '-' <==> tzOffset < 0
    ensures BootUtil.Parse(Zone(tzOffset)[1..3], 10, 0, false) * 60 + BootUtil.Parse(Zone(tzOffset)[4..], 10, 0, false) == Magnitude(tzOffset)
  {
    var h, m := Magnitude(tzOffset) / 60, Magnitude(tzOffset) % 60;
    assert h < 100 && h * 60 + m == Magnitude(tzOffset);
    NumberWidth(h);
    NumberWidth(m);
    NumberReadsBack(h, true);
    NumberReadsBack(m, true);
    ZonePieces(if tzOffset < 0 then "-" else "+", Number(h, true), Number(m, true));
  }

  /** Where the sign, the hours, the ':' and the minutes of a zone lie. */
  lemma ZonePieces(sign: seq<char>, hours: seq<char>, minutes: seq<char>)
    requires |sign| == 1 && |hours| == 2 && |minutes| == 2
    ensures var z := sign + hours + ":" + minutes;
      |z| == 6 && z[0] == sign[0] && z[1..3] == hours && z[3] == ':' && z[4..] == minutes
  {
  }

  /** At most four digits below 10000. */
  lemma DigitsWidth(v: nat)
    requires v < 10000
    ensures |Digits(v, 10)| <= 4
  {
    DigitsStep(v, 10);
    DigitsStep(v / 10, 10);
    DigitsStep(v / 100, 10);
    assert v / 10 / 10 == v / 100 && v / 100 / 10 == v / 1000;
    DigitsStep(v / 1000, 10);
  }

  /** Fields a four-digit year, a clock and a zone within 100 hours. */
  predicate Printable(date: DateTime)
  {
    && 0 <= date.sec < 60 && 0 <= date.min < 60 && 0 <= date.hour < 24 && 0 <= date.day < 100
    && 0 <= date.year < 10000 && -6000 < date.tzOffset < 6000
  }

  /** Such a date, as meant, fits TIME_STRING_SIZE with its NUL. */
  lemma FormattedFits(date: DateTime)
    requires Printable(date)
    ensures |Formatted(date)| < TimeStringSize
  {
    NumberWidth(date.day);
    NumberWidth(date.hour);
    NumberWidth(date.min);
    NumberWidth(date.sec);
    DigitsWidth(date.year);
    ZoneReadsBack(date.tzOffset);
  }

  /** What split_time gives for a time at or after the epoch is printable in a zone within 100 hours. */
  lemma CountsPrintable(date: DateTime, days: int, secs: int)
    requires Counts(date, days, secs) && InMonth(date) && days <= MaxDays && -6000 < date.tzOffset < 6000
    ensures Printable(date)
  {
    DaysBeforeCount(date.year - 1970);
  }

  lemma SplitFits(t: int, tzOffset: int)
    requires Splittable(t, tzOffset) && t + tzOffset * 60 >= 0 && -6000 < tzOffset < 6000
    ensures |Formatted(Split(t, tzOffset))| < TimeStringSize
  {
    var date := Split(t, tzOffset);
    assert Printable(date) by {
      SplitCounts(t, tzOffset);
      SplitInMonth(t, tzOffset);
      SplitIsAssembled(t, tzOffset, t + tzOffset * 60);
      CountsPrintable(date, (t + tzOffset * 60) / DaySecs, (t + tzOffset * 60) % DaySecs);
    }
    FormattedFits(date);
  }

  // ---- The writing steps of format_time ----------------------------------------------------------

  /**
   * s is the buffer that held d once w has been written from position at, followed by the
   * leftover e (the NUL of the last itoa, which the next step covers).
   */
  ghost predicate Wrote(s: seq<char>, d: seq<char>, at: nat, w: seq<char>, e: seq<char>)
  {
    at + |w| + |e| <= |d| && s == Overwritten(d, at, w + e)
  }

  /** Moving past the leftover NUL instead of covering it keeps it in what is written. */
  lemma KeepNul(s: seq<char>, d: seq<char>, at: nat, w: seq<char>)
    requires Wrote(s, d, at, w, [NUL])
    ensures Wrote(s, d, at, w + [NUL], [])
  {
    assert w + [NUL] + [] == w + [NUL];
  }

  /** itoa's digits and NUL, stored after the pad, cover the leftover e1: the number is written. */
  lemma NumberOver(mid: seq<char>, s: seq<char>, d: seq<char>, at: nat, w: seq<char>, w1: seq<char>, e1: seq<char>, v: int, pad: bool)
    requires w1 == w + (if pad && v < 10 then "0" else []) && |e1| <= 1
    requires at + |w| + |Number(v, pad)| < |d| && Wrote(mid, d, at, w1, e1)
    requires s == Copied(mid, at + |w1|, Spelled(v, 10))
    ensures Wrote(s, d, at, w + Number(v, pad), [NUL])
  {
    CopiedOver(d, at, w1, e1, Spelled(v, 10));
    AppendAssoc(w, if pad && v < 10 then "0" else [], Spelled(v, 10));
  }

  /** The characters t (a memcpy or a run of single stores) are written over the leftover e. */
  method PutText(str: array<char>, pos: nat, t: seq<char>, ghost d: seq<char>, ghost at: nat, ghost w: seq<char>, ghost e: seq<char>)
    returns (next: nat)
    requires pos == at + |w| && |e| <= |t| && pos + |t| <= str.Length && Wrote(str[..], d, at, w, e)
    modifies str
    ensures next == pos + |t| && Wrote(str[..], d, at, w + t, [])
  {
    ghost var o := str[..];
    var i := 0;
    while i < |t|
      invariant i <= |t| && str[..] == Overwritten(o, pos, t[..i])
    {
      OverwrittenStep(o, pos, t, i);
      str[pos + i] := t[i];
      i := i + 1;
    }
    assert t[..i] == t;
    OverwrittenOver(d, at, w, e, t);
    assert w + t + [] == w + t;
    next := pos + |t|;
  }

  /** The '0' format_time puts before a field below 10 that it pads. */
  method PutPad(str: array<char>, pos: nat, v: int, pad: bool, ghost d: seq<char>, ghost at: nat, ghost w: seq<char>, ghost e: seq<char>)
    returns (next: nat, ghost w1: seq<char>, ghost e1: seq<char>)
    requires pos == at + |w| && |e| <= 1 && pos + 1 <= str.Length && Wrote(str[..], d, at, w, e)
    modifies str
    ensures w1 == w + (if pad && v < 10 then "0" else []) && next == at + |w1| && |e1| <= 1
    ensures Wrote(str[..], d, at, w1, e1)
  {
    if pad && v < 10 {
      next := PutText(str, pos, "0", d, at, w, e);
      w1, e1 := w + "0", [];
    } else {
      next, w1, e1 := pos, w, e;
      assert w + [] == w;
    }
  }

  /**
   * A number as meant: the '0' pad if asked for, then an itoa that returns the position of
   * its NUL, so that the NUL is left over for the next step to cover.
   */
  method PutNumber(str: array<char>, pos: nat, v: int, pad: bool, ghost d: seq<char>, ghost at: nat, ghost w: seq<char>, ghost e: seq<char>)
    returns (next: nat)
    requires Int32(v) && pos == at + |w| && |e| <= 1 && pos + |Number(v, pad)| < str.Length && Wrote(str[..], d, at, w, e)
    modifies str
    ensures next == pos + |Number(v, pad)| && Wrote(str[..], d, at, w + Number(v, pad), [NUL])
  {
    var p, w1, e1 := PutPad(str, pos, v, pad, d, at, w, e);
    ghost var mid := str[..];
    var end := BootUtil.Itoa(v, str, p, 10);
    NumberOver(mid, str[..], d, at, w, w1, e1, v, pad);
    next := end.value;
  }

  /** A number as written: the kernel itoa returns the position one past its NUL. */
  method PutNumberAsWritten(str: array<char>, pos: nat, v: int, pad: bool, ghost d: seq<char>, ghost at: nat, ghost w: seq<char>, ghost e: seq<char>)
    returns (next: nat)
    requires Int32(v) && pos == at + |w| && |e| <= 1 && pos + |Number(v, pad)| < str.Length && Wrote(str[..], d, at, w, e)
    modifies str
    ensures next == pos + |Number(v, pad)| + 1 && Wrote(str[..], d, at, w + Number(v, pad) + [NUL], [])
  {
    var p, w1, e1 := PutPad(str, pos, v, pad, d, at, w, e);
    ghost var mid := str[..];
    var end := Stdlib.Itoa(v, str, p, 10);
    NumberOver(mid, str[..], d, at, w, w1, e1, v, pad);
    KeepNul(str[..], d, at, w + Number(v, pad));
    next := end.value;
  }

  /** The zone as meant: its sign, then the hours and minutes of its size. */
  method PutZone(str: array<char>, pos: nat, tzOffset: int, ghost d: seq<char>, ghost at: nat, ghost w: seq<char>, ghost e: seq<char>)
    returns (next: nat)
    requires Int32(tzOffset) && pos == at + |w| && |e| <= 1 && pos + |Zone(tzOffset)| < str.Length && Wrote(str[..], d, at, w, e)
    modifies str
    ensures next == pos + |Zone(tzOffset)| && Wrote(str[..], d, at, w + Zone(tzOffset), [NUL])
  {
    var sign := if tzOffset < 0 then "-" else "+";
    var h, m := Magnitude(tzOffset) / 60, Magnitude(tzOffset) % 60;
    next := PutText(str, pos, sign, d, at, w, e);
    next := PutNumber(str, next, h, true, d, at, w + sign, []);
    next := PutText(str, next, ":", d, at, w + sign + Number(h, true), [NUL]);
    next := PutNumber(str, next, m, true, d, at, w + sign + Number(h, true) + ":", []);
    AppendAssoc4(w, sign, Number(h, true), ":", Number(m, true));
  }

  /** The zone as written: '+', then tz_offset / 60 and tz_offset % 60 with C's division. */
  method PutZoneAsWritten(str: array<char>, pos: nat, tzOffset: int, ghost d: seq<char>, ghost at: nat, ghost w: seq<char>, ghost e: seq<char>)
    returns (next: nat)
    requires Int32(tzOffset) && pos == at + |w| && |e| <= 1 && pos + |ZoneAsWritten(tzOffset)| <= str.Length && Wrote(str[..], d, at, w, e)
    modifies str
    ensures next == pos + |ZoneAsWritten(tzOffset)| && Wrote(str[..], d, at, w + ZoneAsWritten(tzOffset), [])
  {
    var tzh, tzm := CDiv(tzOffset, 60), CMod(tzOffset, 60);
    next := PutText(str, pos, "+", d, at, w, e);
    next := PutNumberAsWritten(str, next, tzh, true, d, at, w + "+", []);
    next := PutText(str, next, ":", d, at, w + "+" + Number(tzh, true) + [NUL], []);
    next := PutNumberAsWritten(str, next, tzm, true, d, at, w + "+" + Number(tzh, true) + [NUL] + ":", []);
    AppendAssoc6(w, "+", Number(tzh, true), [NUL], ":", Number(tzm, true), [NUL]);
  }

  /** The weekday name, ", " and the day: where a C string of format_time begins. */
  method PutDay(str: array<char>, at: nat, date: DateTime, ghost d: seq<char>)
    returns (next: nat)
    requires Int32(date.day) && at + |WeekDayName(date.weekDay) + ", " + Number(date.day, true)| < str.Length
    requires at <= |d| && str[..] == d
    modifies str
    ensures next == at + |WeekDayName(date.weekDay) + ", " + Number(date.day, true)|
    ensures Wrote(str[..], d, at, WeekDayName(date.weekDay) + ", " + Number(date.day, true), [NUL])
  {
    OverwrittenNothing(d, at);
    next := PutText(str, at, WeekDayName(date.weekDay), d, at, [], []);
    assert [] + WeekDayName(date.weekDay) == WeekDayName(date.weekDay);
    next := PutText(str, next, ", ", d, at, WeekDayName(date.weekDay), []);
    next := PutNumber(str, next, date.day, true, d, at, WeekDayName(date.weekDay) + ", ", []);
  }

  /** " ", the month name, " " and the year, as meant. */
  method PutMonthYear(str: array<char>, pos: nat, date: DateTime, ghost d: seq<char>, ghost at: nat, ghost w: seq<char>)
    returns (next: nat)
    requires Int32(date.year) && pos == at + |w| && pos + |" " + MonthName(date.month) + " " + Number(date.year, false)| < str.Length
    requires Wrote(str[..], d, at, w, [NUL])
    modifies str
    ensures next == pos + |" " + MonthName(date.month) + " " + Number(date.year, false)|
    ensures Wrote(str[..], d, at, w + " " + MonthName(date.month) + " " + Number(date.year, false), [NUL])
  {
    next := PutText(str, pos, " ", d, at, w, [NUL]);
    next := PutText(str, next, MonthName(date.month), d, at, w + " ", []);
    next := PutText(str, next, " ", d, at, w + " " + MonthName(date.month), []);
    next := PutNumber(str, next, date.year, false, d, at, w + " " + MonthName(date.month) + " ", []);
  }

  /** " ", then hour, minute and second, each padded and separated by ':', as meant. */
  method PutClock(str: array<char>, pos: nat, date: DateTime, ghost d: seq<char>, ghost at: nat, ghost w: seq<char>)
    returns (next: nat)
    requires Int32(date.hour) && Int32(date.min) && Int32(date.sec) && pos == at + |w|
    requires pos + |" " + Number(date.hour, true) + ":" + Number(date.min, true) + ":" + Number(date.sec, true)| < str.Length
    requires Wrote(str[..], d, at, w, [NUL])
    modifies str
    ensures next == pos + |" " + Number(date.hour, true) + ":" + Number(date.min, true) + ":" + Number(date.sec, true)|
    ensures Wrote(str[..], d, at, w + " " + Number(date.hour, true) + ":" + Number(date.min, true) + ":" + Number(date.sec, true), [NUL])
  {
    next := PutText(str, pos, " ", d, at, w, [NUL]);
    next := PutNumber(str, next, date.hour, true, d, at, w + " ", []);
    next := PutText(str, next, ":", d, at, w + " " + Number(date.hour, true), [NUL]);
    next := PutNumber(str, next, date.min, true, d, at, w + " " + Number(date.hour, true) + ":", []);
    next := PutText(str, next, ":", d, at, w + " " + Number(date.hour, true) + ":" + Number(date.min, true), [NUL]);
    next := PutNumber(str, next, date.sec, true, d, at, w + " " + Number(date.hour, true) + ":" + Number(date.min, true) + ":", []);
  }

  /**
   * format_time as meant: with an itoa that returns the position of its NUL and the zone
   * written with its sign, the buffer holds the C string Formatted(date) from position at.
   */
  method FormatTime(str: array<char>, at: nat, date: DateTime)
    requires FieldsInt32(date) && at + |Formatted(date)| < str.Length
    modifies str
    ensures str[..] == Copied(old(str[..]), at, Formatted(date))
    ensures NUL in str[at..] && Text(str[at..]) == Formatted(date)
  {
    ghost var d := str[..];
    var pos := PutDay(str, at, date, d);
    ghost var w := WeekDayName(date.weekDay) + ", " + Number(date.day, true);
    pos := PutMonthYear(str, pos, date, d, at, w);
    w := w + " " + MonthName(date.month) + " " + Number(date.year, false);
    pos := PutClock(str, pos, date, d, at, w);
    w := w + " " + Number(date.hour, true) + ":" + Number(date.min, true) + ":" + Number(date.sec, true);
    pos := PutText(str, pos, " ", d, at, w, [NUL]);
    pos := PutZone(str, pos, date.tzOffset, d, at, w + " ", []);
    assert w + " " + Zone(date.tzOffset) == Formatted(date);
    CopiedIsOverwritten(d, at, Formatted(date));
    CopiedText(d, at, Formatted(date));
  }

  /** The weekday name, ", " and the day, as written: the day keeps its NUL. */
  method PutDayAsWritten(str: array<char>, at: nat, date: DateTime, ghost d: seq<char>)
    returns (next: nat)
    requires Int32(date.day) && at + |WeekDayName(date.weekDay) + ", " + Number(date.day, true)| < str.Length
    requires at <= |d| && str[..] == d
    modifies str
    ensures next == at + |WeekDayName(date.weekDay) + ", " + Number(date.day, true) + [NUL]|
    ensures Wrote(str[..], d, at, WeekDayName(date.weekDay) + ", " + Number(date.day, true) + [NUL], [])
  {
    OverwrittenNothing(d, at);
    next := PutText(str, at, WeekDayName(date.weekDay), d, at, [], []);
    assert [] + WeekDayName(date.weekDay) == WeekDayName(date.weekDay);
    next := PutText(str, next, ", ", d, at, WeekDayName(date.weekDay), []);
    next := PutNumberAsWritten(str, next, date.day, true, d, at, WeekDayName(date.weekDay) + ", ", []);
  }

  /** " ", the month name, " " and the year, as written. */
  method PutMonthYearAsWritten(str: array<char>, pos: nat, date: DateTime, ghost d: seq<char>, ghost at: nat, ghost w: seq<char>)
    returns (next: nat)
    requires Int32(date.year) && pos == at + |w| && pos + |" " + MonthName(date.month) + " " + Number(date.year, false)| < str.Length
    requires Wrote(str[..], d, at, w, [])
    modifies str
    ensures next == pos + |" " + MonthName(date.month) + " " + Number(date.year, false) + [NUL]|
    ensures Wrote(str[..], d, at, w + " " + MonthName(date.month) + " " + Number(date.year, false) + [NUL], [])
  {
    next := PutText(str, pos, " ", d, at, w, []);
    next := PutText(str, next, MonthName(date.month), d, at, w + " ", []);
    next := PutText(str, next, " ", d, at, w + " " + MonthName(date.month), []);
    next := PutNumberAsWritten(str, next, date.year, false, d, at, w + " " + MonthName(date.month) + " ", []);
  }

  /** " ", then hour, minute and second separated by ':', as written: each keeps its NUL. */
  method PutClockAsWritten(str: array<char>, pos: nat, date: DateTime, ghost d: seq<char>, ghost at: nat, ghost w: seq<char>)
    returns (next: nat)
    requires Int32(date.hour) && Int32(date.min) && Int32(date.sec) && pos == at + |w|
    requires pos + |" " + Number(date.hour, true) + [NUL] + ":" + Number(date.min, true) + [NUL] + ":" + Number(date.sec, true)| < str.Length
    requires Wrote(str[..], d, at, w, [])
    modifies str
    ensures next == pos + |" " + Number(date.hour, true) + [NUL] + ":" + Number(date.min, true) + [NUL] + ":" + Number(date.sec, true) + [NUL]|
    ensures Wrote(str[..], d, at, w + " " + Number(date.hour, true) + [NUL] + ":" + Number(date.min, true) + [NUL] + ":" + Number(date.sec, true) + [NUL], [])
  {
    next := PutText(str, pos, " ", d, at, w, []);
    next := PutNumberAsWritten(str, next, date.hour, true, d, at, w + " ", []);
    next := PutText(str, next, ":", d, at, w + " " + Number(date.hour, true) + [NUL], []);
    next := PutNumberAsWritten(str, next, date.min, true, d, at, w + " " + Number(date.hour, true) + [NUL] + ":", []);
    next := PutText(str, next, ":", d, at, w + " " + Number(date.hour, true) + [NUL] + ":" + Number(date.min, true) + [NUL], []);
    next := PutNumberAsWritten(str, next, date.sec, true, d, at, w + " " + Number(date.hour, true) + [NUL] + ":" + Number(date.min, true) + [NUL] + ":", []);
  }

  /**
   * format_time as written (time.c): every itoa but the last is followed by a character
   * written after its NUL, so the buffer holds Written(date) from position at, and the C
   * string there ends after the day.
   */
  method FormatTimeAsWritten(str: array<char>, at: nat, date: DateTime)
    requires FieldsInt32(date) && at + |Written(date)| <= str.Length
    modifies str
    ensures str[..] == Overwritten(old(str[..]), at, Written(date))
    ensures NUL in str[at..] && Text(str[at..]) == WeekDayName(date.weekDay) + ", " + Number(date.day, true)
  {
    ghost var d := str[..];
    var pos := PutDayAsWritten(str, at, date, d);
    ghost var w := WeekDayName(date.weekDay) + ", " + Number(date.day, true) + [NUL];
    pos := PutMonthYearAsWritten(str, pos, date, d, at, w);
    w := w + " " + MonthName(date.month) + " " + Number(date.year, false) + [NUL];
    pos := PutClockAsWritten(str, pos, date, d, at, w);
    w := w + " " + Number(date.hour, true) + [NUL] + ":" + Number(date.min, true) + [NUL] + ":" + Number(date.sec, true) + [NUL];
    pos := PutText(str, pos, " ", d, at, w, []);
    pos := PutZoneAsWritten(str, pos, date.tzOffset, d, at, w + " ", []);
    assert w + " " + ZoneAsWritten(date.tzOffset) == Written(date);
    assert Written(date) + [] == Written(date);
    AsWrittenTextAt(d, at, date);
  }
}
