/** The real-time clock reader of drivers/cmos.c: the date and time
    registers of the CMOS RTC are read as BCD, the year is assembled from
    century and year, and the UTC+8 correction moves the result eight
    hours on, rolling over day, month and year. The RTC is a function from
    register index to the byte the data port returns for it. */
module Cmos {
  import opened Machine

  const CMOS_INDEX: Word16 := 0x70
  const CMOS_DATA: Word16 := 0x71
  const CMOS_CUR_SEC: Byte := 0x00
  const CMOS_CUR_MIN: Byte := 0x02
  const CMOS_CUR_HOUR: Byte := 0x04
  const CMOS_CUR_DAY: Byte := 0x07
  const CMOS_CUR_MON: Byte := 0x08
  const CMOS_CUR_YEAR: Byte := 0x09
  const CMOS_CUR_CEN: Byte := 0x32
  /** The index written after each read (it also masks NMIs). */
  const CMOS_NMI_OFF: Byte := 0x80
  /** The hours the correction adds. */
  const UTC_OFFSET: int := 8

  /** current_time_t. */
  datatype Time = Time(year: int, month: int, day: int, hour: int, min: int, sec: int)

  /** bcd2hex: the tens nibble times ten plus the units nibble. */
  function Bcd2Hex(n: Byte): nat
  {
    (n / 16) * 10 + n % 16
  }

  /** A value below 100 in BCD. */
  function ToBcd(v: nat): Byte
    requires v < 100
  {
    (v / 10) * 16 + v % 10
  }

  /** A genuine BCD byte decodes to the two-digit number it spells, and
      encoding that number gives the byte back. */
  lemma Bcd2HexRoundTrip(n: Byte)
    requires n / 16 < 10 && n % 16 < 10
    ensures Bcd2Hex(n) < 100 && Bcd2Hex(n) / 10 == n / 16 && Bcd2Hex(n) % 10 == n % 16
    ensures ToBcd(Bcd2Hex(n)) == n
  {
  }

  /** Every two-digit number survives the trip through BCD. */
  lemma ToBcdRoundTrip(v: nat)
    requires v < 100
    ensures Bcd2Hex(ToBcd(v)) == v
  {
  }

  /** is_leap_year: divisible by 400, or by 4 and not by 100. */
  predicate IsLeapYear(year: int)
  {
    year % 400 == 0 || (year % 4 == 0 && year % 100 != 0)
  }

  /** Leap years repeat every 400 years, and century years are leap
      years only when divisible by 400. */
  lemma LeapYearRule(year: int)
    ensures IsLeapYear(year) == IsLeapYear(year + 400)
    ensures year % 100 == 0 ==> (IsLeapYear(year) <==> year % 400 == 0)
  {
    var q, r := year / 400, year % 400;
    assert year + 400 == 400 * (q + 1) + r;
    assert (year + 400) % 400 == r;
    assert (year + 400) % 100 == year % 100;
    assert (year + 400) % 4 == year % 4;
  }

  /** day_of_months before the leap-year adjustment (index 0 unused). */
  const MONTH_DAYS: seq<int> := [0, 31, 28, 31, 30, 31, 30, 31, 31, 30, 31, 30, 31]

  /** The table entry get_current_time compares the day with: February
      gains a day in a leap year. */
  function MonthDays(year: int, month: nat): int
    requires month <= 12
  {
    if month == 2 && IsLeapYear(year) then 29 else MONTH_DAYS[month]
  }

  /** The time as read from the RTC: every register decoded from BCD, the
      year as century * 100 + year. */
  function RawTime(rtc: Byte -> Byte): Time
  {
    Time(Bcd2Hex(rtc(CMOS_CUR_CEN)) * 100 + Bcd2Hex(rtc(CMOS_CUR_YEAR)),
         Bcd2Hex(rtc(CMOS_CUR_MON)), Bcd2Hex(rtc(CMOS_CUR_DAY)),
         Bcd2Hex(rtc(CMOS_CUR_HOUR)), Bcd2Hex(rtc(CMOS_CUR_MIN)), Bcd2Hex(rtc(CMOS_CUR_SEC)))
  }

  /** The UTC+8 correction: eight hours on; an hour past 23 wraps and
      moves the day on; a day past the month's length becomes the first of
      the next month; a month past 12 becomes January of the next year.
      `month` indexes the 13-entry table, so it must not exceed 12. */
  function Utc8(t: Time): Time
    requires 0 <= t.month <= 12
  {
    var hour0 := t.hour + UTC_OFFSET;
    var hour := if hour0 >= 24 then hour0 - 24 else hour0;
    var day0 := if hour0 >= 24 then t.day + 1 else t.day;
    var day := if day0 > MonthDays(t.year, t.month) then 1 else day0;
    var month0 := if day0 > MonthDays(t.year, t.month) then t.month + 1 else t.month;
    var month := if month0 > 12 then 1 else month0;
    var year := if month0 > 12 then t.year + 1 else t.year;
    Time(year, month, day, hour, t.min, t.sec)
  }

  /** A calendar date and a time of day. */
  predicate Valid(t: Time)
  {
    t.year >= 0 && 1 <= t.month <= 12 && 1 <= t.day <= MonthDays(t.year, t.month)
    && 0 <= t.hour < 24 && 0 <= t.min < 60 && 0 <= t.sec < 60
  }

  /** The days in a year. */
  function YearLength(year: int): int
  {
    if IsLeapYear(year) then 366 else 365
  }

  /** The days of the years before `year`, counted from year 0. */
  function DaysBeforeYear(year: nat): nat
  {
    if year == 0 then 0 else DaysBeforeYear(year - 1) + YearLength(year - 1)
  }

  /** The days of the months of `year` before `month`. */
  function DaysBeforeMonth(year: int, month: nat): nat
    requires 1 <= month <= 12
  {
    [0, 0, 31, 59, 90, 120, 151, 181, 212, 243, 273, 304, 334][month]
    + if month > 2 && IsLeapYear(year) then 1 else 0
  }

  /** The number of the day in a calendar counting from 1 January of
      year 0 as day 0. */
  function DayNumber(t: Time): int
    requires Valid(t)
  {
    DaysBeforeYear(t.year) + DaysBeforeMonth(t.year, t.month) + t.day - 1
  }

  /** The instant in seconds on that calendar. */
  function Seconds(t: Time): int
    requires Valid(t)
  {
    ((DayNumber(t) * 24 + t.hour) * 60 + t.min) * 60 + t.sec
  }

  /** The month after a full month is the next in the year, after its
      last day. */
  lemma DaysBeforeNextMonth(year: int, month: nat)
    requires 1 <= month < 12
    ensures DaysBeforeMonth(year, month + 1) == DaysBeforeMonth(year, month) + MonthDays(year, month)
  {
  }

  /** December ends the year. */
  lemma DecemberEndsYear(year: nat)
    ensures DaysBeforeYear(year + 1) == DaysBeforeYear(year) + DaysBeforeMonth(year, 12) + MonthDays(year, 12)
  {
    assert DaysBeforeYear(year + 1) == DaysBeforeYear(year) + YearLength(year);
  }

  /** The correction keeps a valid time valid and is exactly eight hours
      later on the calendar: it rolls over day, month and year just as the
      calendar does. */
  lemma Utc8IsEightHoursLater(t: Time)
    requires Valid(t)
    ensures Valid(Utc8(t))
    ensures Seconds(Utc8(t)) == Seconds(t) + UTC_OFFSET * 3600
  {
    var u := Utc8(t);
    if t.hour + UTC_OFFSET >= 24 {
      if t.day + 1 > MonthDays(t.year, t.month) {
        if t.month == 12 {
          DecemberEndsYear(t.year);
          assert DayNumber(u) == DayNumber(t) + 1;
        } else {
          DaysBeforeNextMonth(t.year, t.month);
          assert DayNumber(u) == DayNumber(t) + 1;
        }
      } else {
        assert DayNumber(u) == DayNumber(t) + 1;
      }
    } else {
      assert DayNumber(u) == DayNumber(t);
    }
  }

  /** The port writes of one read_cmos: select the register, then select
      0x80. */
  function SelectWrites(reg: Byte): seq<PortOut>
  {
    [Outb(CMOS_INDEX, reg), Outb(CMOS_INDEX, CMOS_NMI_OFF)]
  }

  /** read_cmos: the byte the RTC holds at `reg`, with its port writes
      appended to `ports`. */
  method ReadCmos(rtc: Byte -> Byte, reg: Byte, ports: seq<PortOut>) returns (data: Byte, ports': seq<PortOut>)
    ensures data == rtc(reg) && ports' == ports + SelectWrites(reg)
  {
    ports' := ports + [Outb(CMOS_INDEX, reg)];
    data := rtc(reg);
    ports' := ports' + [Outb(CMOS_INDEX, CMOS_NMI_OFF)];
  }

  /** The index writes of the seven reads of get_current_time, in its
      order: century, year, month, day, hour, minute, second. */
  function ReadWrites(): seq<PortOut>
  {
    SelectWrites(CMOS_CUR_CEN) + SelectWrites(CMOS_CUR_YEAR) + SelectWrites(CMOS_CUR_MON)
    + SelectWrites(CMOS_CUR_DAY) + SelectWrites(CMOS_CUR_HOUR) + SelectWrites(CMOS_CUR_MIN)
    + SelectWrites(CMOS_CUR_SEC)
  }

  /** The reading half of get_current_time, each register read once. */
  method ReadTime(rtc: Byte -> Byte) returns (t: Time, ports: seq<PortOut>)
    ensures t == RawTime(rtc) && ports == ReadWrites()
  {
    ports := [];
    var cen, yr, mon, dy, hr, mn, sc;
    cen, ports := ReadCmos(rtc, CMOS_CUR_CEN, ports);
    yr, ports := ReadCmos(rtc, CMOS_CUR_YEAR, ports);
    mon, ports := ReadCmos(rtc, CMOS_CUR_MON, ports);
    dy, ports := ReadCmos(rtc, CMOS_CUR_DAY, ports);
    hr, ports := ReadCmos(rtc, CMOS_CUR_HOUR, ports);
    mn, ports := ReadCmos(rtc, CMOS_CUR_MIN, ports);
    sc, ports := ReadCmos(rtc, CMOS_CUR_SEC, ports);
    t := Time(Bcd2Hex(cen) * 100 + Bcd2Hex(yr), Bcd2Hex(mon), Bcd2Hex(dy), Bcd2Hex(hr), Bcd2Hex(mn), Bcd2Hex(sc));
  }

  /** The correcting half of get_current_time, on its local month table
      and the fields of the result. */
  method CorrectUtc8(t: Time) returns (u: Time)
    requires 0 <= t.month <= 12
    ensures u == Utc8(t)
  {
    var year, month, day, hour := t.year, t.month, t.day, t.hour;
    var dayOfMonths := new int[13](i => if 0 <= i < 13 then MONTH_DAYS[i] else 0);
    if IsLeapYear(year) {
      dayOfMonths[2] := dayOfMonths[2] + 1;
    }
    assert dayOfMonths[month] == MonthDays(year, month);
    hour := hour + UTC_OFFSET;
    if hour >= 24 {
      hour := hour - 24;
      day := day + 1;
    }
    if day > dayOfMonths[month] {
      day := 1;
      month := month + 1;
    }
    if month > 12 {
      month := 1;
      year := year + 1;
    }
    u := Time(year, month, day, hour, t.min, t.sec);
  }

  /** get_current_time with each register read once: the decoded time,
      corrected to UTC+8, and the index writes of the seven reads. The
      month must index the 13-entry table. */
  method GetCurrentTime(rtc: Byte -> Byte) returns (t: Time, ports: seq<PortOut>)
    requires Bcd2Hex(rtc(CMOS_CUR_MON)) <= 12
    ensures t == Utc8(RawTime(rtc)) && ports == ReadWrites()
  {
    var raw;
    raw, ports := ReadTime(rtc);
    t := CorrectUtc8(raw);
  }

  /** bcd2hex as the macro expands around read_cmos: the argument is
      evaluated twice, so the tens come from one read of the register and
      the units from another. */
  function Bcd2HexTwice(first: Byte, second: Byte): nat
  {
    (first / 16) * 10 + second % 16
  }

  /** The time as the source reads it, with `first` and `second` the RTC
      contents at the two reads of each register. */
  function RawTimeAsWritten(first: Byte -> Byte, second: Byte -> Byte): Time
  {
    Time(Bcd2HexTwice(first(CMOS_CUR_CEN), second(CMOS_CUR_CEN)) * 100
           + Bcd2HexTwice(first(CMOS_CUR_YEAR), second(CMOS_CUR_YEAR)),
         Bcd2HexTwice(first(CMOS_CUR_MON), second(CMOS_CUR_MON)),
         Bcd2HexTwice(first(CMOS_CUR_DAY), second(CMOS_CUR_DAY)),
         Bcd2HexTwice(first(CMOS_CUR_HOUR), second(CMOS_CUR_HOUR)),
         Bcd2HexTwice(first(CMOS_CUR_MIN), second(CMOS_CUR_MIN)),
         Bcd2HexTwice(first(CMOS_CUR_SEC), second(CMOS_CUR_SEC)))
  }

  /** While the clock holds still between the two reads the source reads
      what a single read gives. */
  lemma RawTimeAgrees(rtc: Byte -> Byte)
    ensures RawTimeAsWritten(rtc, rtc) == RawTime(rtc)
  {
  }

  /** When the seconds register turns from 0x59 to 0x00 between the two
      reads the source reads 50 seconds (or 9, in the other evaluation
      order), a time the clock never showed; one read gives 59 or 0. */
  lemma TornSecondsAsWritten()
    ensures Bcd2HexTwice(0x59, 0x00) == 50 && Bcd2HexTwice(0x00, 0x59) == 9
    ensures Bcd2Hex(0x59) == 59 && Bcd2Hex(0x00) == 0
  {
  }
}
