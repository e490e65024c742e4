/** The software clock: conversions by counting years and months, and the fields it updates every second. */
module SoftClock {
  import opened Calendar

  /** The length of a year's first months does not run past the year. */
  lemma MonthFits(month: nat, y: nat, days: nat)
    requires 1 <= month <= 12 && DaysToMonth(month, y) + days < YearDays(y)
    ensures days < MonthDays(month, y) || month < 12
  {
    MonthsFillYear(y);
    NextMonth(month, y);
  }

  /** Seconds since 2000, in 32 bits, for any fields whose months can be counted. */
  method DateTimeToEpoch(d: DateTime) returns (e: nat)
    requires d.month <= 13 && d.year < 256
    ensures e == Seconds(d) % WORD
    ensures ValidDate(d) ==> e == Epoch(d) % WORD
  {
    hide LeapDay, MonthDays;
    var days := 0;
    var fullYear := 2000 + d.year;
    var year := 2000;
    while year < fullYear
      invariant 2000 <= year <= fullYear && days == DaysToYear(year - 2000)
    {
      YearAfter(year - 2000);
      days := days + 365 + LeapDay(year);
      year := year + 1;
    }
    ghost var newYear := days;
    var m := 1;
    while m < d.month
      invariant 1 <= m && (m <= d.month || m == 1) && days == newYear + DaysToMonth(m, fullYear)
    {
      NextMonth(m, fullYear);
      days := days + MonthDays(m, fullYear);
      m := m + 1;
    }
    days := days + d.day - 1;
    e := (days * 86400 + d.hour * 3600 + d.minute * 60 + d.second) % WORD;
  }

  /** Takes whole years off a number of days. */
  method SplitYears(all: nat) returns (year: nat, days: nat)
    ensures year >= 2000 && DaysToYear(year - 2000) + days == all && days < YearDays(year)
  {
    hide LeapDay, DaysToYear;
    days, year := all, 2000;
    YearAfter(0);
    while true
      invariant year >= 2000 && DaysToYear(year - 2000) + days == all
      decreases days
    {
      YearAfter(year - 2000);
      var daysInYear := 365 + LeapDay(year);
      if days < daysInYear { break; }
      days := days - daysInYear;
      year := year + 1;
    }
  }

  /** Takes whole months off what is left; the search ends within the year. */
  method SplitMonths(year: nat, inYear: nat) returns (month: nat, days: nat)
    requires inYear < YearDays(year)
    ensures 1 <= month <= 12 && DaysToMonth(month, year) + days == inYear && days < MonthDays(month, year)
  {
    hide YearDays, MonthDays, DaysToMonth;
    days, month := inYear, 1;
    NewYear(year);
    while true
      invariant 1 <= month <= 12 && DaysToMonth(month, year) + days == inYear
      decreases days
    {
      var daysInMonth := MonthDays(month, year);
      if days < daysInMonth { break; }
      MonthFits(month, year, days);
      NextMonth(month, year);
      days := days - daysInMonth;
      month := month + 1;
    }
  }

  /** The one date with this number of seconds; its month is found within the year and its year fits a byte. */
  method EpochToDateTime(epoch: nat) returns (d: DateTime)
    requires epoch < WORD
    ensures ValidDate(d) && Epoch(d) == epoch && d.year < 256
    ensures forall other :: ValidDate(other) && Epoch(other) == epoch ==> d == other
  {
    hide MonthDays, DaysToYear, DaysToMonth, LeapDay;
    var days, remSeconds := epoch / 86400, epoch % 86400;
    var hour := remSeconds / 3600;
    remSeconds := remSeconds % 3600;
    var minute, second := remSeconds / 60, remSeconds % 60;
    var year, inYear := SplitYears(days);
    YearsGrow(0, year - 2000);
    var month, inMonth := SplitMonths(year, inYear);
    d := DateTime(inMonth + 1, month, year - 2000, hour, minute, second);
    assert ValidDate(d) && DayNumber(d) == days;
    OnlyDate(d);
  }

  lemma OnlyDate(d: DateTime)
    requires ValidDate(d)
    ensures forall other :: ValidDate(other) && Epoch(other) == Epoch(d) ==> d == other
  {
    hide Epoch;
    forall other | ValidDate(other) && Epoch(other) == Epoch(d) ensures d == other { EpochInjective(d, other); }
  }

  /** The Unix time the clock reports for a date, in 32 bits. */
  function Reported(d: DateTime): nat
    requires d.month <= 13
  {
    (Seconds(d) % WORD + UNIX_OFFSET) % WORD
  }

  lemma SameSeconds(d: DateTime)
    requires ValidDate(d)
    ensures Seconds(d) == Epoch(d)
  {
    hide DaysToYear, DaysToMonth, MonthDays;
  }

  lemma AddInWord(e: nat, u: nat)
    ensures (e % WORD + u) % WORD == (e + u) % WORD
  {
    var q, r := e / WORD, e % WORD;
    assert e + u == WORD * q + (r + u);
  }

  /** Dates before 2106 leave room in the word. */
  lemma BeforeOverflow(d: DateTime)
    requires ValidDate(d) && d.year < 106
    ensures Epoch(d) + 946684800 < WORD
  {
    hide DaysToYear, DayNumber, MonthDays;
    DayWithinYear(d);
    YearsGrow(d.year + 1, 106);
    YearFormula(106);
    assert DayNumber(d) < 38717;
  }

  /** That is Unix time: 2000 began 946684800 seconds into it. */
  lemma UnixTime(d: DateTime)
    requires ValidDate(d)
    ensures Reported(d) == (Epoch(d) + 946684800) % 0x1_0000_0000
    ensures d.year < 106 ==> Reported(d) == Epoch(d) + 946684800
  {
    hide Seconds, Epoch, MonthDays;
    SameSeconds(d);
    AddInWord(Epoch(d), UNIX_OFFSET);
    if d.year < 106 { BeforeOverflow(d); }
  }

  class Clock {
    var day: nat
    var month: nat
    var year: nat
    var hour: nat
    var minute: nat
    var second: nat
    var workDays: nat
    var workHours: nat
    var workMinutes: nat
    var workSeconds: nat

    function Rtc(): DateTime
      reads this
    {
      DateTime(day, month, year, hour, minute, second)
    }

    function WorkingTime(): Working
      reads this
    {
      Working(workDays, workHours, workMinutes, workSeconds)
    }

    ghost predicate Valid()
      reads this
    {
      && day < 256 && month < 256 && year < 256 && hour < 256 && minute < 256 && second < 256
      && ValidWorking(WorkingTime())
    }

    constructor ()
      ensures Valid() && Rtc() == DateTime(1, 10, 25, 23, 59, 0) && ValidDate(Rtc()) && Total(WorkingTime()) == 0
    {
      day, month, year, hour, minute, second := 1, 10, 25, 23, 59, 0;
      workDays, workHours, workMinutes, workSeconds := 0, 0, 0, 0;
    }

    /** Midnight: the next day, and with it perhaps the next month and year. */
    method TickDay()
      requires Valid() && 1 <= month <= 12
      modifies this`day, this`month, this`year
      ensures Valid() && Rtc() == NextDay(old(Rtc()))
    {
      hide MonthDays;
      day := (day + 1) % 256;
      var maxDays := MonthDays(month, 2000 + year);
      if day > maxDays {
        day := 1;
        month := (month + 1) % 256;
        if month > 12 {
          month := 1;
          year := (year + 1) % 256;
          if year > 99 { year := 0; }
        }
      }
    }

    /** The calendar's part of the update. Every field is a byte. */
    method TickCalendar()
      requires Valid() && Countable(Rtc())
      modifies this`day, this`month, this`year, this`hour, this`minute, this`second
      ensures Valid() && Rtc() == Ticked(old(Rtc()))
    {
      hide NextDay;
      second := (second + 1) % 256;
      if second >= 60 {
        second := 0;
        minute := (minute + 1) % 256;
        if minute >= 60 {
          minute := 0;
          hour := (hour + 1) % 256;
          if hour >= 24 {
            hour := 0;
            TickDay();
          }
        }
      }
    }

    method TickWorking()
      requires ValidWorking(WorkingTime())
      modifies this`workDays, this`workHours, this`workMinutes, this`workSeconds
      ensures WorkingTime() == Worked(old(WorkingTime())) && ValidWorking(WorkingTime())
    {
      workSeconds := workSeconds + 1;
      if workSeconds >= 60 {
        workSeconds := 0;
        workMinutes := workMinutes + 1;
        if workMinutes >= 60 {
          workMinutes := 0;
          workHours := workHours + 1;
          if workHours >= 24 {
            workHours := 0;
            workDays := workDays + 1;
          }
        }
      }
    }

    /** One second passes on the calendar and in the working time. */
    method Update()
      requires Valid() && Countable(Rtc())
      modifies this
      ensures Valid() && Rtc() == Ticked(old(Rtc())) && WorkingTime() == Worked(old(WorkingTime()))
      ensures old(ValidDate(Rtc())) ==>
              && ValidDate(Rtc())
              && Epoch(Rtc()) == if old(LastSecondOfYear(Rtc()) && year >= 99) then 0 else old(Epoch(Rtc())) + 1
    {
      hide Epoch, MonthDays, Ticked, Worked, Countable, ValidDate;
      if ValidDate(Rtc()) { TickedEpoch(Rtc()); }
      TickCalendar();
      TickWorking();
    }

    /** Takes over any date, sensible or not. */
    method SetRtc(d: DateTime)
      requires Valid() && d.day < 256 && d.month < 256 && d.year < 256
      requires d.hour < 256 && d.minute < 256 && d.second < 256
      modifies this
      ensures Valid() && Rtc() == d && WorkingTime() == old(WorkingTime())
    {
      day, month, year, hour, minute, second := d.day, d.month, d.year, d.hour, d.minute, d.second;
    }

    /** Sets the clock so that it reports this time; times before 2000 are ignored. */
    method SetEpoch(epoch: nat)
      requires Valid() && epoch < WORD
      modifies this
      ensures Valid() && WorkingTime() == old(WorkingTime())
      ensures if epoch < UNIX_OFFSET then Rtc() == old(Rtc())
              else ValidDate(Rtc()) && Epoch(Rtc()) == epoch - UNIX_OFFSET && Reported(Rtc()) == epoch
    {
      hide DaysToYear, DaysToMonth, MonthDays;
      if epoch < UNIX_OFFSET { return; }
      var d := EpochToDateTime(epoch - UNIX_OFFSET);
      SetRtc(d);
    }

    method GetEpoch() returns (epoch: nat)
      requires Valid() && month <= 13
      ensures epoch == Reported(Rtc())
    {
      var e := DateTimeToEpoch(Rtc());
      epoch := (e + UNIX_OFFSET) % WORD;
    }
  }
}
