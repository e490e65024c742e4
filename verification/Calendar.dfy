/** Dates since 2000 and the seconds they stand for. */
module Calendar {
  const WORD := 0x1_0000_0000
  const CENTURY := 3155760000
  const UNIX_OFFSET := 946684800

  /** The year counts from 2000. */
  datatype DateTime = DateTime(day: nat, month: nat, year: nat, hour: nat, minute: nat, second: nat)

  function LeapDay(fullYear: nat): (r: nat)
    ensures r <= 1
  {
    if fullYear % 4 == 0 && (fullYear % 100 != 0 || fullYear % 400 == 0) then 1 else 0
  }

  function YearDays(fullYear: nat): nat { 365 + LeapDay(fullYear) }

  function MonthDays(month: nat, fullYear: nat): (r: nat)
    requires 1 <= month <= 12
    ensures 28 <= r <= 31
  {
    if month == 2 then 28 + LeapDay(fullYear) else [31, 28, 31, 30, 31, 30, 31, 31, 30, 31, 30, 31][month - 1]
  }

  predicate ValidDate(d: DateTime) {
    && 1 <= d.month <= 12 && 1 <= d.day <= MonthDays(d.month, 2000 + d.year)
    && d.hour < 24 && d.minute < 60 && d.second < 60
  }

  /** Days from 2000 to the start of a year. */
  function DaysToYear(year: nat): nat { if year == 0 then 0 else DaysToYear(year - 1) + YearDays(2000 + year - 1) }

  /** Days from New Year to the start of a month; month 13 is the end of the year. */
  function DaysToMonth(month: nat, fullYear: nat): nat
    requires 1 <= month <= 13
  {
    if month == 1 then 0 else DaysToMonth(month - 1, fullYear) + MonthDays(month - 1, fullYear)
  }

  function DayNumber(d: DateTime): nat
    requires ValidDate(d)
  {
    DaysToYear(d.year) + DaysToMonth(d.month, 2000 + d.year) + d.day - 1
  }

  function Epoch(d: DateTime): nat
    requires ValidDate(d)
  {
    DayNumber(d) * 86400 + d.hour * 3600 + d.minute * 60 + d.second
  }

  /** The same arithmetic on any fields at all. Only a month past 13 has none. */
  function Seconds(d: DateTime): int
    requires d.month <= 13
  {
    var days := DaysToYear(d.year) + DaysToMonth(if d.month == 0 then 1 else d.month, 2000 + d.year) + d.day - 1;
    days * 86400 + d.hour * 3600 + d.minute * 60 + d.second
  }

  // ---- The calendar's arithmetic.

  lemma MonthsFillYear(y: nat)
    ensures DaysToMonth(13, y) == YearDays(y)
  {
    assert DaysToMonth(2, y) == 31;
    assert DaysToMonth(3, y) == 59 + LeapDay(y);
    assert DaysToMonth(5, y) == 120 + LeapDay(y);
    assert DaysToMonth(7, y) == 181 + LeapDay(y);
    assert DaysToMonth(9, y) == 243 + LeapDay(y);
    assert DaysToMonth(11, y) == 304 + LeapDay(y);
  }

  // ---- Closed forms.

  /** From March on the months follow the rule of 153 days in five of them. */
  lemma MonthFormula(m: nat, y: nat)
    requires 1 <= m <= 13
    ensures DaysToMonth(m, y) ==
            if m == 1 then 0 else if m == 2 then 31 else 59 + LeapDay(y) + (153 * (m - 3) + 2) / 5
  {
    assert DaysToMonth(2, y) == 31;
    assert DaysToMonth(4, y) == 90 + LeapDay(y);
    assert DaysToMonth(6, y) == 151 + LeapDay(y);
    assert DaysToMonth(8, y) == 212 + LeapDay(y);
    assert DaysToMonth(10, y) == 273 + LeapDay(y);
    assert DaysToMonth(12, y) == 334 + LeapDay(y);
  }

  lemma Of100(y: nat)
    ensures y % 100 == 0 ==> y % 4 == 0
  {
    var q, r := y / 100, y % 100;
    assert y == 4 * (25 * q) + r;
    assert y % 4 == r % 4;
  }

  lemma Of400(y: nat)
    ensures y % 400 == 0 ==> y % 100 == 0
  {
    var q, r := y / 400, y % 400;
    assert y == 100 * (4 * q) + r;
    assert y % 100 == r % 100;
  }

  function Multiple(y: nat, n: nat): nat
    requires n > 0
  {
    if y % n == 0 then 1 else 0
  }

  lemma LeapCount(y: nat)
    ensures LeapDay(y) == Multiple(y, 4) - Multiple(y, 100) + Multiple(y, 400)
  {
    Of100(y);
    Of400(y);
  }

  /** How many multiples of n there are below a number. */
  function Below(year: nat, n: nat): nat
    requires n > 0
  {
    (year + n - 1) / n
  }

  lemma BelowNext4(year: nat)
    ensures Below(0, 4) == 0 && Below(year + 1, 4) == Below(year, 4) + Multiple(2000 + year, 4)
  {}

  lemma BelowNext100(year: nat)
    ensures Below(0, 100) == 0 && Below(year + 1, 100) == Below(year, 100) + Multiple(2000 + year, 100)
  {}

  lemma BelowNext400(year: nat)
    ensures Below(0, 400) == 0 && Below(year + 1, 400) == Below(year, 400) + Multiple(2000 + year, 400)
  {}

  lemma {:induction false} YearCount(year: nat)
    ensures DaysToYear(year) == 365 * year + Below(year, 4) - Below(year, 100) + Below(year, 400)
  {
    hide LeapDay, Below, Multiple;
    BelowNext4(0);
    BelowNext100(0);
    BelowNext400(0);
    if year == 0 {
    } else {
      hide DaysToYear;
      YearAfter(year - 1);
      YearCount(year - 1);
      LeapCount(2000 + year - 1);
      BelowNext4(year - 1);
      BelowNext100(year - 1);
      BelowNext400(year - 1);
    }
  }

  /** Every fourth year is a leap year, but of the full centuries only every fourth. */
  lemma YearFormula(year: nat)
    ensures DaysToYear(year) == 365 * year + (year + 3) / 4 - (year + 99) / 100 + (year + 399) / 400
  {
    hide DaysToYear;
    YearCount(year);
  }

  /** The seconds since 2000 of any date of the Gregorian calendar, and what the same arithmetic makes of any other fields;
      month 0 counts like month 1. */
  lemma EpochFormula(d: DateTime)
    requires d.month <= 13
    ensures var y := 2000 + d.year;
            var leap := if y % 4 == 0 && (y % 100 != 0 || y % 400 == 0) then 1 else 0;
            var years := 365 * d.year + (d.year + 3) / 4 - (d.year + 99) / 100 + (d.year + 399) / 400;
            var months :=
              if d.month <= 1 then 0 else if d.month == 2 then 31 else 59 + leap + (153 * (d.month - 3) + 2) / 5;
            Seconds(d) == (years + months + d.day - 1) * 86400 + d.hour * 3600 + d.minute * 60 + d.second
    ensures ValidDate(d) ==> Epoch(d) == Seconds(d)
  {
    hide DaysToYear, DaysToMonth, MonthDays;
    YearFormula(d.year);
    MonthFormula(if d.month == 0 then 1 else d.month, 2000 + d.year);
  }

  lemma {:induction false} MonthsGrow(a: nat, b: nat, y: nat)
    requires 1 <= a <= b <= 13
    ensures DaysToMonth(a, y) <= DaysToMonth(b, y)
  {
    if a == b {
    } else {
      MonthsGrow(a, b - 1, y);
    }
  }

  lemma {:induction false} YearsGrow(a: nat, b: nat)
    requires a <= b
    ensures DaysToYear(a) + 365 * (b - a) <= DaysToYear(b)
  {
    if a == b {
    } else {
      YearsGrow(a, b - 1);
    }
  }

  lemma LeapThisCentury(j: nat)
    requires j < 100
    ensures LeapDay(2000 + j) == if j % 4 == 0 then 1 else 0
  {}

  lemma FourMore(j: nat)
    requires j < 97 && j % 4 == 0
    ensures DaysToYear(j + 4) == DaysToYear(j) + 1461
  {
    hide DaysToYear;
    for i := j to j + 4
      invariant DaysToYear(i) == DaysToYear(j) + 365 * (i - j) + if i == j then 0 else 1
    {
      YearAfter(i);
      LeapThisCentury(i);
    }
  }

  lemma {:induction false} FourYears(k: nat)
    requires k <= 25
    ensures DaysToYear(4 * k) == 1461 * k
  {
    if k == 0 {
    } else {
      hide DaysToYear;
      FourYears(k - 1);
      FourMore(4 * (k - 1));
      assert 4 * (k - 1) + 4 == 4 * k;
    }
  }

  /** A day falls within its year. */
  lemma DayWithinYear(d: DateTime)
    requires ValidDate(d)
    ensures DaysToYear(d.year) <= DayNumber(d) < DaysToYear(d.year + 1)
  {
    MonthsFillYear(2000 + d.year);
    MonthsGrow(d.month + 1, 13, 2000 + d.year);
  }

  lemma Earlier(a: DateTime, b: DateTime)
    requires ValidDate(a) && ValidDate(b)
    requires a.year < b.year || (a.year == b.year && a.month < b.month)
    ensures DayNumber(a) < DayNumber(b)
  {
    hide DaysToYear, DaysToMonth;
    DayWithinYear(a);
    DayWithinYear(b);
    if a.year < b.year {
      YearsGrow(a.year + 1, b.year);
    } else {
      MonthsGrow(a.month + 1, b.month, 2000 + a.year);
      NextMonth(a.month, 2000 + a.year);
    }
  }

  lemma NextMonth(m: nat, y: nat)
    requires 1 <= m <= 12
    ensures DaysToMonth(m + 1, y) == DaysToMonth(m, y) + MonthDays(m, y)
  {}

  lemma SplitTime(d: DateTime)
    requires ValidDate(d)
    ensures Epoch(d) / 86400 == DayNumber(d)
    ensures Epoch(d) % 86400 == d.hour * 3600 + d.minute * 60 + d.second
  {
    hide DayNumber;
  }

  lemma SameClock(h: nat, m: nat, s: nat, h': nat, m': nat, s': nat)
    requires m < 60 && s < 60 && m' < 60 && s' < 60 && h * 3600 + m * 60 + s == h' * 3600 + m' * 60 + s'
    ensures h == h' && m == m' && s == s'
  {}

  /** Different dates are different numbers of seconds: with Epoch inverted by the conversion below, a calendar round
      trip in either direction is the identity. */
  lemma EpochInjective(a: DateTime, b: DateTime)
    requires ValidDate(a) && ValidDate(b) && Epoch(a) == Epoch(b)
    ensures a == b
  {
    hide DayNumber, Epoch;
    SplitTime(a);
    SplitTime(b);
    if a.year < b.year || (a.year == b.year && a.month < b.month) { Earlier(a, b); }
    if b.year < a.year || (a.year == b.year && b.month < a.month) { Earlier(b, a); }
    SameDay(a, b);
    SameClock(a.hour, a.minute, a.second, b.hour, b.minute, b.second);
  }

  lemma SameDay(a: DateTime, b: DateTime)
    requires ValidDate(a) && ValidDate(b) && DayNumber(a) == DayNumber(b) && a.year == b.year && a.month == b.month
    ensures a.day == b.day
  {}

  /** Dates up to 2099 are the numbers below a century of seconds. */
  lemma CenturyBound(d: DateTime)
    requires ValidDate(d)
    ensures d.year <= 99 <==> Epoch(d) < CENTURY
  {
    hide DaysToYear, DayNumber;
    FourYears(25);
    DayWithinYear(d);
    if d.year <= 99 { YearsGrow(d.year + 1, 100); } else { YearsGrow(100, d.year); }
  }

  // ---- One second later.

  function NextYear(d: DateTime): DateTime {
    d.(day := 1, month := 1, year := if d.year >= 99 then 0 else d.year + 1)
  }

  function NextDay(d: DateTime): DateTime
    requires 1 <= d.month <= 12
  {
    if (d.day + 1) % 256 <= MonthDays(d.month, 2000 + d.year) then d.(day := (d.day + 1) % 256)
    else if d.month + 1 <= 12 then d.(day := 1, month := d.month + 1)
    else NextYear(d)
  }

  /** The fields are bytes, so one past 255 is 0. */
  predicate Over(n: nat, limit: nat) { (n + 1) % 256 >= limit }

  predicate DayEnds(d: DateTime) { Over(d.second, 60) && Over(d.minute, 60) && Over(d.hour, 24) }

  /** Only at the end of a day does the month matter. */
  predicate Countable(d: DateTime) { DayEnds(d) ==> 1 <= d.month <= 12 }

  function Ticked(d: DateTime): DateTime
    requires Countable(d)
  {
    if !Over(d.second, 60) then d.(second := (d.second + 1) % 256)
    else if !Over(d.minute, 60) then d.(second := 0, minute := (d.minute + 1) % 256)
    else if !Over(d.hour, 24) then d.(second := 0, minute := 0, hour := (d.hour + 1) % 256)
    else NextDay(d.(second := 0, minute := 0, hour := 0))
  }

  /** What a tick makes of values no date has: 255 starts again from 0 without a carry, and the others carry like the last
      value of a date. */
  lemma OddValues(d: DateTime)
    requires Countable(d) && d.second < 256 && d.minute < 256 && d.hour < 256
    ensures d.second == 255 ==> Ticked(d) == d.(second := 0)
    ensures 59 <= d.second < 255 && d.minute == 255 ==> Ticked(d) == d.(second := 0, minute := 0)
    ensures 59 <= d.second < 255 && 59 <= d.minute < 255 && d.hour == 255 ==>
            Ticked(d) == d.(second := 0, minute := 0, hour := 0)
    ensures 59 <= d.second < 255 && 59 <= d.minute < 255 && 23 <= d.hour < 255 ==>
            Ticked(d) == NextDay(d.(second := 0, minute := 0, hour := 0))
    ensures 1 <= d.month <= 12 && d.day == 255 ==> NextDay(d) == d.(day := 0)
    ensures 1 <= d.month < 12 && 31 <= d.day < 255 ==> NextDay(d) == d.(day := 1, month := d.month + 1)
  {}

  predicate LastSecondOfYear(d: DateTime) {
    d.month == 12 && d.day == 31 && d.hour == 23 && d.minute == 59 && d.second == 59
  }

  lemma NextDayNumber(d: DateTime)
    requires ValidDate(d)
    ensures ValidDate(NextDay(d))
    ensures DayNumber(NextDay(d)) == if d.month == 12 && d.day == 31 && d.year >= 99 then 0 else DayNumber(d) + 1
  {
    hide DaysToYear, DaysToMonth;
    NextMonth(d.month, 2000 + d.year);
    MonthsFillYear(2000 + d.year);
    NewYear(2000 + d.year);
    NewYear(2000);
    NewYear(2000 + d.year + 1);
    YearAfter(d.year);
  }

  lemma NewYear(y: nat)
    ensures DaysToMonth(1, y) == 0
  {}

  lemma YearAfter(year: nat)
    ensures DaysToYear(0) == 0 && DaysToYear(year + 1) == DaysToYear(year) + YearDays(2000 + year)
  {}

  /** A tick is one second, except that the last second of 2099 or of any later year is followed by 2000. */
  lemma TickedEpoch(d: DateTime)
    requires ValidDate(d)
    ensures ValidDate(Ticked(d))
    ensures Epoch(Ticked(d)) == if LastSecondOfYear(d) && d.year >= 99 then 0 else Epoch(d) + 1
  {
    hide DayNumber, MonthDays, NextDay;
    if d.second == 59 && d.minute == 59 && d.hour == 23 {
      DayOnly(d);
      NextDayNumber(d.(second := 0, minute := 0, hour := 0));
      NextDayKeepsTime(d.(second := 0, minute := 0, hour := 0));
    } else {
      DayOnly(d);
      DayOnly(Ticked(d));
    }
  }

  lemma NextDayKeepsTime(d: DateTime)
    requires 1 <= d.month <= 12
    ensures var n := NextDay(d); n.hour == d.hour && n.minute == d.minute && n.second == d.second
  {}

  /** The day number does not depend on the time of day. */
  lemma DayOnly(d: DateTime)
    requires ValidDate(d)
    ensures DayNumber(d) == DayNumber(d.(second := 0, minute := 0, hour := 0))
  {
    hide MonthDays, DaysToYear, DaysToMonth;
  }

  function TickedTimes(d: DateTime, n: nat): DateTime
    requires ValidDate(d)
    decreases n
  {
    if n == 0 then d else TickedEpoch(d); TickedTimes(Ticked(d), n - 1)
  }

  /** From any date in 2000 to 2099 the clock counts seconds modulo the century. */
  lemma {:induction false} CountsSeconds(d: DateTime, n: nat)
    requires ValidDate(d) && d.year <= 99
    ensures var r := TickedTimes(d, n); ValidDate(r) && r.year <= 99 && Epoch(r) == (Epoch(d) + n) % CENTURY
    decreases n
  {
    hide Epoch, Ticked;
    CenturyBound(d);
    if n == 0 {
    } else {
      TickedEpoch(d);
      LastSecond(d);
      CenturyBound(Ticked(d));
      CountsSeconds(Ticked(d), n - 1);
      ModNext(Epoch(d), n);
    }
  }

  lemma ModNext(e: nat, n: nat)
    requires e < CENTURY && n > 0
    ensures (e + n) % CENTURY == ((if e + 1 == CENTURY then 0 else e + 1) + n - 1) % CENTURY
  {}

  /** The last second of 2099 is the last of the century. */
  lemma LastSecond(d: DateTime)
    requires ValidDate(d) && d.year <= 99
    ensures LastSecondOfYear(d) && d.year == 99 <==> Epoch(d) + 1 == CENTURY
  {
    hide Epoch, DaysToYear, DaysToMonth;
    var last := DateTime(31, 12, 99, 23, 59, 59);
    assert Epoch(last) + 1 == CENTURY by { LastEpoch(); }
    if Epoch(d) + 1 == CENTURY { EpochInjective(d, last); }
  }

  lemma LastEpoch()
    ensures Epoch(DateTime(31, 12, 99, 23, 59, 59)) + 1 == CENTURY
  {
    hide DaysToYear, DaysToMonth;
    FourYears(25);
    YearAfter(99);
    MonthsFillYear(2099);
    NextMonth(12, 2099);
  }

  // ---- Working time.

  datatype Working = Working(days: nat, hours: nat, minutes: nat, seconds: nat)

  predicate ValidWorking(w: Working) { w.hours < 24 && w.minutes < 60 && w.seconds < 60 }

  function Total(w: Working): nat { w.days * 86400 + w.hours * 3600 + w.minutes * 60 + w.seconds }

  function Worked(w: Working): Working {
    if w.seconds + 1 < 60 then w.(seconds := w.seconds + 1)
    else if w.minutes + 1 < 60 then w.(seconds := 0, minutes := w.minutes + 1)
    else if w.hours + 1 < 24 then w.(seconds := 0, minutes := 0, hours := w.hours + 1)
    else Working(w.days + 1, 0, 0, 0)
  }

  function WorkedTimes(w: Working, n: nat): Working
    decreases n
  {
    if n == 0 then w else WorkedTimes(Worked(w), n - 1)
  }

  /** The working time counts every second. */
  lemma {:induction false} WorkingTotals(w: Working, n: nat)
    requires ValidWorking(w)
    ensures ValidWorking(WorkedTimes(w, n)) && Total(WorkedTimes(w, n)) == Total(w) + n
    decreases n
  {
    if n == 0 {
    } else {
      WorkingTotals(Worked(w), n - 1);
    }
  }
}
