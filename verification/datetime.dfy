/** Calendar time: seconds since 1900 to a date, counting on, printing and parsing. */
module DateTime {
  import opened Bytes

  const EPOCH_YEAR: nat := 1900
  const SECONDS_PER_DAY: nat := 86400
  const DAYS_PER_YEAR: nat := 365
  const FEBRUARY: nat := 2
  const ISO_LEN: nat := 20

  datatype Date = Date(year: nat, month: nat, day: nat, hours: nat, minutes: nat, seconds: nat)

  predicate IsLeapYear(year: nat) {
    year % 4 == 0 && (year % 100 == 0 ==> year % 400 == 0)
  }

  const DAYS_PER_MONTH: seq<nat> := [31, 28, 31, 30, 31, 30, 31, 31, 30, 31, 30, 31]

  function DaysIn(year: nat, month: nat): (r: nat)
    requires 1 <= month <= 12
    ensures 28 <= r <= 31
  {
    if month == FEBRUARY && IsLeapYear(year) then 29 else DAYS_PER_MONTH[month - 1]
  }

  predicate ValidFields(d: Date) {
    && 1 <= d.month <= 12 && 1 <= d.day <= DaysIn(d.year, d.month)
    && d.hours < 24 && d.minutes < 60 && d.seconds < 60
  }

  predicate ValidDate(d: Date) {
    EPOCH_YEAR <= d.year && ValidFields(d)
  }

  // ---- the independent meaning of a date: how many seconds came before it ----

  function YearDays(year: nat): nat { if IsLeapYear(year) then 366 else 365 }

  function DaysBeforeYear(year: nat): nat {
    if year <= EPOCH_YEAR then 0 else DaysBeforeYear(year - 1) + YearDays(year - 1)
  }

  function DaysBeforeMonth(year: nat, month: nat): nat
    requires 1 <= month <= 13
  {
    if month == 1 then 0 else DaysBeforeMonth(year, month - 1) + DaysIn(year, month - 1)
  }

  function DayNumber(d: Date): nat
    requires ValidDate(d)
  {
    DaysBeforeYear(d.year) + DaysBeforeMonth(d.year, d.month) + d.day - 1
  }

  function SecondsOf(d: Date): nat
    requires ValidDate(d)
  {
    DayNumber(d) * SECONDS_PER_DAY + d.hours * 3600 + d.minutes * 60 + d.seconds
  }

  lemma MonthsFillYear(year: nat)
    ensures DaysBeforeMonth(year, 13) == YearDays(year)
  {
    assert DaysBeforeMonth(year, 2) == 31;
    assert DaysBeforeMonth(year, 4) == 31 + DaysIn(year, 2) + 31;
    assert DaysBeforeMonth(year, 6) == DaysBeforeMonth(year, 4) + 61;
    assert DaysBeforeMonth(year, 8) == DaysBeforeMonth(year, 6) + 61;
    assert DaysBeforeMonth(year, 10) == DaysBeforeMonth(year, 8) + 61;
    assert DaysBeforeMonth(year, 12) == DaysBeforeMonth(year, 10) + 61;
  }

  lemma {:induction false} MonthsGrow(year: nat, a: nat, b: nat)
    requires 1 <= a < b <= 13
    ensures DaysBeforeMonth(year, a) + DaysIn(year, a) <= DaysBeforeMonth(year, b)
    decreases b
  {
    if a + 1 < b {
      MonthsGrow(year, a, b - 1);
    }
  }

  lemma {:induction false} YearsGrow(a: nat, b: nat)
    requires EPOCH_YEAR <= a < b
    ensures DaysBeforeYear(a) + YearDays(a) <= DaysBeforeYear(b)
    decreases b
  {
    if a + 1 < b {
      YearsGrow(a, b - 1);
    }
  }

  lemma DayOfYear(d: Date)
    requires ValidDate(d)
    ensures DaysBeforeYear(d.year) <= DayNumber(d) < DaysBeforeYear(d.year) + YearDays(d.year)
    ensures DaysBeforeMonth(d.year, d.month) <= DayNumber(d) - DaysBeforeYear(d.year)
            < DaysBeforeMonth(d.year, d.month) + DaysIn(d.year, d.month)
  {
    MonthsFillYear(d.year);
    MonthsGrow(d.year, d.month, 13);
  }

  lemma SameDay(a: Date, b: Date)
    requires ValidDate(a) && ValidDate(b) && DayNumber(a) == DayNumber(b)
    ensures a.year == b.year && a.month == b.month && a.day == b.day
  {
    DayOfYear(a);
    DayOfYear(b);
    if a.year < b.year {
      YearsGrow(a.year, b.year);
    } else if b.year < a.year {
      YearsGrow(b.year, a.year);
    } else if a.month < b.month {
      MonthsGrow(a.year, a.month, b.month);
    } else if b.month < a.month {
      MonthsGrow(a.year, b.month, a.month);
    }
  }

  /** A date is determined by its second count. */
  lemma SecondsDetermineDate(a: Date, b: Date)
    requires ValidDate(a) && ValidDate(b) && SecondsOf(a) == SecondsOf(b)
    ensures a == b
  {
    TimeOfDay(a);
    TimeOfDay(b);
    SameDay(a, b);
  }

  lemma TimeOfDay(d: Date)
    requires ValidDate(d)
    ensures SecondsOf(d) / SECONDS_PER_DAY == DayNumber(d)
    ensures var t := SecondsOf(d) % SECONDS_PER_DAY;
            t / 3600 == d.hours && t % 3600 / 60 == d.minutes && t % 60 == d.seconds
  {
    var t := d.hours * 3600 + d.minutes * 60 + d.seconds;
    DivMod(DayNumber(d), t);
  }

  lemma DivMod(days: nat, t: nat)
    requires t < SECONDS_PER_DAY
    ensures (days * SECONDS_PER_DAY + t) / SECONDS_PER_DAY == days
        && (days * SECONDS_PER_DAY + t) % SECONDS_PER_DAY == t
  {
  }

  // ---- the same by arithmetic ----

  /** Every fourth year but the centuries, of which every fourth. */
  function LeapDay(year: nat): (r: nat) {
    if year % 400 == 0 || (year % 4 == 0 && year % 100 != 0) then 1 else 0
  }

  /** Days from 1 January 1900 up to a date, without a table: years of 365 days and leap days; and from March on, months
      of 153 days in five. */
  function CivilDays(year: nat, month: nat, day: nat): int {
    365 * (year - 1900) + (year - 1) / 4 - (year - 1) / 100 + (year - 1) / 400 - 460
    + (if month == 1 then 0 else if month == 2 then 31 else (153 * (month - 3) + 2) / 5 + 59)
    + (if month > 2 then LeapDay(year) else 0) + day - 1
  }

  function CivilSeconds(d: Date): int {
    86400 * CivilDays(d.year, d.month, d.day) + 3600 * d.hours + 60 * d.minutes + d.seconds
  }

  predicate CivilDate(d: Date) {
    && 1900 <= d.year && 1 <= d.month <= 12 && 1 <= d.day <= 31
    && (d.month in {4, 6, 9, 11} ==> d.day <= 30) && (d.month == 2 ==> d.day <= 28 + LeapDay(d.year))
    && d.hours <= 23 && d.minutes <= 59 && d.seconds <= 59
  }

  lemma {:induction false} YearStart(year: nat)
    requires year >= 1900
    ensures DaysBeforeYear(year) == 365 * (year - 1900) + (year - 1) / 4 - (year - 1) / 100 + (year - 1) / 400 - 460
  {
    if year > 1900 {
      YearStart(year - 1);
      var y := year - 1;
      Multiples(y, 4);
      Multiples(y, 100);
      Multiples(y, 400);
      FourHundred(y);
    }
  }

  /** One more multiple of n is passed exactly at one. */
  lemma Multiples(y: nat, n: nat)
    requires y > 0 && n > 1
    ensures y / n == (y - 1) / n + if y % n == 0 then 1 else 0
  {
    var q, r := y / n, y % n;
    assert y == n * q + r;
    if r == 0 {
      assert y - 1 == n * (q - 1) + (n - 1);
      DivModUnique(y - 1, n, q - 1, n - 1);
    } else {
      DivModUnique(y - 1, n, q, r - 1);
    }
  }

  lemma FourHundred(y: nat)
    ensures y % 400 == 0 ==> y % 100 == 0
    ensures y % 100 == 0 ==> y % 4 == 0
  {
    if y % 400 == 0 {
      DivModUnique(y, 100, 4 * (y / 400), 0);
    }
    if y % 100 == 0 {
      DivModUnique(y, 4, 25 * (y / 100), 0);
    }
  }

  /** Days before month m of a common year. */
  function MonthDays(m: nat): nat
    requires m >= 1
  {
    if m == 1 then 0 else if m == 2 then 31 else (153 * (m - 3) + 2) / 5 + 59
  }

  lemma MonthLength(year: nat, month: nat)
    requires 1 <= month <= 12
    ensures DaysIn(year, month)
            == if month in {4, 6, 9, 11} then 30 else if month == 2 then 28 + LeapDay(year) else 31
  {
    FourHundred(year);
  }

  lemma {:induction false} MonthStart(year: nat, month: nat)
    requires 1 <= month <= 12
    ensures DaysBeforeMonth(year, month) == MonthDays(month) + if month > 2 then LeapDay(year) else 0
  {
    if month > 1 {
      MonthStart(year, month - 1);
      MonthLength(year, month - 1);
      MonthStep(month);
      hide LeapDay, DaysIn, MonthDays;
    }
  }

  lemma MonthStep(m: nat)
    requires 2 <= m <= 12
    ensures MonthDays(m) == MonthDays(m - 1) + if m - 1 in {4, 6, 9, 11} then 30 else if m == 3 then 28 else 31
  {
    assert MonthDays(3) == 59 && MonthDays(4) == 90 && MonthDays(5) == 120 && MonthDays(6) == 151;
    assert MonthDays(7) == 181 && MonthDays(8) == 212 && MonthDays(9) == 243 && MonthDays(10) == 273;
    assert MonthDays(11) == 304 && MonthDays(12) == 334;
  }

  /** The valid dates are those of the calendar, and their second count is the one it gives. */
  lemma CivilMeaning(d: Date)
    ensures ValidDate(d) <==> CivilDate(d)
    ensures ValidDate(d) ==> SecondsOf(d) == CivilSeconds(d)
  {
    if d.year >= 1900 && 1 <= d.month <= 12 {
      YearStart(d.year);
      MonthStart(d.year, d.month);
      MonthLength(d.year, d.month);
      hide DaysBeforeYear, DaysBeforeMonth, DaysIn, LeapDay;
    }
  }

  // ---- counting on ----

  /** The date one second later, carry by carry. */
  function Next(d: Date): Date
    requires ValidDate(d)
  {
    if d.seconds < 59 then d.(seconds := d.seconds + 1)
    else if d.minutes < 59 then d.(seconds := 0, minutes := d.minutes + 1)
    else if d.hours < 23 then d.(seconds := 0, minutes := 0, hours := d.hours + 1)
    else if d.day < DaysIn(d.year, d.month) then Date(d.year, d.month, d.day + 1, 0, 0, 0)
    else if d.month < 12 then Date(d.year, d.month + 1, 1, 0, 0, 0)
    else Date(d.year + 1, 1, 1, 0, 0, 0)
  }

  lemma NextSecond(d: Date)
    requires ValidDate(d)
    ensures ValidDate(Next(d)) && SecondsOf(Next(d)) == SecondsOf(d) + 1
  {
    if d.seconds == 59 && d.minutes == 59 && d.hours == 23 && d.day == DaysIn(d.year, d.month) && d.month == 12 {
      MonthsFillYear(d.year);
    }
  }

  lemma NextCivil(d: Date)
    requires ValidDate(d)
    ensures CivilDate(Next(d)) && CivilSeconds(Next(d)) == CivilSeconds(d) + 1
  {
    hide CivilDate, CivilSeconds, SecondsOf, Next;
    NextSecond(d);
    CivilMeaning(d);
    CivilMeaning(Next(d));
  }

  /** Converting s + 1 is converting s and counting one second on. */
  lemma ConvertNext(a: Date, b: Date)
    requires ValidDate(a) && ValidDate(b) && SecondsOf(b) == SecondsOf(a) + 1
    ensures b == Next(a)
  {
    NextSecond(a);
    SecondsDetermineDate(b, Next(a));
  }

  class Clock {
    var year: nat
    var month: nat
    var day: nat
    var hours: nat
    var minutes: nat
    var seconds: nat

    function Value(): Date
      reads this
    {
      Date(year, month, day, hours, minutes, seconds)
    }

    constructor GetEpoch()
      ensures Value() == Date(EPOCH_YEAR, 1, 1, 0, 0, 0) && ValidDate(Value())
    {
      year, month, day, hours, minutes, seconds := EPOCH_YEAR, 1, 1, 0, 0, 0;
    }

    method IncrementSeconds()
      requires ValidDate(Value()) && year < 65535
      modifies this
      ensures Value() == Next(old(Value())) && ValidDate(Value()) && SecondsOf(Value()) == SecondsOf(old(Value())) + 1
      ensures CivilDate(Value()) && CivilSeconds(Value()) == CivilSeconds(old(Value())) + 1
    {
      hide SecondsOf, CivilDate, CivilSeconds;
      NextSecond(Value());
      NextCivil(Value());
      seconds := seconds + 1;
      if seconds >= 60 {
        seconds := 0;
        minutes := minutes + 1;
        if minutes >= 60 {
          minutes := 0;
          hours := hours + 1;
          if hours >= 24 {
            hours := 0;
            day := day + 1;
            var daysPerMonth: nat;
            if !(month == FEBRUARY && IsLeapYear(year)) {
              daysPerMonth := DAYS_PER_MONTH[month - 1];
            } else {
              daysPerMonth := 29;
            }
            if day > daysPerMonth {
              day := 1;
              month := month + 1;
              if month > 12 {
                year := year + 1;
                month := 1;
              }
            }
          }
        }
      }
    }

    /** The date of a 32-bit second count; the 16-bit day counter never overflows on the way. */
    method FromSeconds(count: nat)
      requires count < 0x1_0000_0000
      modifies this
      ensures ValidDate(Value()) && SecondsOf(Value()) == count && year <= 2036
      ensures CivilDate(Value()) && CivilSeconds(Value()) == count
    {
      var days := count / SECONDS_PER_DAY;
      assert days <= 49710;
      var tempDays := FindYear(days);
      var dayOfYear := days - tempDays;
      var rest := count - tempDays * SECONDS_PER_DAY;
      var left := FindMonth(dayOfYear, rest);
      hours := left / 3600;
      left := left - hours * 3600;
      minutes := left / 60;
      left := left - minutes * 60;
      seconds := left;
      CivilMeaning(Value());
    }

    /** Step through the years until the day is passed, then back out of the last one. */
    method FindYear(days: nat) returns (tempDays: nat)
      requires days <= 49710
      modifies this`year
      ensures EPOCH_YEAR <= year <= 2036 && tempDays == DaysBeforeYear(year) <= days < tempDays + YearDays(year)
      ensures tempDays == 365 * (year - 1900) + (year - 1) / 4 - (year - 1) / 100 + (year - 1) / 400 - 460
    {
      year := EPOCH_YEAR - 1;
      tempDays := 0;
      while tempDays <= days
        invariant EPOCH_YEAR - 1 <= year
        invariant tempDays == DaysBeforeYear(year + 1)
        invariant year >= EPOCH_YEAR ==> DaysBeforeYear(year) <= days
        invariant year < EPOCH_YEAR ==> tempDays == 0
        decreases days + 1 - tempDays
      {
        year := year + 1;
        tempDays := tempDays + DAYS_PER_YEAR;
        if IsLeapYear(year) {
          tempDays := tempDays + 1;
        }
        assert tempDays < 65536;
      }
      YearBound(year);
      YearStart(year);
      tempDays := tempDays - DAYS_PER_YEAR;
      if IsLeapYear(year) {
        tempDays := tempDays - 1;
      }
    }

    method FindMonth(dayOfYear: nat, rest: nat) returns (left: nat)
      requires dayOfYear < YearDays(year) && dayOfYear * SECONDS_PER_DAY <= rest < (dayOfYear + 1) * SECONDS_PER_DAY
      modifies this`month, this`day
      ensures 1 <= month <= 12 && 1 <= day <= DaysIn(year, month)
      ensures DaysBeforeMonth(year, month) + day - 1 == dayOfYear
      ensures dayOfYear == day - 1 + (if month > 2 then LeapDay(year) else 0)
                           + if month == 1 then 0 else if month == 2 then 31 else (153 * (month - 3) + 2) / 5 + 59
      ensures day <= if month in {4, 6, 9, 11} then 30 else if month == 2 then 28 + LeapDay(year) else 31
      ensures left == rest - dayOfYear * SECONDS_PER_DAY
    {
      MonthsFillYear(year);
      var d, m := dayOfYear, 1;
      left := rest;
      while m <= 12
        invariant 1 <= m <= 13 && d + DaysBeforeMonth(year, m) == dayOfYear
        invariant left == rest - DaysBeforeMonth(year, m) * SECONDS_PER_DAY
      {
        var daysPerMonth := DAYS_PER_MONTH[m - 1];
        if m == FEBRUARY && IsLeapYear(year) {
          daysPerMonth := 29;
        }
        if d < daysPerMonth {
          month := m;
          day := d + 1;
          MonthStart(year, m);
          MonthLength(year, m);
          left := left - d * SECONDS_PER_DAY;
          return;
        }
        d := d - daysPerMonth;
        left := left - daysPerMonth * SECONDS_PER_DAY;
        m := m + 1;
      }
    }
  }

  lemma YearsOrdered(a: nat, b: nat)
    requires EPOCH_YEAR <= a
    ensures a <= b ==> DaysBeforeYear(a) <= DaysBeforeYear(b)
  {
    if a < b {
      YearsGrow(a, b);
    }
  }

  /** One leap day every four years from 1904 up to the end of the next century. */
  lemma {:induction false} TwoCenturies(year: nat)
    requires EPOCH_YEAR < year <= 2100
    ensures DaysBeforeYear(year) == DAYS_PER_YEAR * (year - EPOCH_YEAR) + (year - EPOCH_YEAR - 1) / 4
  {
    if year > EPOCH_YEAR + 1 {
      TwoCenturies(year - 1);
    } else {
      assert DaysBeforeYear(EPOCH_YEAR) == 0;
    }
  }

  /** The second count of 32 bits runs out in 2036. */
  lemma YearBound(year: nat)
    requires EPOCH_YEAR <= year && DaysBeforeYear(year) <= 49710
    ensures year <= 2036
  {
    TwoCenturies(2037);
    YearsOrdered(2037, year);
  }
}
