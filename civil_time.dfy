/** Local wall-clock calendar arithmetic as the JavaScript `Date` object performs
    it: months are numbered 0..11, and a day or month outside its range rolls over
    into the neighbouring month or year (the MakeDay rule of the ECMAScript
    standard, section 21.4.1.28 of ECMA-262). Time zones and daylight saving are
    not modelled: a day always has 1440 minutes. */
module CivilTime {

  const MonthsPerYear := 12
  const MinutesPerDay := 24 * 60

  /** Gregorian leap-year rule. */
  predicate IsLeapYear(year: int) {
    (year % 4 == 0 && year % 100 != 0) || year % 400 == 0
  }

  /** Number of days in `month` (0 = January) of `year`. */
  function DaysInMonth(year: int, month: int): (n: int)
    requires 0 <= month < MonthsPerYear
    ensures 28 <= n <= 31
    ensures n == 29 <==> month == 1 && IsLeapYear(year)
    ensures n == 28 <==> month == 1 && !IsLeapYear(year)
  {
    if month == 1 then (if IsLeapYear(year) then 29 else 28)
    else if month == 3 || month == 5 || month == 8 || month == 10 then 30
    else 31
  }

  /** A calendar day with no time component. */
  datatype Date = Date(year: int, month: int, day: int) {
    predicate Valid() {
      0 <= month < MonthsPerYear && 1 <= day <= DaysInMonth(year, month)
    }
  }

  /** Calendar-day order: year, then month, then day. */
  predicate Before(a: Date, b: Date) {
    a.year < b.year
    || (a.year == b.year && (a.month < b.month || (a.month == b.month && a.day < b.day)))
  }

  predicate AtOrBefore(a: Date, b: Date) {
    Before(a, b) || a == b
  }

  /** A local wall-clock instant to the minute. Seconds and milliseconds are not
      represented (see README). */
  datatype Instant = Instant(date: Date, minute: int) {
    predicate Valid() {
      date.Valid() && 0 <= minute < MinutesPerDay
    }
  }

  predicate InstantBefore(a: Instant, b: Instant) {
    Before(a.date, b.date) || (a.date == b.date && a.minute < b.minute)
  }

  /** Months counted from year 0, January: the position of a month on the time line. */
  function MonthIndex(year: int, month: int): int {
    year * MonthsPerYear + month
  }

  /** The date that `new Date(year, month, day)` denotes: the month is first
      reduced into 0..11 (carrying whole years), then the day is taken as
      `day - 1` days after the first of that month, so that day 0 is the last day
      of the previous month and day 32 of a 31-day month is the 1st of the next. */
  function Normalize(year: int, month: int, day: int): (r: Date)
    ensures r.Valid()
    decreases if day < 1 then 1 - day else 0, if day < 1 then 0 else day
  {
    var y, m := year + month / MonthsPerYear, month % MonthsPerYear;
    if day < 1 then
      var py, pm := if m == 0 then y - 1 else y, if m == 0 then MonthsPerYear - 1 else m - 1;
      Normalize(py, pm, day + DaysInMonth(py, pm))
    else if day > DaysInMonth(y, m) then
      Normalize(y, m + 1, day - DaysInMonth(y, m))
    else
      Date(y, m, day)
  }

  /** A valid date is left alone by the roll-over. */
  lemma NormalizeValid(d: Date)
    requires d.Valid()
    ensures Normalize(d.year, d.month, d.day) == d
  {
  }

  /** The month reduction at the head of `Normalize`: it keeps the month's place
      on the time line. */
  lemma MonthReduction(year: int, month: int)
    ensures MonthIndex(year + month / MonthsPerYear, month % MonthsPerYear) == MonthIndex(year, month)
    ensures 0 <= month % MonthsPerYear < MonthsPerYear
  {
  }

  /** An in-range day of a month given by any month number lands in that month,
      reduced into 0..11. */
  lemma NormalizeInRange(year: int, month: int, day: int)
    requires 1 <= day <= DaysInMonth(year + month / MonthsPerYear, month % MonthsPerYear)
    ensures Normalize(year, month, day)
         == Date(year + month / MonthsPerYear, month % MonthsPerYear, day)
  {
  }

  /** Day 0 of the month after `month`: the last day of `month`
      (`new Date(y, m + 1, 0)`). */
  function EndOfMonth(year: int, month: int): (r: Date)
    requires 0 <= month < MonthsPerYear
    ensures r == Date(year, month, DaysInMonth(year, month))
  {
    var y, m := year + (month + 1) / MonthsPerYear, (month + 1) % MonthsPerYear;
    assert y == (if month == MonthsPerYear - 1 then year + 1 else year);
    assert m == (if month == MonthsPerYear - 1 then 0 else month + 1);
    Normalize(year, month + 1, 0)
  }

  /** `d` with `setDate(d.day + 1)`: the next calendar day. */
  function Next(d: Date): (r: Date)
    ensures r.Valid()
    ensures d.Valid() ==> Before(d, r)
    ensures d.Valid() && d.day < DaysInMonth(d.year, d.month) ==> r == Date(d.year, d.month, d.day + 1)
    ensures d.Valid() && d.day == DaysInMonth(d.year, d.month)
            ==> r.day == 1 && MonthIndex(r.year, r.month) == MonthIndex(d.year, d.month) + 1
  {
    if d.Valid() && d.day == DaysInMonth(d.year, d.month) then
      NormalizeInRange(d.year, d.month + 1, 1);
      MonthReduction(d.year, d.month + 1);
      Normalize(d.year, d.month, d.day + 1)
    else
      Normalize(d.year, d.month, d.day + 1)
  }

  /** `Next` is the immediate successor in calendar order: every valid date is
      before the day after `t` exactly when it is on or before `t`. */
  lemma {:induction false} NextIsSuccessor(t: Date, a: Date)
    requires t.Valid() && a.Valid()
    ensures Next(t).Valid() && Before(t, Next(t))
    ensures Before(a, Next(t)) <==> AtOrBefore(a, t)
  {
    var len := DaysInMonth(t.year, t.month);
    if t.day < len {
      assert Next(t) == Date(t.year, t.month, t.day + 1);
    } else if t.month < MonthsPerYear - 1 {
      calc {
        Next(t);
        Normalize(t.year, t.month + 1, 1);
        { NormalizeInRange(t.year, t.month + 1, 1); }
        Date(t.year, t.month + 1, 1);
      }
    } else {
      calc {
        Next(t);
        Normalize(t.year, MonthsPerYear, 1);
        { NormalizeInRange(t.year, MonthsPerYear, 1); }
        Date(t.year + 1, 0, 1);
      }
    }
  }

  /** The day after the day after `t` is the first valid date strictly after
      `Next(t)`. */
  lemma DayAfterNext(t: Date, a: Date)
    requires t.Valid() && a.Valid()
    ensures Before(Next(t), a) <==> AtOrBefore(Next(Next(t)), a)
  {
    NextIsSuccessor(t, a);
    NextIsSuccessor(Next(t), a);
  }

  /** `d.setMonth(d.month + delta)`: the month moves, the day of the month is
      kept, and a day the target month lacks rolls over into the month after. */
  function ShiftMonth(d: Date, delta: int): (r: Date)
    ensures r.Valid()
    ensures d.Valid() && d.day <= 28
            ==> r.day == d.day && MonthIndex(r.year, r.month) == MonthIndex(d.year, d.month) + delta
  {
    if d.Valid() && d.day <= 28 then
      MonthReduction(d.year, d.month + delta);
      NormalizeInRange(d.year, d.month + delta, d.day);
      Normalize(d.year, d.month + delta, d.day)
    else
      Normalize(d.year, d.month + delta, d.day)
  }

  /** Where `ShiftMonth` lands, measured on the month time line: `delta` months on
      when the target month has the day, otherwise one month further, on day
      `d.day - length of the target month` (at most the 3rd). */
  lemma ShiftMonthLands(d: Date, delta: int)
    requires d.Valid()
    ensures var target := MonthIndex(d.year, d.month) + delta;
            var len := DaysInMonth(target / MonthsPerYear, target % MonthsPerYear);
            var r := ShiftMonth(d, delta);
            r.Valid()
            && (d.day <= len ==> MonthIndex(r.year, r.month) == target && r.day == d.day)
            && (d.day > len ==> MonthIndex(r.year, r.month) == target + 1
                                && r.day == d.day - len && 1 <= r.day <= 3)
  {
    var target := MonthIndex(d.year, d.month) + delta;
    var y, m := d.year + (d.month + delta) / MonthsPerYear, (d.month + delta) % MonthsPerYear;
    MonthReduction(d.year, d.month + delta);
    assert MonthIndex(y, m) == target;
    assert y == target / MonthsPerYear && m == target % MonthsPerYear;
    var len := DaysInMonth(y, m);
    if d.day <= len {
      NormalizeInRange(d.year, d.month + delta, d.day);
    } else {
      assert ShiftMonth(d, delta) == Normalize(y, m + 1, d.day - len);
      NormalizeInRange(y, m + 1, d.day - len);
      MonthReduction(y, m + 1);
    }
  }
}
