/** The pickup date/time picker: the `Calendar` component (the displayed month,
    its day grid, month navigation, which days are disabled and which is
    highlighted) and the `TimePicker` component (the 15-minute slots offered for
    the selected day). The clock is the parameter `now`. */
module DateTimeModal {
  import opened Wrappers
  import opened CivilTime

  /** Hour from which same-day booking is closed in the calendar. */
  const CutoffMinute := 16 * 60
  /** First and last slot of a non-today day: 06:00 and 20:00. */
  const OpeningMinute := 6 * 60
  const ClosingMinute := 20 * 60
  const SlotMinutes := 15
  /** Minimum lead time for a same-day pickup: four hours. */
  const LeadMinutes := 4 * 60

  // ----------------------------------------------------------------------------
  // Calendar

  /** The days listed for the month of `year`/`month`: 1, 2, ..., last day. */
  function MonthGrid(year: int, month: int): (g: seq<Date>)
    requires 0 <= month < MonthsPerYear
    ensures |g| == DaysInMonth(year, month)
    ensures forall i :: 0 <= i < |g| ==>
              g[i].Valid() && g[i].year == year && g[i].month == month && g[i].day == i + 1
  {
    seq(DaysInMonth(year, month), i => Date(year, month, i + 1))
  }

  /** The grid lists every day of the month exactly once, in ascending order,
      and nothing else. */
  lemma MonthGridListsTheMonth(year: int, month: int, d: Date)
    requires 0 <= month < MonthsPerYear
    ensures var g := MonthGrid(year, month);
            && |g| == DaysInMonth(year, month)
            && (forall i :: 0 <= i < |g| ==> g[i].Valid() && g[i].day == i + 1)
            && (forall i, j :: 0 <= i < j < |g| ==> Before(g[i], g[j]))
            && (d in g <==> d.Valid() && d.year == year && d.month == month)
  {
    var g := MonthGrid(year, month);
    if d.Valid() && d.year == year && d.month == month {
      assert g[d.day - 1] == d;
    }
  }

  /** The displayed month, held as a full date because `setMonth` keeps its day. */
  class Calendar {
    var currentMonth: Date

    predicate Valid()
      reads this
    {
      currentMonth.Valid()
    }

    /** `useState(new Date())`: the calendar opens on today. */
    constructor (today: Date)
      requires today.Valid()
      ensures Valid() && currentMonth == today
    {
      currentMonth := today;
    }

    /** The `for` loop that pushes one date per day of the displayed month, up to
        the day of `new Date(year, month + 1, 0)`. */
    method Dates() returns (dates: seq<Date>)
      requires Valid()
      ensures dates == MonthGrid(currentMonth.year, currentMonth.month)
      ensures |dates| == DaysInMonth(currentMonth.year, currentMonth.month)
      ensures forall i :: 0 <= i < |dates| ==> dates[i].Valid() && dates[i].day == i + 1
    {
      var year, month := currentMonth.year, currentMonth.month;
      var endOfMonth := EndOfMonth(year, month);
      dates := [];
      for i := 1 to endOfMonth.day + 1
        invariant |dates| == i - 1
        invariant forall k :: 0 <= k < |dates| ==> dates[k] == Date(year, month, k + 1)
      {
        NormalizeValid(Date(year, month, i));
        dates := dates + [Normalize(year, month, i)];
      }
    }

    /** The "previous month" button: `setMonth(getMonth() - 1)`. */
    method PreviousMonth()
      requires Valid()
      modifies this
      ensures Valid() && currentMonth == ShiftMonth(old(currentMonth), -1)
    {
      ShiftMonthLands(currentMonth, -1);
      currentMonth := ShiftMonth(currentMonth, -1);
    }

    /** The "next month" button: `setMonth(getMonth() + 1)`. */
    method NextMonth()
      requires Valid()
      modifies this
      ensures Valid() && currentMonth == ShiftMonth(old(currentMonth), 1)
    {
      ShiftMonthLands(currentMonth, 1);
      currentMonth := ShiftMonth(currentMonth, 1);
    }
  }

  /** As written, "previous month" from a day that the previous month does not
      have (the 29th to 31st) rolls back over into the displayed month, so the
      display does not move. */
  lemma PreviousMonthCanStay(d: Date)
    requires d.Valid()
    requires var p := MonthIndex(d.year, d.month) - 1;
             d.day > DaysInMonth(p / MonthsPerYear, p % MonthsPerYear)
    ensures var r := ShiftMonth(d, -1);
            MonthIndex(r.year, r.month) == MonthIndex(d.year, d.month)
  {
    ShiftMonthLands(d, -1);
  }

  /** On March 31st "previous month" shows March again (Feb 31st is March 3rd)... */
  lemma PreviousFromMarch31()
    ensures ShiftMonth(Date(2025, 2, 31), -1) == Date(2025, 2, 3)
  {
  }

  /** ...and on January 31st "next month" skips February. */
  lemma NextFromJanuary31()
    ensures ShiftMonth(Date(2025, 0, 31), 1) == Date(2025, 2, 3)
  {
  }

  /** Month navigation as intended: move to the first day of the month `delta`
      months away, so the displayed month changes by exactly `delta`. */
  function ShiftDisplayedMonth(d: Date, delta: int): (r: Date)
    ensures r.Valid() && r.day == 1
    ensures MonthIndex(r.year, r.month) == MonthIndex(d.year, d.month) + delta
  {
    MonthReduction(d.year, d.month + delta);
    NormalizeInRange(d.year, d.month + delta, 1);
    Normalize(d.year, d.month + delta, 1)
  }

  /** `isPast`: whether the chip for `date` (midnight of that day) is disabled.
      From 16:00 on it is compared with `tomorrow`, which keeps the current clock
      time; before 16:00 with today's midnight. */
  predicate IsPast(date: Date, now: Instant)
    ensures now.Valid() && Before(date, now.date) ==> IsPast(date, now)
    ensures now.Valid() && Before(Next(now.date), date) ==> !IsPast(date, now)
  {
    if now.minute >= CutoffMinute then
      InstantBefore(Instant(date, 0), Instant(Next(now.date), now.minute))
    else
      InstantBefore(Instant(date, 0), Instant(now.date, 0))
  }

  /** Before 16:00 exactly the days before today are disabled; today is selectable. */
  lemma IsPastBeforeCutoff(date: Date, now: Instant)
    requires now.Valid() && now.minute < CutoffMinute
    ensures IsPast(date, now) <==> Before(date, now.date)
    ensures !IsPast(now.date, now)
  {
  }

  /** From 16:00 on the days up to and including tomorrow are disabled, because
      `tomorrow` carries the clock time and so lies after tomorrow's midnight. */
  lemma IsPastAfterCutoff(date: Date, now: Instant)
    requires now.Valid() && date.Valid() && now.minute >= CutoffMinute
    ensures IsPast(date, now) <==> AtOrBefore(date, Next(now.date))
  {
    NextIsSuccessor(now.date, date);
  }

  /** From 16:00 on the first selectable day is the day after tomorrow: it and
      every later day are enabled, every earlier day is disabled. */
  lemma FirstSelectableAfterCutoff(date: Date, now: Instant)
    requires now.Valid() && date.Valid() && now.minute >= CutoffMinute
    ensures !IsPast(date, now) <==> AtOrBefore(Next(Next(now.date)), date)
    ensures IsPast(now.date, now) && IsPast(Next(now.date), now)
  {
    NextIsSuccessor(now.date, date);
    NextIsSuccessor(now.date, now.date);
    NextIsSuccessor(now.date, Next(now.date));
    DayAfterNext(now.date, date);
  }

  /** A date chip is highlighted when its calendar day equals the selected one
      (`toDateString` equality); with no selection nothing is highlighted. */
  predicate DateSelected(selectedDate: Option<Date>, date: Date)
    ensures selectedDate.None? ==> !DateSelected(selectedDate, date)
    ensures DateSelected(selectedDate, date) ==> selectedDate.value == date
  {
    selectedDate == Some(date)
  }

  /** In a month grid some chip is highlighted exactly when the selected date is a
      day of that month, and then it is the chip at index `day - 1` alone. */
  lemma DateHighlight(year: int, month: int, selectedDate: Option<Date>)
    requires 0 <= month < MonthsPerYear
    ensures var g := MonthGrid(year, month);
            && ((exists i :: 0 <= i < |g| && DateSelected(selectedDate, g[i]))
                <==> selectedDate.Some? && selectedDate.value.Valid()
                     && selectedDate.value.year == year && selectedDate.value.month == month)
            && (forall i, j ::
                  0 <= i < |g| && 0 <= j < |g| && DateSelected(selectedDate, g[i]) && DateSelected(selectedDate, g[j])
                  ==> i == j)
  {
    var g := MonthGrid(year, month);
    if selectedDate.Some? {
      MonthGridListsTheMonth(year, month, selectedDate.value);
    }
  }

  // ----------------------------------------------------------------------------
  // Time picker

  /** Today's lower bound, closed form: now + 4h with seconds dropped, moved up
      to the next multiple of 15 minutes (a strict step, even on a boundary).
      Counted in minutes from today's midnight; 1440 or more is tomorrow. */
  function TodayLowerBound(nowMinute: int): (lb: int)
    ensures lb % SlotMinutes == 0
    ensures nowMinute + LeadMinutes < lb <= nowMinute + LeadMinutes + SlotMinutes
  {
    ((nowMinute + LeadMinutes) / SlotMinutes + 1) * SlotMinutes
  }

  /** The lower bound of the slot loop for `day`: 06:00 unless `day` is today. */
  function MinTime(day: Date, now: Instant): (lower: int)
    ensures lower % SlotMinutes == 0
    ensures day != now.date ==> lower == OpeningMinute
    ensures day == now.date ==> now.minute + LeadMinutes < lower <= now.minute + LeadMinutes + SlotMinutes
  {
    if day == now.date then TodayLowerBound(now.minute) else OpeningMinute
  }

  function SlotCount(lower: int): nat {
    if lower <= ClosingMinute then (ClosingMinute - lower) / SlotMinutes + 1 else 0
  }

  /** Every 15 minutes from `lower` up to 20:00 inclusive, on `day`. */
  function Slots(day: Date, lower: int): (s: seq<Instant>)
    ensures lower <= ClosingMinute <==> |s| > 0
    ensures |s| > 0 ==> s[0].minute == lower && ClosingMinute - SlotMinutes < s[|s| - 1].minute
    ensures forall k :: 0 <= k < |s| ==> s[k].date == day && lower <= s[k].minute <= ClosingMinute
    ensures forall k :: 0 <= k < |s| - 1 ==> s[k + 1].minute == s[k].minute + SlotMinutes
  {
    seq(SlotCount(lower), k => Instant(day, lower + SlotMinutes * k))
  }

  /** `TimePicker`: no list at all without a selected date; otherwise the lower
      bound computed as the component does it (`temp` = now + 4h, its minutes
      pushed to `minutes + (15 - minutes % 15)` with seconds zeroed) and the
      `while (current <= end)` loop that pushes each slot. */
  method TimePicker(selectedDate: Option<Date>, now: Instant) returns (times: Option<seq<Instant>>)
    ensures selectedDate.None? ==> times.None?
    ensures selectedDate.Some?
            ==> times == Some(Slots(selectedDate.value, MinTime(selectedDate.value, now)))
  {
    if selectedDate.None? {
      return None;
    }
    var day := selectedDate.value;
    var isToday := day == now.date;
    var minTime: int;
    if isToday {
      var temp := now.minute + LeadMinutes;
      var minutes := temp % 60;
      var remainder := SlotMinutes - minutes % SlotMinutes;
      temp := temp - minutes + (minutes + remainder);
      minTime := temp;
    } else {
      minTime := OpeningMinute;
    }
    var list: seq<Instant> := [];
    var current := minTime;
    while current <= ClosingMinute
      invariant current == minTime + SlotMinutes * |list|
      invariant |list| == 0 || current <= ClosingMinute + SlotMinutes
      invariant forall k :: 0 <= k < |list| ==> list[k] == Instant(day, minTime + SlotMinutes * k)
    {
      list := list + [Instant(day, current)];
      current := current + SlotMinutes;
    }
    assert minTime == MinTime(day, now);
    assert |list| == SlotCount(minTime);
    assert list == Slots(day, minTime);
    return Some(list);
  }

  /** For a day other than today the slots are 06:00, 06:15, ..., 20:00: 57 of them. */
  lemma NonTodaySlots(day: Date, now: Instant)
    requires day != now.date
    ensures var s := Slots(day, MinTime(day, now));
            && |s| == 57
            && (forall k :: 0 <= k < |s| ==> s[k] == Instant(day, OpeningMinute + SlotMinutes * k))
            && s[0].minute == OpeningMinute && s[56].minute == ClosingMinute
  {
  }

  /** The slot sequence from a 15-minute-aligned lower bound: on `day`, each a
      whole multiple of 15 minutes, none before the bound or after 20:00,
      consecutive slots 15 minutes apart; and membership is exactly that. */
  lemma SlotsShape(day: Date, lower: int, t: Instant)
    requires lower % SlotMinutes == 0
    ensures var s := Slots(day, lower);
            && (forall k :: 0 <= k < |s| ==>
                  s[k].date == day && s[k].minute % SlotMinutes == 0 && lower <= s[k].minute <= ClosingMinute)
            && (forall k :: 0 <= k < |s| - 1 ==> s[k + 1].minute == s[k].minute + SlotMinutes)
            && (t in s <==> t.date == day && lower <= t.minute <= ClosingMinute
                            && t.minute % SlotMinutes == 0)
  {
    var s := Slots(day, lower);
    if t.date == day && lower <= t.minute <= ClosingMinute && t.minute % SlotMinutes == 0 {
      var k := (t.minute - lower) / SlotMinutes;
      assert s[k] == t;
    }
  }

  /** Scenario: at 10:00 today's slots start at 14:15 (not 14:00) and there are 24. */
  lemma TodayAtTen(now: Instant)
    requires now.minute == 10 * 60
    ensures var s := Slots(now.date, MinTime(now.date, now));
            |s| == 24 && s[0] == Instant(now.date, 14 * 60 + 15)
  {
  }

  /** Today's list is empty exactly from 16:00 on. */
  lemma TodayEmptyIffCutoff(now: Instant)
    requires now.Valid()
    ensures Slots(now.date, MinTime(now.date, now)) == [] <==> now.minute >= CutoffMinute
  {
  }

  /** Today's list is not clamped to 06:00: it begins before opening exactly when
      now is before 01:45. */
  lemma TodayStartsBeforeOpening(now: Instant)
    requires now.Valid()
    ensures var s := Slots(now.date, MinTime(now.date, now));
            (|s| > 0 && s[0].minute < OpeningMinute) <==> now.minute < 1 * 60 + 45
  {
  }

  /** From 15:45 to 15:59 the only slot of today is 20:00. */
  lemma TodayOnlyClosing(now: Instant)
    requires now.Valid()
    ensures Slots(now.date, MinTime(now.date, now)) == [Instant(now.date, ClosingMinute)]
            <==> 15 * 60 + 45 <= now.minute < CutoffMinute
  {
  }

  /** A time chip is highlighted when it is the selected instant exactly. */
  predicate TimeSelected(selectedTime: Option<Instant>, slot: Instant)
    ensures selectedTime.None? ==> !TimeSelected(selectedTime, slot)
    ensures TimeSelected(selectedTime, slot) ==> selectedTime.value == slot
  {
    selectedTime == Some(slot)
  }

  /** At most one time chip is highlighted, and a selected time on another day
      (left over from an earlier date) highlights none. */
  lemma TimeHighlight(day: Date, lower: int, selectedTime: Option<Instant>)
    ensures var s := Slots(day, lower);
            && (forall i, j ::
                  0 <= i < |s| && 0 <= j < |s| && TimeSelected(selectedTime, s[i]) && TimeSelected(selectedTime, s[j])
                  ==> i == j)
            && (selectedTime.Some? && selectedTime.value.date != day
                ==> forall i :: 0 <= i < |s| ==> !TimeSelected(selectedTime, s[i]))
  {
  }
}
