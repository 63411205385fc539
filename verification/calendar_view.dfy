/** `CalendarView`: the month overlay. It shows one month (`currentMonth`), steps it back and
    forth, lays its days out in Monday-first weeks, marks the days that have a snapshot, and
    selects a clicked day. */
module CalendarView {
  import opened Collections
  import opened Commission
  import opened Dates
  import opened SnapshotStore
  import opened CommissionTable

  // ---------------------------------------------------------------------------
  // Month stepping

  /** Months counted from the start of year 0: January of year `y` is `12 * y`. */
  function MonthCount(d: Date): int {
    d.year * 12 + d.month - 1
  }

  /** `startOfMonth`. */
  function FirstOfMonth(d: Date): (r: Date)
    ensures r.year == d.year && r.month == d.month && r.day == 1
  {
    Ymd(d.year, d.month, 1)
  }

  /** `new Date(y, monthIndex, 1)` for a full year `y`: a month index outside 0..11 carries
      into the year (JavaScript's `MakeDay` takes the floor of `monthIndex / 12` and the
      non-negative remainder, which are Dafny's `/` and `%` for the divisor 12). */
  function MonthStart(y: int, monthIndex: int): (r: Date)
    ensures r.day == 1 && MonthCount(r) == 12 * y + monthIndex
  {
    Ymd(y + monthIndex / 12, monthIndex % 12 + 1, 1)
  }

  /** Two first-of-month days with the same month count are the same day. */
  lemma MonthCountInjective(a: Date, b: Date)
    requires a.day == 1 && b.day == 1 && MonthCount(a) == MonthCount(b)
    ensures a == b
  {
    assert a.year * 12 + (a.month - 1) == b.year * 12 + (b.month - 1);
    assert 0 <= a.month - 1 < 12 && 0 <= b.month - 1 < 12;
    MonthCountParts(a);
    MonthCountParts(b);
  }

  lemma MonthCountParts(d: Date)
    ensures MonthCount(d) / 12 == d.year && MonthCount(d) % 12 == d.month - 1
  {
  }

  /** The JavaScript `Date` constructor reads a year argument from 0 to 99 as 1900 plus that
      year (section 21.4.2.1 of ECMA-262), before the month carries into it. */
  function JsYear(y: int): int {
    if 0 <= y <= 99 then 1900 + y else y
  }

  /** `goToPreviousMonth` as written: `new Date(prev.getFullYear(), prev.getMonth() - 1, 1)`. */
  function PreviousMonthAsWritten(cur: Date): (r: Date)
    ensures r.day == 1
    ensures (cur.year < 0 || cur.year > 99) ==> MonthCount(r) == MonthCount(cur) - 1
    ensures 0 <= cur.year <= 99 ==> MonthCount(r) == MonthCount(cur) - 1 + 1900 * 12
  {
    MonthStart(JsYear(cur.year), cur.month - 2)
  }

  /** `goToNextMonth` as written: `new Date(prev.getFullYear(), prev.getMonth() + 1, 1)`. */
  function NextMonthAsWritten(cur: Date): (r: Date)
    ensures r.day == 1
    ensures (cur.year < 0 || cur.year > 99) ==> MonthCount(r) == MonthCount(cur) + 1
    ensures 0 <= cur.year <= 99 ==> MonthCount(r) == MonthCount(cur) + 1 + 1900 * 12
  {
    MonthStart(JsYear(cur.year), cur.month)
  }

  /** Away from the two-digit years the code steps by exactly one month. */
  lemma AsWrittenStepsOneMonth(cur: Date)
    requires cur.year < 0 || cur.year > 99
    ensures MonthCount(PreviousMonthAsWritten(cur)) == MonthCount(cur) - 1
    ensures MonthCount(NextMonthAsWritten(cur)) == MonthCount(cur) + 1
    ensures PreviousMonthAsWritten(cur) == PreviousMonth(cur)
    ensures NextMonthAsWritten(cur) == NextMonth(cur)
  {
  }

  /** Stepping back from January of year 100 lands in December of year 99; stepping forward
      from there reads 99 as 1999 and lands in January 2000, not back in year 100. */
  lemma TwoDigitYearRoundTrip()
    ensures PreviousMonthAsWritten(Ymd(100, 1, 1)) == Ymd(99, 12, 1)
    ensures NextMonthAsWritten(Ymd(99, 12, 1)) == Ymd(2000, 1, 1)
    ensures NextMonthAsWritten(PreviousMonthAsWritten(Ymd(100, 1, 1))) != Ymd(100, 1, 1)
  {
    assert PreviousMonthAsWritten(Ymd(100, 1, 1)) == Ymd(99, 12, 1) by {
      MonthCountInjective(PreviousMonthAsWritten(Ymd(100, 1, 1)), Ymd(99, 12, 1));
    }
    assert NextMonthAsWritten(Ymd(99, 12, 1)) == Ymd(2000, 1, 1) by {
      MonthCountInjective(NextMonthAsWritten(Ymd(99, 12, 1)), Ymd(2000, 1, 1));
    }
  }

  /** The month before, on day 1, for every year. */
  function PreviousMonth(cur: Date): (r: Date)
    ensures r.day == 1 && MonthCount(r) == MonthCount(cur) - 1
  {
    MonthStart(cur.year, cur.month - 2)
  }

  /** The month after, on day 1, for every year. */
  function NextMonth(cur: Date): (r: Date)
    ensures r.day == 1 && MonthCount(r) == MonthCount(cur) + 1
  {
    MonthStart(cur.year, cur.month)
  }

  /** Back then forward, or forward then back, is the first day of the month shown. */
  lemma StepRoundTrip(cur: Date)
    ensures NextMonth(PreviousMonth(cur)) == FirstOfMonth(cur)
    ensures PreviousMonth(NextMonth(cur)) == FirstOfMonth(cur)
  {
    MonthCountInjective(NextMonth(PreviousMonth(cur)), FirstOfMonth(cur));
    MonthCountInjective(PreviousMonth(NextMonth(cur)), FirstOfMonth(cur));
  }

  /** January steps back into December of the year before, December forward into January
      of the year after; every other month stays in its year. */
  lemma StepRollover(cur: Date)
    ensures cur.month == 1 ==> PreviousMonth(cur) == Ymd(cur.year - 1, 12, 1)
    ensures cur.month > 1 ==> PreviousMonth(cur) == Ymd(cur.year, cur.month - 1, 1)
    ensures cur.month == 12 ==> NextMonth(cur) == Ymd(cur.year + 1, 1, 1)
    ensures cur.month < 12 ==> NextMonth(cur) == Ymd(cur.year, cur.month + 1, 1)
  {
    if cur.month == 1 {
      MonthCountInjective(PreviousMonth(cur), Ymd(cur.year - 1, 12, 1));
    } else {
      MonthCountInjective(PreviousMonth(cur), Ymd(cur.year, cur.month - 1, 1));
    }
    if cur.month == 12 {
      MonthCountInjective(NextMonth(cur), Ymd(cur.year + 1, 1, 1));
    } else {
      MonthCountInjective(NextMonth(cur), Ymd(cur.year, cur.month + 1, 1));
    }
  }

  // ---------------------------------------------------------------------------
  // The month grid

  /** The empty cells before day 1, `(monthStart.getDay() + 6) % 7`: weeks start on Monday. */
  function LeadingBlanks(month: Date): (b: int)
    ensures 0 <= b <= 6
    ensures b == 0 <==> Weekday(FirstOfMonth(month)) == 1
    ensures b == 6 <==> Weekday(FirstOfMonth(month)) == 0
  {
    (Weekday(FirstOfMonth(month)) + 6) % 7
  }

  /** Day number 0 is a Monday, so the blanks are the days since the last Monday. */
  lemma BlanksAreDaysSinceMonday(month: Date)
    ensures LeadingBlanks(month) == DayNumber(FirstOfMonth(month)) % 7
  {
    MondayShift(DayNumber(FirstOfMonth(month)));
  }

  lemma MondayShift(x: int)
    ensures ((x + 1) % 7 + 6) % 7 == x % 7
  {
  }

  lemma ModAdd(x: int, n: int)
    ensures (x + n) % 7 == (x % 7 + n) % 7
  {
  }

  /** The first of the next month is `DaysInMonth` days after the first of this one. */
  lemma NextFirstDayNumber(cur: Date)
    ensures DayNumber(NextMonth(cur)) == DayNumber(FirstOfMonth(cur)) + DaysInMonth(cur.year, cur.month)
  {
    StepRollover(cur);
    if cur.month < 12 {
      DaysBeforeNextMonth(cur.year, cur.month);
    } else {
      YearLength(cur.year);
    }
  }

  /** Next month's grid starts where this month's last week leaves off. */
  lemma NextMonthBlanks(cur: Date)
    ensures LeadingBlanks(NextMonth(cur)) == (LeadingBlanks(cur) + DaysInMonth(cur.year, cur.month)) % 7
  {
    NextFirstDayNumber(cur);
    BlanksAreDaysSinceMonday(cur);
    BlanksAreDaysSinceMonday(NextMonth(cur));
    assert FirstOfMonth(NextMonth(cur)) == NextMonth(cur);
    ModAdd(DayNumber(FirstOfMonth(cur)), DaysInMonth(cur.year, cur.month));
  }

  /** `eachDayOfInterval({ start: monthStart, end: monthEnd })`: the days of the month in
      order, day 1 to the last day. */
  method MonthDays(month: Date) returns (days: seq<Date>)
    ensures |days| == DaysInMonth(month.year, month.month)
    ensures forall i :: 0 <= i < |days| ==>
      days[i].year == month.year && days[i].month == month.month && days[i].day == i + 1
    ensures forall i, j :: 0 <= i < j < |days| ==> days[i].day < days[j].day
  {
    var n := DaysInMonth(month.year, month.month);
    days := [];
    var d := 1;
    while d <= n
      invariant 1 <= d <= n + 1
      invariant |days| == d - 1
      invariant forall i :: 0 <= i < |days| ==>
        days[i].year == month.year && days[i].month == month.month && days[i].day == i + 1
    {
      days := days + [Ymd(month.year, month.month, d)];
      d := d + 1;
    }
  }

  /** `hasRecord` for every shown day: whether the day is marked as having data. */
  function Marks(store: Store, days: seq<Date>): (r: seq<bool>)
    ensures |r| == |days|
    ensures forall i :: 0 <= i < |days| ==> (r[i] <==> Lookup(store, DateKey(days[i])).Some?)
  {
    seq(|days|, i requires 0 <= i < |days| => HasRecord(store, days[i]))
  }

  /** After saving the selected day, `hasRecord` holds of it and no other day's changes. */
  lemma SaveMarksSelectedDay(s: Session, other: Date)
    requires s.selectedDate.year >= 1 && other.year >= 1
    ensures HasRecord(SaveCurrentData(s).historicalData, s.selectedDate)
    ensures other != s.selectedDate ==>
      HasRecord(SaveCurrentData(s).historicalData, other) == HasRecord(s.historicalData, other)
  {
    HasRecordAfterUpsert(s.historicalData, s.selectedDate, s.entries, s.teamGoal, other);
  }

  /** The dot under a shown day: drawn for a day marked as having data, unless it is the
      selected day, whose highlighted button carries no dot. */
  function Dots(store: Store, days: seq<Date>, selected: Date): (r: seq<bool>)
    ensures |r| == |days|
    ensures forall i :: 0 <= i < |days| ==>
      (r[i] <==> Lookup(store, DateKey(days[i])).Some? && days[i] != selected)
  {
    seq(|days|, i requires 0 <= i < |days| => HasRecord(store, days[i]) && days[i] != selected)
  }

  /** The selected day never shows a dot; every other day shows one exactly when it is
      marked. */
  lemma DotsAreMarksOffSelection(store: Store, days: seq<Date>, selected: Date)
    ensures forall i :: 0 <= i < |days| && days[i] == selected ==> !Dots(store, days, selected)[i]
    ensures forall i :: 0 <= i < |days| && days[i] != selected ==>
      Dots(store, days, selected)[i] == Marks(store, days)[i]
  {
  }

  /** Right after a save the saved day is still selected and shows no dot; once another day
      is chosen, the saved day shows its dot. */
  lemma SavedDayShowsDotOnceLeft(s: Session, days: seq<Date>, d: Date, i: int)
    requires s.selectedDate.year >= 1 && 0 <= i < |days| && days[i] == s.selectedDate
    requires d != s.selectedDate
    ensures !Dots(SaveCurrentData(s).historicalData, days, SaveCurrentData(s).selectedDate)[i]
    ensures var r := SelectDate(SaveCurrentData(s), d);
      Dots(r.historicalData, days, r.selectedDate)[i]
  {
    SaveMarksSelectedDay(s, s.selectedDate);
  }

  // ---------------------------------------------------------------------------
  // Opening, navigating and choosing

  /** `useState(selectedDate)`: the overlay opens on the month of the selected day. */
  function OpenOn(selected: Date): (currentMonth: Date)
    ensures currentMonth == selected
  {
    selected
  }

  /** `handleOpenCalendarView`. */
  function OpenCalendarView(s: Session): (r: Session)
    ensures r.calendarViewOpen && r.selectedDate == s.selectedDate && r.entries == s.entries
    ensures r.historicalData == s.historicalData && r.currentUser == s.currentUser
    ensures r.teamGoal == s.teamGoal && r.editingField == s.editingField
  {
    s.(calendarViewOpen := true)
  }

  /** `handleDateClick`: select the day (which runs the load effect) and close the overlay. */
  function HandleDateClick(s: Session, d: Date): (r: Session)
    ensures r.selectedDate == d && !r.calendarViewOpen
    ensures r.historicalData == s.historicalData && r.currentUser == s.currentUser
    ensures Saved(r).Some? ==> r.entries == Saved(r).value.entries && r.teamGoal == Saved(r).value.teamGoal
    ensures Saved(r).None? ==> IsRoster(r.entries) && r.teamGoal == DefaultTeamGoal
  {
    SelectDate(s, d).(calendarViewOpen := false)
  }

  /** Clicking a day that has a snapshot shows that snapshot, whatever was on screen. */
  lemma ClickShowsSnapshot(s: Session, d: Date, snap: DailyData)
    requires Lookup(s.historicalData, DateKey(d)) == Some(snap)
    ensures HandleDateClick(s, d).entries == snap.entries
    ensures HandleDateClick(s, d).teamGoal == snap.teamGoal
  {
  }
}
