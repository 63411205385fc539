/** `TeamSummary`: the blue card over the table. It shows the team total, the editable team
    goal, the fulfilment in percent and a progress bar, under a heading that says "dnes" for
    today and the short date otherwise. */
module TeamSummary {
  import opened Collections
  import opened Commission
  import opened Dates
  import opened EditableField
  import opened CommissionTable
  import PdfExport

  const TeamGoalKey: string := "team-goal"

  // ---------------------------------------------------------------------------
  // Fulfilment

  /** `(teamTotal / teamGoal) * 100`, the figure of the "Plnění" line and of the progress
      bar: the total as a percentage of the goal. */
  function Fulfilment(total: real, goal: real): (r: real)
    requires goal != 0.0
    ensures r * goal == total * 100.0
  {
    total / goal * 100.0
  }

  /** Against a positive goal the card passes 100% exactly when the total passes the goal,
      and it shows 100% exactly at the goal. */
  lemma FulfilmentAgainstGoal(total: real, goal: real)
    requires goal > 0.0
    ensures Fulfilment(total, goal) > 100.0 <==> total > goal
    ensures Fulfilment(total, goal) == 100.0 <==> total == goal
  {
    var r := Fulfilment(total, goal);
    if r > 100.0 {
      PdfExport.MulStrict(100.0, r, goal);
    } else if r < 100.0 {
      PdfExport.MulStrict(r, 100.0, goal);
    }
  }

  /** A larger total never shows a smaller fulfilment. */
  lemma FulfilmentMonotonic(t1: real, t2: real, goal: real)
    requires goal > 0.0 && t1 <= t2
    ensures Fulfilment(t1, goal) <= Fulfilment(t2, goal)
  {
    var r1, r2 := Fulfilment(t1, goal), Fulfilment(t2, goal);
    if r1 > r2 {
      PdfExport.MulStrict(r2, r1, goal);
    }
  }

  /** Neither the line nor the bar is clamped: twice the goal shows 200%. */
  lemma FulfilmentUnclamped(goal: real)
    requires goal > 0.0
    ensures Fulfilment(2.0 * goal, goal) == 200.0
    ensures Fulfilment(0.0, goal) == 0.0
  {
    var r := Fulfilment(2.0 * goal, goal);
    if r < 200.0 {
      PdfExport.MulStrict(r, 200.0, goal);
    } else if r > 200.0 {
      PdfExport.MulStrict(200.0, r, goal);
    }
  }

  /** The card's unrounded figure and the exported whole percentage differ by at most half
      a point. */
  lemma ExportRoundsFulfilment(total: real, goal: real)
    requires goal > 0.0
    ensures var p := PdfExport.Percentage(total, goal) as real;
      p - 0.5 <= Fulfilment(total, goal) < p + 0.5
  {
    var p := PdfExport.Percentage(total, goal) as real;
    var r := Fulfilment(total, goal);
    if r < p - 0.5 {
      PdfExport.MulStrict(r, p - 0.5, goal);
    }
    if r >= p + 0.5 {
      PdfExport.MulMonotonic(p + 0.5, r, goal);
    }
  }

  /** The first render shows the roster's zero total against the default goal: 0%. */
  lemma InitialFulfilment()
    ensures Fulfilment(TeamTotal(InitialData), DefaultTeamGoal) == 0.0
  {
    InitialTeamTotal();
  }

  // ---------------------------------------------------------------------------
  // The heading

  /** `isToday`: the two days have the same date key. */
  predicate IsToday(selected: Date, today: Date) {
    DateKey(selected) == DateKey(today)
  }

  /** From year 1 on, comparing the keys is comparing the days. */
  lemma IsTodayIffSameDay(selected: Date, today: Date)
    requires selected.year >= 1 && today.year >= 1
    ensures IsToday(selected, today) <==> selected == today
  {
    KeyInjective(selected, today);
  }

  /** `format(selectedDate, 'd. M.')`: day and month without padding, each followed by a
      dot. */
  function ShortDate(d: Date): (r: string)
    ensures |r| >= 5 && IsDigit(r[0]) && r[|r| - 1] == '.'
    ensures r[..|Decimal(d.day)|] == Decimal(d.day)
  {
    Decimal(d.day) + ". " + Decimal(d.month) + "."
  }

  /** The word after "Výkonnost týmu". */
  function Heading(selected: Date, today: Date): (r: string)
    ensures IsToday(selected, today) ==> r == "dnes"
    ensures !IsToday(selected, today) ==> r == ShortDate(selected)
  {
    if IsToday(selected, today) then "dnes" else ShortDate(selected)
  }

  /** "dnes" never looks like a date, so the heading tells today from other days. */
  lemma HeadingSaysToday(selected: Date, today: Date)
    ensures Heading(selected, today) == "dnes" <==> IsToday(selected, today)
  {
    if !IsToday(selected, today) {
      assert IsDigit(Heading(selected, today)[0]);
    }
  }

  /** The position of the first dot of `s` (`|s|` when there is none). */
  function FirstDot(s: string): (k: nat)
    ensures k <= |s|
    ensures forall i :: 0 <= i < k ==> s[i] != '.'
    ensures k < |s| ==> s[k] == '.'
  {
    if |s| == 0 || s[0] == '.' then 0 else 1 + FirstDot(s[1..])
  }

  /** In digits followed by a dot, the first dot ends the digits. */
  lemma {:induction false} FirstDotAfterDigits(a: string, x: string)
    requires AllDigits(a)
    ensures FirstDot(a + "." + x) == |a|
  {
    if |a| > 0 {
      assert (a + "." + x)[1..] == a[1..] + "." + x;
      FirstDotAfterDigits(a[1..], x);
    }
  }

  /** Two digit strings each followed by a dot, at the front of one string, are the same. */
  lemma DigitsBeforeDot(a: string, b: string, x: string, y: string)
    requires AllDigits(a) && AllDigits(b)
    requires a + "." + x == b + "." + y
    ensures a == b && x == y
  {
    var s := a + "." + x;
    FirstDotAfterDigits(a, x);
    FirstDotAfterDigits(b, y);
    assert a == s[..|a|] == b;
    assert x == s[|a| + 1..] == y;
  }

  /** The short date shows the day and the month and nothing of the year: two days share it
      exactly when they share day and month. */
  lemma ShortDateShowsDayAndMonth(a: Date, b: Date)
    ensures ShortDate(a) == ShortDate(b) <==> a.day == b.day && a.month == b.month
  {
    if ShortDate(a) == ShortDate(b) {
      var da, db := Decimal(a.day), Decimal(b.day);
      var ma, mb := Decimal(a.month), Decimal(b.month);
      assert ShortDate(a) == da + "." + (" " + ma + ".");
      assert ShortDate(b) == db + "." + (" " + mb + ".");
      DigitsBeforeDot(da, db, " " + ma + ".", " " + mb + ".");
      assert ma == (" " + ma + ".")[1..|ma| + 1];
      assert mb == (" " + mb + ".")[1..|mb| + 1];
      ValueOfDecimal(a.day);
      ValueOfDecimal(b.day);
      ValueOfDecimal(a.month);
      ValueOfDecimal(b.month);
    }
  }

  // ---------------------------------------------------------------------------
  // Editing the goal

  /** The goal field's `onSave`, `setTeamGoal(Number(value))`, after `handleSave` has
      closed the field. A value that is not a number leaves the goal as it was. */
  function CommitTeamGoal(s: Session, v: Value, parse: string -> Option<real>): (r: Session)
    ensures r.editingField.None? && r.entries == s.entries && r.historicalData == s.historicalData
    ensures r.selectedDate == s.selectedDate && r.currentUser == s.currentUser
    ensures ToNumber(v, parse).Num? ==> r.teamGoal == ToNumber(v, parse).n
    ensures ToNumber(v, parse).NaN? ==> r.teamGoal == s.teamGoal
  {
    var n := ToNumber(v, parse);
    var s' := if n.Num? then SetTeamGoal(s, n.n) else s;
    s'.(editingField := None)
  }

  /** Typing a numeral into the open goal field and pressing Enter sets the goal to the
      number it denotes and closes the field; the working copy of the rows is not touched. */
  lemma EnterSetsGoal(s: Session, ed: Editor, text: string, parse: string -> Option<real>)
    requires IsEditing(ed.editingField, TeamGoalKey) && parse(text).Some?
    ensures var out := KeyDown(Change(ed, text), Enter, Number, Num(s.teamGoal), parse);
      && out.saved.Some?
      && CommitTeamGoal(s, out.saved.value, parse).teamGoal == parse(text).value
      && CommitTeamGoal(s, out.saved.value, parse).entries == s.entries
      && out.editor.editingField.None?
  {
    var out := KeyDown(Change(ed, text), Enter, Number, Num(s.teamGoal), parse);
    EnterIsSave(Change(ed, text), Number, Num(s.teamGoal), parse);
    ToNumberIdempotent(Str(text), parse);
  }
}
