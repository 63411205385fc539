/** `downloadDailyRecordAsPDF`: the figures the daily record export writes out. The HTML
    text and the download itself are not modelled; the export is the record of rows, the team
    summary and the file name. */
module PdfExport {
  import opened Commission
  import opened Dates

  /** JavaScript `Math.round`: the nearest integer, halves rounded up (towards +infinity). */
  function JsRound(x: real): (r: int)
    ensures r as real - 0.5 <= x < r as real + 0.5
  {
    (x + 0.5).Floor
  }

  /** The bounds above pin the result down: any integer within half a unit below and less
      than half a unit above `x` is `JsRound(x)`. */
  lemma JsRoundUnique(x: real, n: int)
    requires n as real - 0.5 <= x < n as real + 0.5
    ensures JsRound(x) == n
  {
    var r := JsRound(x);
    assert r as real - n as real < 1.0 && n as real - r as real < 1.0;
  }

  /** Halves go up, also for negative numbers (`Math.round(-2.5) == -2`). */
  lemma JsRoundHalves(n: int)
    ensures JsRound(n as real) == n
    ensures JsRound(n as real + 0.5) == n + 1
    ensures JsRound(n as real - 0.5) == n
  {
    JsRoundUnique(n as real, n);
    JsRoundUnique(n as real + 0.5, n + 1);
    JsRoundUnique(n as real - 0.5, n);
  }

  lemma JsRoundMonotonic(x: real, y: real)
    requires x <= y
    ensures JsRound(x) <= JsRound(y)
  {
  }

  lemma MulMonotonic(a: real, b: real, c: real)
    requires a <= b && c > 0.0
    ensures a * c <= b * c
  {
  }

  lemma MulStrict(a: real, b: real, c: real)
    requires a < b && c > 0.0
    ensures a * c < b * c
  {
  }

  /** The guarded percentage of both the entry rows and the team summary: `0` when the goal
      is not positive, otherwise `Math.round(total / goal * 100)`. Stated without division:
      the result is the integer `r` with `(r - 1/2) * goal <= 100 * total < (r + 1/2) * goal`. */
  function Percentage(total: real, goal: real): (r: int)
    ensures goal <= 0.0 ==> r == 0
    ensures goal > 0.0 ==> (r as real - 0.5) * goal <= total * 100.0 < (r as real + 0.5) * goal
  {
    if goal > 0.0 then
      var q := total / goal * 100.0;
      var r := JsRound(q);
      assert q * goal == total * 100.0;
      MulMonotonic(r as real - 0.5, q, goal);
      MulStrict(q, r as real + 0.5, goal);
      assert (r as real - 0.5) * goal <= total * 100.0;
      assert total * 100.0 < (r as real + 0.5) * goal;
      r
    else 0
  }

  /** A value below `(x + 1/2) * goal` and at least `(y - 1/2) * goal` forces `y < x + 1`. */
  lemma BandOrder(t: real, goal: real, x: real, y: real)
    requires goal > 0.0
    requires (y - 0.5) * goal <= t < (x + 0.5) * goal
    ensures y < x + 1.0
  {
    if y >= x + 1.0 {
      MulMonotonic(x + 0.5, y - 0.5, goal);
    }
  }

  /** Two integers cannot both lie in the same half-open band of width `goal`. */
  lemma BandUnique(t: real, goal: real, r: int, n: int)
    requires goal > 0.0
    requires (r as real - 0.5) * goal <= t < (r as real + 0.5) * goal
    requires (n as real - 0.5) * goal <= t < (n as real + 0.5) * goal
    ensures r == n
  {
    BandOrder(t, goal, n as real, r as real);
    BandOrder(t, goal, r as real, n as real);
  }

  /** The bounds determine the percentage. */
  lemma PercentageUnique(total: real, goal: real, n: int)
    requires goal > 0.0
    requires (n as real - 0.5) * goal <= total * 100.0 < (n as real + 0.5) * goal
    ensures Percentage(total, goal) == n
  {
    BandUnique(total * 100.0, goal, Percentage(total, goal), n);
  }

  /** The percentage is not clamped: it passes 100 exactly when the total reaches 100.5% of
      the goal, the point from which `Math.round` rounds up to 101. */
  lemma PercentageExceedsHundred(total: real, goal: real)
    requires goal > 0.0
    ensures Percentage(total, goal) > 100 <==> 200.0 * total >= 201.0 * goal
  {
    var r := Percentage(total, goal);
    if r > 100 {
      MulMonotonic(100.5, r as real - 0.5, goal);
    } else {
      MulMonotonic(r as real + 0.5, 100.5, goal);
    }
  }

  /** Meeting the goal exactly exports 100%, and nothing achieved exports 0%. */
  lemma PercentageAtGoal(goal: real)
    requires goal > 0.0
    ensures Percentage(goal, goal) == 100
    ensures Percentage(0.0, goal) == 0
  {
    PercentageUnique(goal, goal, 100);
    PercentageUnique(0.0, goal, 0);
  }

  /** One table row of the export, before it is written as HTML. */
  datatype ExportRow = ExportRow(
    name: string,
    postpaid: real,
    indTv: real,
    zbytek: real,
    total: real,
    dailyGoal: real,
    percentage: int,
    lastUpdated: string)

  /** The row `entries.map` writes for one entry. */
  function RowOf(e: Entry): (r: ExportRow)
    ensures r.total == e.postpaid + e.indTv + e.zbytek
    ensures r.percentage == Percentage(r.total, e.dailyGoal)
    ensures r.name == e.name && r.dailyGoal == e.dailyGoal && r.lastUpdated == e.lastUpdated
    ensures r.postpaid == e.postpaid && r.indTv == e.indTv && r.zbytek == e.zbytek
  {
    var total := EntryTotal(e);
    ExportRow(e.name, e.postpaid, e.indTv, e.zbytek, total, e.dailyGoal,
              Percentage(total, e.dailyGoal), e.lastUpdated)
  }

  /** The table body: one row per entry, in the order of the entries. */
  function Rows(es: seq<Entry>): (r: seq<ExportRow>)
    ensures |r| == |es|
    ensures forall i :: 0 <= i < |es| ==> r[i] == RowOf(es[i])
  {
    seq(|es|, i requires 0 <= i < |es| => RowOf(es[i]))
  }

  /** The sum of the "Celkem" column. */
  function RowsTotal(rows: seq<ExportRow>): real {
    if |rows| == 0 then 0.0 else rows[0].total + RowsTotal(rows[1..])
  }

  /** The "Celkem" column adds up to the team total of the same entries. */
  lemma {:induction false} RowsAddUpToTeamTotal(es: seq<Entry>)
    ensures RowsTotal(Rows(es)) == TeamTotal(es)
  {
    if |es| > 0 {
      assert Rows(es)[1..] == Rows(es[1..]);
      RowsAddUpToTeamTotal(es[1..]);
    }
  }

  /** The rows of joined entry lists are the joined rows. */
  lemma RowsConcat(a: seq<Entry>, b: seq<Entry>)
    ensures Rows(a + b) == Rows(a) + Rows(b)
  {
  }

  /** `link.download`: `denni-zaznam-<yyyy-MM-dd>.html`. */
  function FileName(d: Date): (r: string)
    ensures |r| == 18 + |DateKey(d)|
    ensures r[..13] == "denni-zaznam-" && r[|r| - 5..] == ".html"
    ensures r[13..|r| - 5] == DateKey(d)
  {
    "denni-zaznam-" + DateKey(d) + ".html"
  }

  /** Records of different days (from year 1 on) are downloaded under different names, and a
      day from 1 to 9999 gives a 28-character name. */
  lemma FileNameInjective(a: Date, b: Date)
    requires a.year >= 1 && b.year >= 1
    ensures FileName(a) == FileName(b) <==> a == b
    ensures a.year <= 9999 ==> |FileName(a)| == 28
  {
    KeyInjective(a, b);
    if FileName(a) == FileName(b) {
      var fa, fb := FileName(a), FileName(b);
      assert DateKey(a) == fa[13..|fa| - 5];
      assert DateKey(b) == fb[13..|fb| - 5];
    }
    if a.year <= 9999 {
      KeyIsFullDate(a);
    }
  }

  /** What the export holds: the file name, the table, and the team summary. */
  datatype Export = Export(
    fileName: string,
    rows: seq<ExportRow>,
    teamTotal: real,
    teamGoal: real,
    teamPercentage: int)

  /** `downloadDailyRecordAsPDF(selectedDate, entries, teamGoal, teamTotal)`; the team total
      is the caller's figure, passed through. */
  function DailyRecord(selectedDate: Date, entries: seq<Entry>, teamGoal: real, teamTotal: real): (r: Export)
    ensures r.fileName == FileName(selectedDate) && r.rows == Rows(entries)
    ensures r.teamTotal == teamTotal && r.teamGoal == teamGoal
    ensures r.teamPercentage == Percentage(teamTotal, teamGoal)
  {
    Export(FileName(selectedDate), Rows(entries), teamTotal, teamGoal, Percentage(teamTotal, teamGoal))
  }

  /** When the caller passes the team total of the same entries, as the table does, the
      summary agrees with the rows. */
  lemma SummaryMatchesRows(selectedDate: Date, entries: seq<Entry>, teamGoal: real)
    ensures var x := DailyRecord(selectedDate, entries, teamGoal, TeamTotal(entries));
      x.teamTotal == RowsTotal(x.rows)
  {
    RowsAddUpToTeamTotal(entries);
  }

  /** One person at 600 against 1000 exports 60%; 1005 against 1000 exports 101%; a zero
      goal exports 0%. */
  lemma ExampleRows()
    ensures RowOf(Entry("1", "A", 300.0, 200.0, 100.0, 1000.0, "10:30")).percentage == 60
    ensures RowOf(Entry("2", "B", 1005.0, 0.0, 0.0, 1000.0, "10:30")).percentage == 101
    ensures RowOf(Entry("3", "C", 50.0, 0.0, 0.0, 0.0, "10:30")).percentage == 0
  {
    JsRoundUnique(60.0, 60);
    JsRoundUnique(100.5, 101);
  }
}
