/** `CommissionTableRow`: the derived figures of one table row and the routing of each
    editable cell to the entry field it writes. */
module CommissionRow {
  import opened Collections
  import opened Commission
  import opened EditableField

  /** `getProgressPercentage`: the progress bar, capped at 100. The source divides by the
      daily goal without a guard. */
  function ProgressPercentage(e: Entry): (p: real)
    requires e.dailyGoal > 0.0
    ensures p <= 100.0
    ensures p == 100.0 <==> EntryTotal(e) >= e.dailyGoal
    ensures p < 100.0 ==> p * e.dailyGoal == EntryTotal(e) * 100.0
    ensures NonNegative(e) ==> p >= 0.0
  {
    var ratio := EntryTotal(e) / e.dailyGoal * 100.0;
    if ratio < 100.0 then ratio else 100.0
  }

  datatype Status = Exceeded | OnTrack | Behind

  /** The lucide icons a status badge shows. */
  datatype StatusIcon = TrendingUp | Target | TrendingDown

  /** `GoalStatus` of the types file. */
  datatype GoalStatus = GoalStatus(status: Status, color: string, icon: StatusIcon)

  /** `getGoalStatus`: bands of the unclamped percentage, 100 and 80 belonging to the
      higher band. */
  function GetGoalStatus(e: Entry): (g: GoalStatus)
    requires e.dailyGoal > 0.0
    ensures g.status == Exceeded <==> EntryTotal(e) >= e.dailyGoal
    ensures g.status == OnTrack <==> 80.0 * e.dailyGoal <= 100.0 * EntryTotal(e) < 100.0 * e.dailyGoal
    ensures g.status == Behind <==> 100.0 * EntryTotal(e) < 80.0 * e.dailyGoal
    ensures g.status == Exceeded ==> g == GoalStatus(Exceeded, "bg-green-500", TrendingUp)
    ensures g.status == OnTrack ==> g == GoalStatus(OnTrack, "bg-blue-500", Target)
    ensures g.status == Behind ==> g == GoalStatus(Behind, "bg-red-500", TrendingDown)
  {
    var percentage := EntryTotal(e) / e.dailyGoal * 100.0;
    PercentBands(EntryTotal(e), e.dailyGoal);
    if percentage >= 100.0 then GoalStatus(Exceeded, "bg-green-500", TrendingUp)
    else if percentage >= 80.0 then GoalStatus(OnTrack, "bg-blue-500", Target)
    else GoalStatus(Behind, "bg-red-500", TrendingDown)
  }

  /** The percentage cut-offs, stated without division. */
  lemma PercentBands(total: real, goal: real)
    requires goal > 0.0
    ensures total / goal * 100.0 >= 100.0 <==> total >= goal
    ensures total / goal * 100.0 >= 80.0 <==> 100.0 * total >= 80.0 * goal
  {
    var p := total / goal * 100.0;
    assert p * goal == 100.0 * total;
    ScalePositive(80.0, p, goal);
    assert p >= 80.0 ==> 100.0 * total >= 80.0 * goal;
    assert 100.0 * total >= 80.0 * goal ==> p >= 80.0;
    ScalePositive(100.0, p, goal);
    assert p >= 100.0 ==> 100.0 * total >= 100.0 * goal;
    assert 100.0 * total >= 100.0 * goal ==> p >= 100.0;
  }

  lemma ScalePositive(x: real, y: real, g: real)
    requires g > 0.0
    ensures x <= y <==> x * g <= y * g
  {
  }

  /** The status reads the unclamped ratio and the bar the clamped one; they agree in that
      an exceeded goal always shows a full bar, and a full bar means the goal is met. */
  lemma ExceededIffFullProgress(e: Entry)
    requires e.dailyGoal > 0.0
    ensures GetGoalStatus(e).status == Exceeded <==> ProgressPercentage(e) == 100.0
    ensures GetGoalStatus(e).status != Exceeded ==> ProgressPercentage(e) < 100.0
  {
  }

  /** The worked example: 300 + 200 + 100 against a goal of 1000. */
  lemma ExampleRow()
    ensures var e := Entry("1", "Petr Michal", 300.0, 200.0, 100.0, 1000.0, "10:30");
      EntryTotal(e) == 600.0 && ProgressPercentage(e) == 60.0 && GetGoalStatus(e).status == Behind
  {
  }

  // ---------------------------------------------------------------------------
  // Editable cells

  /** The five `EditableField`s of a row. */
  datatype Cell = NameCell | AmountCell(field: Amount)

  function CellSuffix(c: Cell): string {
    match c
    case NameCell => "name"
    case AmountCell(Postpaid) => "postpaid"
    case AmountCell(IndTv) => "indTv"
    case AmountCell(Zbytek) => "zbytek"
    case AmountCell(DailyGoal) => "dailyGoal"
  }

  /** The `fieldKey` prop, `${entry.id}-<field>`. */
  function FieldKey(id: string, c: Cell): string {
    id + "-" + CellSuffix(c)
  }

  /** The name cell is a text field, the others are number fields. */
  function CellType(c: Cell): FieldType {
    if c.NameCell? then Text else Number
  }

  /** The value a cell shows and starts editing from. */
  function CellValue(e: Entry, c: Cell): Value {
    match c
    case NameCell => Str(e.name)
    case AmountCell(f) => Num(AmountOf(e, f))
  }

  /** Each cell's `onSave`: the update it asks `updateEntry` to make. A number cell saves
      `Number(temp)`; `NaN` has no place in a `real` field, so it yields no update here. */
  function RouteSave(c: Cell, v: Value): (u: Option<FieldUpdate>)
    ensures c == NameCell && v.Str? ==> u == Some(SetName(v.s))
    ensures c.AmountCell? && v.Num? ==> u == Some(SetAmount(c.field, v.n))
    ensures u.Some? ==> (u.value.SetName? <==> c == NameCell)
    ensures u.Some? && u.value.SetAmount? ==> c == AmountCell(u.value.field)
  {
    match c
    case NameCell => if v.Str? then Some(SetName(v.s)) else None
    case AmountCell(f) => if v.Num? then Some(SetAmount(f, v.n)) else None
  }

  /** A save from the editor of cell `c` writes cell `c` and nothing else: saving a cell
      after editing it to its own current value gives that value back. */
  lemma SaveWritesOwnCell(e: Entry, c: Cell, stamp: string, parse: string -> Option<real>)
    ensures var saved := Save(Editor(Some(FieldKey(e.id, c)), CellValue(e, c)), CellType(c), parse).saved.value;
      && RouteSave(c, saved).Some?
      && CellValue(ApplyUpdate(e, RouteSave(c, saved).value, stamp), c) == CellValue(e, c)
  {
  }

  lemma {:induction false} SuffixHasNoDash(c: Cell)
    ensures forall i :: 0 <= i < |CellSuffix(c)| ==> CellSuffix(c)[i] != '-'
    ensures |CellSuffix(c)| > 0
  {
  }

  /** The part of a key after its last dash. */
  lemma {:induction false} KeySuffix(id: string, c: Cell)
    ensures var k := FieldKey(id, c); var n := |CellSuffix(c)|;
      |k| > n && k[|k| - n - 1] == '-' && k[|k| - n..] == CellSuffix(c) && k[..|k| - n - 1] == id
  {
  }

  /** Different cells, in the same row or in different rows, never share a field key, so
      the shared `editingField` opens at most one cell of the whole table. */
  lemma {:induction false} FieldKeyInjective(id1: string, c1: Cell, id2: string, c2: Cell)
    ensures FieldKey(id1, c1) == FieldKey(id2, c2) <==> id1 == id2 && c1 == c2
  {
    if FieldKey(id1, c1) == FieldKey(id2, c2) {
      var k := FieldKey(id1, c1);
      var s1, s2 := CellSuffix(c1), CellSuffix(c2);
      SuffixHasNoDash(c1);
      SuffixHasNoDash(c2);
      KeySuffix(id1, c1);
      KeySuffix(id2, c2);
      assert s1 == s2;
      assert c1 == c2 by {
        match c1
        case NameCell =>
        case AmountCell(f) =>
      }
    }
  }

  /** The team goal's key `"team-goal"` is not the key of any row cell. */
  lemma {:induction false} TeamGoalKeyIsNotACell(id: string, c: Cell)
    ensures FieldKey(id, c) != "team-goal"
  {
    KeySuffix(id, c);
  }
}
