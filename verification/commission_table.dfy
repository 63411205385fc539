/** `CommissionTable`: the session of the dashboard. It owns the working copy of the
    selected day (`entries`, `teamGoal`), the saved snapshots (`historicalData`), the
    logged-in user and the shared editing key, and wires the save, load and edit paths. */
module CommissionTable {
  import opened Collections
  import opened Dates
  import opened Commission
  import opened SnapshotStore
  import opened EditableField
  import opened CommissionRow

  const DefaultTeamGoal: real := 10500.0
  const DefaultDailyGoal: real := 1000.0

  /** The name of the two unassigned rows of the roster. */
  const Placeholder: string := "No Name"

  /** The ten people of the roster, in roster order. */
  const RosterPeople: seq<string> := [
    "Petr Michal", "Aleš Mörtl", "Daniel Rusín", "Michael Arnošt Beneš", "Jakub Škarda",
    "Terezie Beránková", "Vítek Hakr", "Josef Studený", "Barbora Grillová", "Eliška Hanáková"]

  /** `initialData`: the fixed twelve-row roster used for every day without a snapshot,
      every figure zero and every daily goal 1000; the last two rows are unassigned. */
  const InitialData: seq<Entry> := [
    Entry("1", "Petr Michal", 0.0, 0.0, 0.0, DefaultDailyGoal, "10:30"),
    Entry("2", "Aleš Mörtl", 0.0, 0.0, 0.0, DefaultDailyGoal, "11:15"),
    Entry("3", "Daniel Rusín", 0.0, 0.0, 0.0, DefaultDailyGoal, "9:45"),
    Entry("4", "Michael Arnošt Beneš", 0.0, 0.0, 0.0, DefaultDailyGoal, "10:00"),
    Entry("5", "Jakub Škarda", 0.0, 0.0, 0.0, DefaultDailyGoal, "11:30"),
    Entry("6", "Terezie Beránková", 0.0, 0.0, 0.0, DefaultDailyGoal, "10:45"),
    Entry("7", "Vítek Hakr", 0.0, 0.0, 0.0, DefaultDailyGoal, "9:30"),
    Entry("8", "Josef Studený", 0.0, 0.0, 0.0, DefaultDailyGoal, "11:00"),
    Entry("9", "Barbora Grillová", 0.0, 0.0, 0.0, DefaultDailyGoal, "10:15"),
    Entry("10", "Eliška Hanáková", 0.0, 0.0, 0.0, DefaultDailyGoal, "11:45"),
    Entry("11", Placeholder, 0.0, 0.0, 0.0, DefaultDailyGoal, "9:50"),
    Entry("12", Placeholder, 0.0, 0.0, 0.0, DefaultDailyGoal, "10:20")]

  predicate IsRoster(es: seq<Entry>) {
    es == InitialData
  }

  /** Every row of the roster starts at zero against a goal of 1000. */
  lemma InitialRows()
    ensures |InitialData| == 12
    ensures forall i :: 0 <= i < |InitialData| ==> EntryTotal(InitialData[i]) == 0.0
    ensures forall i :: 0 <= i < |InitialData| ==> InitialData[i].dailyGoal == DefaultDailyGoal
    ensures forall i :: 0 <= i < |InitialData| ==> NonNegative(InitialData[i])
  {
  }

  /** The roster contributes nothing until someone enters a figure. */
  lemma InitialTeamTotal()
    ensures TeamTotal(InitialData) == 0.0
  {
    InitialRows();
    TeamTotalOfZeros(InitialData);
  }

  lemma InitialIdsUnique()
    ensures IdsUnique(InitialData)
  {
  }

  function Names(es: seq<Entry>): (r: seq<string>)
    ensures |r| == |es| && forall i :: 0 <= i < |es| ==> r[i] == es[i].name
  {
    seq(|es|, i requires 0 <= i < |es| => es[i].name)
  }

  /** A name that is not the placeholder. */
  predicate IsPerson(name: string) {
    name != Placeholder
  }

  /** `availableUsers`: the roster's names in order, without the placeholder rows. */
  function AvailableUsers(roster: seq<Entry>): (r: seq<string>)
    ensures forall i :: 0 <= i < |r| ==> r[i] != Placeholder
    ensures forall i :: 0 <= i < |roster| && roster[i].name != Placeholder ==> roster[i].name in r
    ensures forall i :: 0 <= i < |r| ==> exists j :: 0 <= j < |roster| && roster[j].name == r[i]
    ensures IsSubseq(r, Names(roster))
    ensures forall x :: x != Placeholder ==> multiset(r)[x] == multiset(Names(roster))[x]
  {
    var names := Names(roster);
    FilterIsSubseq(names, IsPerson);
    FilterCounts(names, IsPerson);
    var r := Filter(names, IsPerson);
    assert forall i :: 0 <= i < |r| ==> r[i] in names;
    r
  }

  lemma RosterColumns()
    ensures Names(InitialData) == RosterPeople + [Placeholder, Placeholder]
  {
  }

  /** None of the ten people is called like the placeholder. */
  lemma PeopleAreNamed()
    ensures forall i :: 0 <= i < |RosterPeople| ==> RosterPeople[i] != Placeholder
  {
    forall i | 0 <= i < |RosterPeople|
      ensures RosterPeople[i] != Placeholder
    {
      assert |RosterPeople[i]| != |Placeholder|;
    }
  }

  /** The login list offers the ten named people of the roster, in roster order. */
  lemma AvailableUsersOfRoster()
    ensures AvailableUsers(InitialData) == RosterPeople
  {
    RosterColumns();
    FilterConcat(RosterPeople, [Placeholder, Placeholder], IsPerson);
    PeopleKept();
    PlaceholdersDropped();
  }

  lemma PeopleKept()
    ensures Filter(RosterPeople, IsPerson) == RosterPeople
  {
    PeopleAreNamed();
    FilterKeepsAll(RosterPeople, IsPerson);
  }

  lemma PlaceholdersDropped()
    ensures Filter([Placeholder, Placeholder], IsPerson) == []
  {
    FilterKeepsNone([Placeholder, Placeholder], IsPerson);
  }

  // ---------------------------------------------------------------------------
  // Ordering of the rows

  /** `currentUser` is truthy: present and not the empty string. */
  predicate IsLoggedIn(user: Option<string>) {
    user.Some? && user.value != ""
  }

  /** The rows that belong to `name`. */
  function NamedAfter(name: string): Entry -> bool {
    (e: Entry) => e.name == name
  }

  /** `sortedEntries`: the rows named after the logged-in user first, then the others, each
      group in its original order. */
  function SortedEntries(es: seq<Entry>, user: Option<string>): (r: seq<Entry>)
    ensures |r| == |es|
    ensures !IsLoggedIn(user) ==> r == es
  {
    if IsLoggedIn(user) then
      FilterPartition(es, NamedAfter(user.value));
      Filter(es, NamedAfter(user.value)) + Filter(es, Not(NamedAfter(user.value)))
    else es
  }

  /** The ordering only moves rows: it is a permutation of the entries. */
  lemma SortedIsPermutation(es: seq<Entry>, user: Option<string>)
    ensures multiset(SortedEntries(es, user)) == multiset(es)
  {
    if IsLoggedIn(user) {
      FilterPartition(es, NamedAfter(user.value));
    }
  }

  /** With someone logged in, the first `k` rows are exactly theirs, the rest are not, and
      both groups keep the relative order they had in the entries. */
  lemma SortedPutsUserFirst(es: seq<Entry>, user: Option<string>)
    requires IsLoggedIn(user)
    ensures var r := SortedEntries(es, user);
      exists k :: 0 <= k <= |r|
        && (forall i :: 0 <= i < k ==> r[i].name == user.value)
        && (forall i :: k <= i < |r| ==> r[i].name != user.value)
        && IsSubseq(r[..k], es) && IsSubseq(r[k..], es)
  {
    var r := SortedEntries(es, user);
    var p := NamedAfter(user.value);
    var k := |Filter(es, p)|;
    assert r == Filter(es, p) + Filter(es, Not(p));
    PartitionLayout(es, p);
    FilterIsSubseq(es, p);
    FilterIsSubseq(es, Not(p));
    forall i | 0 <= i < k
      ensures r[i].name == user.value
    {
      assert p(r[i]);
    }
    forall i | k <= i < |r|
      ensures r[i].name != user.value
    {
      assert !p(r[i]);
    }
    assert IsSubseq(r[..k], es) && IsSubseq(r[k..], es);
  }

  /** Reordering the rows does not change the team total. */
  lemma SortedKeepsTeamTotal(es: seq<Entry>, user: Option<string>)
    ensures TeamTotal(SortedEntries(es, user)) == TeamTotal(es)
  {
    if IsLoggedIn(user) {
      var p := NamedAfter(user.value);
      TeamTotalConcat(Filter(es, p), Filter(es, Not(p)));
      TeamTotalPartition(es, p);
    }
  }

  // ---------------------------------------------------------------------------
  // Editing the working copy

  /** `updateEntry`'s `prev.map(...)`: the rows with the id get the update and a new
      `lastUpdated`; every other row is left as it was. */
  function UpdateEntries(es: seq<Entry>, id: string, u: FieldUpdate, stamp: string): (r: seq<Entry>)
    ensures |r| == |es|
    ensures forall i :: 0 <= i < |es| && es[i].id != id ==> r[i] == es[i]
    ensures forall i :: 0 <= i < |es| && es[i].id == id ==> r[i] == ApplyUpdate(es[i], u, stamp)
    ensures forall i :: 0 <= i < |es| ==> r[i].id == es[i].id
  {
    seq(|es|, i requires 0 <= i < |es| => if es[i].id == id then ApplyUpdate(es[i], u, stamp) else es[i])
  }

  /** An update keeps the id column, so distinct ids stay distinct. */
  lemma UpdateKeepsIdsUnique(es: seq<Entry>, id: string, u: FieldUpdate, stamp: string)
    requires IdsUnique(es)
    ensures IdsUnique(UpdateEntries(es, id, u, stamp))
  {
  }

  /** With distinct ids, setting a contribution of row `i` moves the team total by exactly
      the change in that field; any other update leaves it alone. */
  lemma {:induction false} TeamTotalAfterUpdate(es: seq<Entry>, i: int, u: FieldUpdate, stamp: string)
    requires IdsUnique(es) && 0 <= i < |es|
    ensures u.SetAmount? && IsContribution(u.field) ==>
      TeamTotal(UpdateEntries(es, es[i].id, u, stamp))
        == TeamTotal(es) - AmountOf(es[i], u.field) + u.amount
    ensures !(u.SetAmount? && IsContribution(u.field)) ==>
      TeamTotal(UpdateEntries(es, es[i].id, u, stamp)) == TeamTotal(es)
  {
    var id := es[i].id;
    var r := UpdateEntries(es, id, u, stamp);
    TotalAfterUpdate(es[i], u, stamp);
    assert r[1..] == UpdateEntries(es[1..], id, u, stamp);
    if i == 0 {
      UnchangedWithoutId(es[1..], id, u, stamp);
    } else {
      TeamTotalAfterUpdate(es[1..], i - 1, u, stamp);
    }
  }

  lemma UnchangedWithoutId(es: seq<Entry>, id: string, u: FieldUpdate, stamp: string)
    requires forall j :: 0 <= j < |es| ==> es[j].id != id
    ensures UpdateEntries(es, id, u, stamp) == es
  {
  }

  // ---------------------------------------------------------------------------
  // The session

  /** The state of `CommissionTable` that the model keeps. */
  datatype Session = Session(
    selectedDate: Date,
    entries: seq<Entry>,
    teamGoal: real,
    historicalData: Store,
    currentUser: Option<string>,
    editingField: Option<string>,
    calendarViewOpen: bool)

  /** Distinct ids in the working copy and in every snapshot, one snapshot per date key. */
  predicate Valid(s: Session) {
    && IdsUnique(s.entries)
    && KeysUnique(s.historicalData)
    && forall i :: 0 <= i < |s.historicalData| ==> IdsUnique(s.historicalData[i].entries)
  }

  /** Same selected day, user, open field and calendar overlay. */
  predicate SameSetting(a: Session, b: Session) {
    && a.selectedDate == b.selectedDate && a.currentUser == b.currentUser
    && a.editingField == b.editingField && a.calendarViewOpen == b.calendarViewOpen
  }

  /** The snapshot saved for the selected day, if any. */
  function Saved(s: Session): Option<DailyData> {
    Lookup(s.historicalData, DateKey(s.selectedDate))
  }

  /** The load effect: restore the snapshot of the selected day, or the roster and the
      default team goal when there is none. The working copy is replaced, never merged. */
  function Reload(s: Session): (r: Session)
    ensures Saved(s).Some? ==> r.entries == Saved(s).value.entries && r.teamGoal == Saved(s).value.teamGoal
    ensures Saved(s).None? ==> IsRoster(r.entries) && r.teamGoal == DefaultTeamGoal
    ensures SameSetting(r, s) && r.historicalData == s.historicalData
  {
    var saved := Saved(s);
    if saved.Some? then s.(entries := saved.value.entries, teamGoal := saved.value.teamGoal)
    else s.(entries := InitialData, teamGoal := DefaultTeamGoal)
  }

  /** The first render on `today`: nothing saved, nobody logged in, then the load effect. */
  function Mount(today: Date): (r: Session)
    ensures IsRoster(r.entries) && r.teamGoal == DefaultTeamGoal
    ensures r.historicalData == [] && r.currentUser.None? && r.selectedDate == today
  {
    Reload(Session(today, InitialData, DefaultTeamGoal, [], None, None, false))
  }

  /** `setSelectedDate`, followed by the load effect it triggers. */
  function SelectDate(s: Session, d: Date): (r: Session)
    ensures r.selectedDate == d && r.historicalData == s.historicalData
    ensures r.currentUser == s.currentUser && r.editingField == s.editingField
    ensures r.calendarViewOpen == s.calendarViewOpen
    ensures Saved(r).Some? ==> r.entries == Saved(r).value.entries && r.teamGoal == Saved(r).value.teamGoal
    ensures Saved(r).None? ==> IsRoster(r.entries) && r.teamGoal == DefaultTeamGoal
  {
    Reload(s.(selectedDate := d))
  }

  /** The snapshot `saveCurrentData` builds from the working copy. */
  function CurrentSnapshot(s: Session): DailyData {
    DailyData(DateKey(s.selectedDate), s.entries, s.teamGoal)
  }

  /** `saveCurrentData`: upsert the working copy under the selected day's key. The new
      `historicalData` re-runs the load effect, which reads back what was just saved, so the
      working copy is unchanged. */
  function SaveCurrentData(s: Session): (r: Session)
    ensures r.historicalData == Upsert(s.historicalData, CurrentSnapshot(s))
    ensures r.entries == s.entries && r.teamGoal == s.teamGoal
    ensures SameSetting(r, s)
  {
    UpsertHoldsOneForKey(s.historicalData, CurrentSnapshot(s));
    Reload(s.(historicalData := Upsert(s.historicalData, CurrentSnapshot(s))))
  }

  /** One firing of the autosave interval. The interval only exists while `currentUser` is
      truthy; otherwise nothing happens. */
  function AutosaveTick(s: Session): (r: Session)
    ensures !IsLoggedIn(s.currentUser) ==> r == s
    ensures IsLoggedIn(s.currentUser) ==> r == SaveCurrentData(s)
  {
    if IsLoggedIn(s.currentUser) then SaveCurrentData(s) else s
  }

  /** `updateEntry` on the working copy; the load effect does not depend on `entries`, so
      nothing else runs. */
  function UpdateEntry(s: Session, id: string, u: FieldUpdate, stamp: string): (r: Session)
    ensures r.entries == UpdateEntries(s.entries, id, u, stamp)
    ensures SameSetting(r, s) && r.teamGoal == s.teamGoal && r.historicalData == s.historicalData
  {
    s.(entries := UpdateEntries(s.entries, id, u, stamp))
  }

  /** The `onSave` of cell `c` in the row of entry `id`, closing the field as
      `handleSave` does. A value the cell cannot hold changes no entry. */
  function CommitCell(s: Session, id: string, c: Cell, v: Value, stamp: string): (r: Session)
    ensures r.editingField.None? && r.historicalData == s.historicalData
    ensures RouteSave(c, v).Some? ==> r.entries == UpdateEntries(s.entries, id, RouteSave(c, v).value, stamp)
    ensures RouteSave(c, v).None? ==> r.entries == s.entries
    ensures r.teamGoal == s.teamGoal && r.selectedDate == s.selectedDate
    ensures r.currentUser == s.currentUser && r.calendarViewOpen == s.calendarViewOpen
  {
    var u := RouteSave(c, v);
    var s' := if u.Some? then UpdateEntry(s, id, u.value, stamp) else s;
    s'.(editingField := None)
  }

  /** `setTeamGoal`. */
  function SetTeamGoal(s: Session, goal: real): (r: Session)
    ensures r.teamGoal == goal && r.entries == s.entries
    ensures SameSetting(r, s) && r.historicalData == s.historicalData
  {
    s.(teamGoal := goal)
  }

  /** `handleLogin` and `handleLogout`. */
  function Login(s: Session, userName: string): (r: Session)
    ensures r.currentUser == Some(userName)
    ensures r == Session(s.selectedDate, s.entries, s.teamGoal, s.historicalData, r.currentUser, s.editingField, s.calendarViewOpen)
  {
    s.(currentUser := Some(userName))
  }

  function Logout(s: Session): (r: Session)
    ensures r.currentUser.None? && !IsLoggedIn(r.currentUser)
    ensures r == Session(s.selectedDate, s.entries, s.teamGoal, s.historicalData, None, s.editingField, s.calendarViewOpen)
  {
    s.(currentUser := None)
  }

  /** The `teamTotal` shown and exported. */
  function SessionTeamTotal(s: Session): real {
    TeamTotal(s.entries)
  }

  // ---------------------------------------------------------------------------
  // Properties of the session

  lemma MountIsValid(today: Date)
    ensures Valid(Mount(today))
  {
    InitialIdsUnique();
  }

  /** Saving, switching days, editing and the autosave all keep the session valid. */
  lemma SaveKeepsValid(s: Session)
    requires Valid(s)
    ensures Valid(SaveCurrentData(s)) && Valid(AutosaveTick(s))
  {
    var snap := CurrentSnapshot(s);
    var r := Upsert(s.historicalData, snap);
    var kept := Filter(s.historicalData, (d: DailyData) => d.date != snap.date);
    assert r == kept + [snap];
    forall i | 0 <= i < |r|
      ensures IdsUnique(r[i].entries)
    {
      if i < |r| - 1 {
        assert r[i] in s.historicalData;
      }
    }
  }

  lemma SelectDateKeepsValid(s: Session, d: Date)
    requires Valid(s)
    ensures Valid(SelectDate(s, d))
  {
    InitialIdsUnique();
  }

  lemma UpdateKeepsValid(s: Session, id: string, u: FieldUpdate, stamp: string)
    requires Valid(s)
    ensures Valid(UpdateEntry(s, id, u, stamp))
  {
    UpdateKeepsIdsUnique(s.entries, id, u, stamp);
  }

  /** After a save the store holds exactly one snapshot for the selected day, carrying the
      working copy, and every other day's snapshots are as they were. */
  lemma SaveStoresWorkingCopy(s: Session, other: string)
    ensures var r := SaveCurrentData(s); var key := DateKey(s.selectedDate);
      && CountKey(r.historicalData, key) == 1
      && Lookup(r.historicalData, key) == Some(DailyData(key, s.entries, s.teamGoal))
      && (other != key ==> ForKey(r.historicalData, other) == ForKey(s.historicalData, other))
  {
    UpsertHoldsOneForKey(s.historicalData, CurrentSnapshot(s));
    if other != DateKey(s.selectedDate) {
      UpsertKeepsOtherKeys(s.historicalData, CurrentSnapshot(s), other);
    }
  }

  /** Saving twice without a change in between is saving once. */
  lemma SaveIdempotent(s: Session)
    ensures SaveCurrentData(SaveCurrentData(s)) == SaveCurrentData(s)
  {
    UpsertIdempotent(s.historicalData, CurrentSnapshot(s));
  }

  /** Leaving a saved day and coming back restores exactly what was saved. */
  lemma SaveLeaveReturn(s: Session, elsewhere: Date)
    ensures var back := SelectDate(SelectDate(SaveCurrentData(s), elsewhere), s.selectedDate);
      back.entries == s.entries && back.teamGoal == s.teamGoal
  {
    UpsertHoldsOneForKey(s.historicalData, CurrentSnapshot(s));
  }

  /** The load replaces the working copy: two sessions that differ only in their working
      copies show the same figures once they select the same day. */
  lemma LoadNeverMerges(s: Session, entries: seq<Entry>, goal: real, d: Date)
    ensures SelectDate(s, d) == SelectDate(s.(entries := entries, teamGoal := goal), d)
  {
  }

  /** Edits to a day that was never saved are lost when switching away and back. */
  lemma UnsavedEditsAreDiscarded(s: Session, id: string, u: FieldUpdate, stamp: string, elsewhere: Date)
    requires !HasRecord(s.historicalData, s.selectedDate)
    ensures var back := SelectDate(SelectDate(UpdateEntry(s, id, u, stamp), elsewhere), s.selectedDate);
      back.entries == InitialData && back.teamGoal == DefaultTeamGoal
  {
  }

  /** The snapshot is a copy: editing the working copy afterwards leaves the store alone. */
  lemma EditAfterSaveKeepsSnapshot(s: Session, id: string, u: FieldUpdate, stamp: string)
    ensures var saved := SaveCurrentData(s);
      && UpdateEntry(saved, id, u, stamp).historicalData == saved.historicalData
      && Lookup(UpdateEntry(saved, id, u, stamp).historicalData, DateKey(s.selectedDate))
         == Some(CurrentSnapshot(s))
  {
    UpsertHoldsOneForKey(s.historicalData, CurrentSnapshot(s));
  }

  /** Logging out stops the autosave: a later tick changes nothing. */
  lemma NoAutosaveAfterLogout(s: Session)
    ensures AutosaveTick(Logout(s)) == Logout(s)
    ensures AutosaveTick(Logout(s)).historicalData == s.historicalData
  {
  }
}
