/** The `historicalData` list of `CommissionTable`: saved `DailyData` snapshots, looked up
    and replaced by their `yyyy-MM-dd` date key. */
module SnapshotStore {
  import opened Collections
  import opened Commission
  import opened Dates

  type Store = seq<DailyData>

  /** At most one snapshot per date key. */
  predicate KeysUnique(s: Store) {
    forall i, j :: 0 <= i < j < |s| ==> s[i].date != s[j].date
  }

  /** How many snapshots the store holds for `key`. */
  function CountKey(s: Store, key: string): nat {
    |Filter(s, (d: DailyData) => d.date == key)|
  }

  /** The snapshots for `key`, in store order. */
  function ForKey(s: Store, key: string): Store {
    Filter(s, (d: DailyData) => d.date == key)
  }

  /** `historicalData.find(d => d.date === dateKey)`. */
  function Lookup(s: Store, key: string): (r: Option<DailyData>)
    ensures r.None? <==> forall i :: 0 <= i < |s| ==> s[i].date != key
    ensures r.Some? ==> r.value.date == key && r.value in s
  {
    Find(s, (d: DailyData) => d.date == key)
  }

  /** The save in `saveCurrentData`: drop the snapshots for the key, append the new one. */
  function Upsert(s: Store, snap: DailyData): (r: Store)
    ensures |r| > 0 && r[|r| - 1] == snap
    ensures forall i :: 0 <= i < |r| - 1 ==> r[i].date != snap.date
    ensures KeysUnique(s) ==> KeysUnique(r)
  {
    var kept := Filter(s, (d: DailyData) => d.date != snap.date);
    assert KeysUnique(s) ==> KeysUnique(kept + [snap]) by {
      if KeysUnique(s) {
        FilterKeepsUnique(s, snap.date);
      }
    }
    kept + [snap]
  }

  lemma {:induction false} FilterKeepsUnique(s: Store, key: string)
    requires KeysUnique(s)
    ensures KeysUnique(Filter(s, (d: DailyData) => d.date != key))
  {
    if |s| > 0 {
      FilterKeepsUnique(s[1..], key);
      var rest := Filter(s[1..], (d: DailyData) => d.date != key);
      forall i | 0 <= i < |rest|
        ensures rest[i].date != s[0].date
      {
        var j :| 0 <= j < |s[1..]| && s[1..][j] == rest[i];
        assert s[j + 1] == rest[i];
      }
    }
  }

  /** After a save the store holds exactly one snapshot for its key, and it is the new one. */
  lemma UpsertHoldsOneForKey(s: Store, snap: DailyData)
    ensures CountKey(Upsert(s, snap), snap.date) == 1
    ensures ForKey(Upsert(s, snap), snap.date) == [snap]
    ensures Lookup(Upsert(s, snap), snap.date) == Some(snap)
  {
    var p := (d: DailyData) => d.date == snap.date;
    var q := (d: DailyData) => d.date != snap.date;
    var kept := Filter(s, q);
    FilterConcat(kept, [snap], p);
    FilterKeepsNone(kept, p);
    assert Filter([snap], p) == [snap];
  }

  /** A save keeps, for every other key, the same snapshots in the same order. */
  lemma UpsertKeepsOtherKeys(s: Store, snap: DailyData, key: string)
    requires key != snap.date
    ensures ForKey(Upsert(s, snap), key) == ForKey(s, key)
    ensures Lookup(Upsert(s, snap), key) == Lookup(s, key)
  {
    var p := (d: DailyData) => d.date == key;
    var q := (d: DailyData) => d.date != snap.date;
    FilterConcat(Filter(s, q), [snap], p);
    assert Filter([snap], p) == [];
    FilterNarrow(s, q, p);
    LookupIsFirstForKey(s, key);
    LookupIsFirstForKey(Upsert(s, snap), key);
  }

  /** The snapshots a save keeps are the old store minus those for the key, in order. */
  lemma UpsertKeepsOrder(s: Store, snap: DailyData)
    ensures var r := Upsert(s, snap); IsSubseq(r[..|r| - 1], s)
  {
    var r := Upsert(s, snap);
    assert r[..|r| - 1] == Filter(s, (d: DailyData) => d.date != snap.date);
    FilterIsSubseq(s, (d: DailyData) => d.date != snap.date);
  }

  /** Saving the same snapshot twice gives the same store as saving it once. */
  lemma UpsertIdempotent(s: Store, snap: DailyData)
    ensures Upsert(Upsert(s, snap), snap) == Upsert(s, snap)
  {
    var q := (d: DailyData) => d.date != snap.date;
    var kept := Filter(s, q);
    FilterConcat(kept, [snap], q);
    assert Filter([snap], q) == [];
    FilterKeepsAll(kept, q);
  }

  /** `find` returns the first snapshot for the key. */
  lemma {:induction false} LookupIsFirstForKey(s: Store, key: string)
    ensures Lookup(s, key) == if |ForKey(s, key)| == 0 then None else Some(ForKey(s, key)[0])
  {
    if |s| > 0 {
      LookupIsFirstForKey(s[1..], key);
    }
  }

  /** `hasRecord` of `CalendarView`: some snapshot carries the day's key. */
  function HasRecord(s: Store, d: Date): (r: bool)
    ensures r <==> Lookup(s, DateKey(d)).Some?
  {
    Any(s, (x: DailyData) => x.date == DateKey(d))
  }

  /** After saving day `d`, the calendar marks `d`; every other day from year 1 on keeps its
      mark. */
  lemma HasRecordAfterUpsert(s: Store, d: Date, entries: seq<Entry>, goal: real, other: Date)
    requires d.year >= 1 && other.year >= 1
    ensures HasRecord(Upsert(s, DailyData(DateKey(d), entries, goal)), d)
    ensures other != d ==>
      HasRecord(Upsert(s, DailyData(DateKey(d), entries, goal)), other) == HasRecord(s, other)
  {
    var snap := DailyData(DateKey(d), entries, goal);
    UpsertHoldsOneForKey(s, snap);
    KeyInjective(d, other);
    if other != d {
      UpsertKeepsOtherKeys(s, snap, DateKey(other));
    }
  }
}
