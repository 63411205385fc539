/** The records of `src/types/commission.ts` and the one total every component derives
    from them (`getTotalCommission`, written out three times in the source and once here). */
module Commission {
  import opened Collections

  /** `CommissionEntry`: one person's figures for one day. Money is exact (`real`). */
  datatype Entry = Entry(
    id: string,
    name: string,
    postpaid: real,
    indTv: real,
    zbytek: real,
    dailyGoal: real,
    lastUpdated: string)

  /** `DailyData`: the snapshot saved for one `yyyy-MM-dd` date key. */
  datatype DailyData = DailyData(date: string, entries: seq<Entry>, teamGoal: real)

  /** The numeric columns of an entry. */
  datatype Amount = Postpaid | IndTv | Zbytek | DailyGoal

  /** The `[field]: value` part of `updateEntry`, for the fields the table edits. */
  datatype FieldUpdate = SetName(name: string) | SetAmount(field: Amount, amount: real)

  function AmountOf(e: Entry, f: Amount): real {
    match f
    case Postpaid => e.postpaid
    case IndTv => e.indTv
    case Zbytek => e.zbytek
    case DailyGoal => e.dailyGoal
  }

  /** The three contributions that make up a total (the daily goal is not one of them). */
  predicate IsContribution(f: Amount) {
    f != DailyGoal
  }

  /** `getTotalCommission`. */
  function EntryTotal(e: Entry): (r: real)
    ensures NonNegative(e) ==> e.postpaid <= r && e.indTv <= r && e.zbytek <= r
  {
    e.postpaid + e.indTv + e.zbytek
  }

  predicate NonNegative(e: Entry) {
    e.postpaid >= 0.0 && e.indTv >= 0.0 && e.zbytek >= 0.0
  }

  /** `entries.reduce((sum, entry) => sum + getTotalCommission(entry), 0)`; addition of
      reals is associative, so summing from the front gives the same value. */
  function TeamTotal(es: seq<Entry>): (t: real)
    ensures (forall i :: 0 <= i < |es| ==> NonNegative(es[i])) ==> t >= 0.0
  {
    if |es| == 0 then 0.0 else EntryTotal(es[0]) + TeamTotal(es[1..])
  }

  /** The `reduce` itself: a running sum from the left, starting at `acc`. */
  function ReduceTotal(es: seq<Entry>, acc: real): real
    decreases |es|
  {
    if |es| == 0 then acc else ReduceTotal(es[1..], acc + EntryTotal(es[0]))
  }

  /** Summing from the left, as `reduce` does, gives the team total. */
  lemma {:induction false} ReduceIsTeamTotal(es: seq<Entry>, acc: real)
    ensures ReduceTotal(es, acc) == acc + TeamTotal(es)
    decreases |es|
  {
    if |es| > 0 {
      ReduceIsTeamTotal(es[1..], acc + EntryTotal(es[0]));
    }
  }

  predicate IdsUnique(es: seq<Entry>) {
    forall i, j :: 0 <= i < j < |es| ==> es[i].id != es[j].id
  }

  /** One entry after `{ ...entry, [field]: value, lastUpdated: stamp }`. */
  function ApplyUpdate(e: Entry, u: FieldUpdate, stamp: string): (r: Entry)
    ensures r.id == e.id && r.lastUpdated == stamp
    ensures u.SetName? ==> r.name == u.name && forall f :: AmountOf(r, f) == AmountOf(e, f)
    ensures u.SetAmount? ==> r.name == e.name && AmountOf(r, u.field) == u.amount
    ensures u.SetAmount? ==> forall f :: f != u.field ==> AmountOf(r, f) == AmountOf(e, f)
  {
    match u
    case SetName(n) => e.(name := n, lastUpdated := stamp)
    case SetAmount(Postpaid, a) => e.(postpaid := a, lastUpdated := stamp)
    case SetAmount(IndTv, a) => e.(indTv := a, lastUpdated := stamp)
    case SetAmount(Zbytek, a) => e.(zbytek := a, lastUpdated := stamp)
    case SetAmount(DailyGoal, a) => e.(dailyGoal := a, lastUpdated := stamp)
  }

  /** Setting one contribution moves the entry total by exactly the change in that field;
      renaming or changing the goal leaves the total alone. */
  lemma TotalAfterUpdate(e: Entry, u: FieldUpdate, stamp: string)
    ensures u.SetAmount? && IsContribution(u.field) ==>
      EntryTotal(ApplyUpdate(e, u, stamp)) == EntryTotal(e) - AmountOf(e, u.field) + u.amount
    ensures !(u.SetAmount? && IsContribution(u.field)) ==>
      EntryTotal(ApplyUpdate(e, u, stamp)) == EntryTotal(e)
  {
  }

  /** The total does not depend on the order in which two different fields were edited. */
  lemma TotalIndependentOfEditOrder(e: Entry, u: FieldUpdate, v: FieldUpdate, s1: string, s2: string)
    requires u.SetAmount? && v.SetAmount? && u.field != v.field
    ensures EntryTotal(ApplyUpdate(ApplyUpdate(e, u, s1), v, s2))
         == EntryTotal(ApplyUpdate(ApplyUpdate(e, v, s1), u, s2))
  {
  }

  lemma {:induction false} TeamTotalOfZeros(es: seq<Entry>)
    requires forall i :: 0 <= i < |es| ==> EntryTotal(es[i]) == 0.0
    ensures TeamTotal(es) == 0.0
  {
    if |es| > 0 {
      TeamTotalOfZeros(es[1..]);
    }
  }

  lemma {:induction false} TeamTotalConcat(a: seq<Entry>, b: seq<Entry>)
    ensures TeamTotal(a + b) == TeamTotal(a) + TeamTotal(b)
  {
    if |a| > 0 {
      assert (a + b)[1..] == a[1..] + b;
      TeamTotalConcat(a[1..], b);
    } else {
      assert a + b == b;
    }
  }

  /** Splitting the entries by any predicate splits the team total between the two parts. */
  lemma {:induction false} TeamTotalPartition(es: seq<Entry>, p: Entry -> bool)
    ensures TeamTotal(Filter(es, p)) + TeamTotal(Filter(es, Not(p))) == TeamTotal(es)
  {
    if |es| > 0 {
      TeamTotalPartition(es[1..], p);
      if p(es[0]) {
        assert Filter(es, p)[1..] == Filter(es[1..], p);
      } else {
        assert Filter(es, Not(p))[1..] == Filter(es[1..], Not(p));
      }
    }
  }
}
