/**
 * One board column: the order in which a column shows its tasks
 * (components/Column.tsx). The column sorts a copy of the list it receives,
 * so the caller's list is never changed; here that is simply a function.
 */
module Column {
  import opened Types
  import opened Seqs
  import opened Collation
  import opened StableSort

  /**
   * The column's comparator: dated tasks first, by date; within equal or
   * missing dates, timed tasks first, by time; otherwise a tie.
   */
  function CompareTasks(a: Task, b: Task): int
  {
    var byTime :=
      if Present(a.time) && Present(b.time) then Compare(a.time, b.time)
      else if Present(a.time) then -1
      else if Present(b.time) then 1
      else 0;
    if Present(a.date) && Present(b.date) then
      (if a.date != b.date then Compare(a.date, b.date) else byTime)
    else if Present(a.date) then -1
    else if Present(b.date) then 1
    else byTime
  }

  /**
   * The intended order stated on its own: lexicographic on the key
   * (date absent, date, time absent, time), with "present" before "absent".
   */
  ghost predicate KeyBefore(a: Task, b: Task)
  {
    || (Present(a.date) && !Present(b.date))
    || (Present(a.date) == Present(b.date) && LexBefore(a.date, b.date))
    || (a.date == b.date && Present(a.time) && !Present(b.time))
    || (a.date == b.date && Present(a.time) == Present(b.time) && LexBefore(a.time, b.time))
  }

  /** The comparator says "before" exactly on the key order and "tie" exactly on equal dates and times. */
  lemma CompareTasksMeaning(a: Task, b: Task)
    ensures CompareTasks(a, b) < 0 <==> KeyBefore(a, b)
    ensures CompareTasks(a, b) == 0 <==> a.date == b.date && a.time == b.time
  {
    CompareIsLexicographic(a.date, b.date);
    CompareIsLexicographic(a.time, b.time);
    CompareZero(a.date, b.date);
    CompareZero(a.time, b.time);
    CompareIsLexicographic(a.date, a.date);
    CompareZero(a.date, a.date);
    CompareIsLexicographic(a.time, a.time);
    CompareZero(a.time, a.time);
  }

  lemma CompareTasksAntisymmetric(a: Task, b: Task)
    ensures CompareTasks(a, b) < 0 <==> CompareTasks(b, a) > 0
  {
    CompareAntisymmetric(a.date, b.date);
    CompareAntisymmetric(a.time, b.time);
  }

  lemma CompareTasksTransitive(a: Task, b: Task, c: Task)
    requires CompareTasks(a, b) <= 0 && CompareTasks(b, c) <= 0
    ensures CompareTasks(a, c) <= 0
  {
    InColumnOrderIff(a, b);
    InColumnOrderIff(b, c);
    InColumnOrderIff(a, c);
    CompareZero(a.date, b.date);
    CompareAntisymmetric(a.date, b.date);
    if Present(a.date) && Present(c.date) {
      CompareTransitive(a.date, b.date, c.date);
    }
    if a.date == c.date && Present(a.time) && Present(c.time) && Present(b.time) {
      CompareTransitive(a.time, b.time, c.time);
    }
  }

  /** The column comparator is consistent, so the sort's result is well defined. */
  lemma ColumnComparatorConsistent()
    ensures Consistent(CompareTasks)
  {
    forall a, b ensures CompareTasks(a, b) < 0 <==> CompareTasks(b, a) > 0 {
      CompareTasksAntisymmetric(a, b);
    }
    forall a, b, c | CompareTasks(a, b) <= 0 && CompareTasks(b, c) <= 0 ensures CompareTasks(a, c) <= 0 {
      CompareTasksTransitive(a, b, c);
    }
  }

  /** `[...tasks].sort(comparator)`. */
  function SortColumn(tasks: seq<Task>): seq<Task>
  {
    Sort(tasks, CompareTasks)
  }

  /** `a` may stand before `b` in a column, in the terms the source's comments use. */
  predicate InColumnOrder(a: Task, b: Task)
  {
    && (Present(b.date) ==> Present(a.date))
    && (Present(a.date) && Present(b.date) ==> Compare(a.date, b.date) <= 0)
    && (a.date == b.date && Present(b.time) ==> Present(a.time))
    && (a.date == b.date && Present(a.time) && Present(b.time) ==> Compare(a.time, b.time) <= 0)
  }

  /** Every task stands in column order with every later one. */
  predicate ColumnOrdered(r: seq<Task>)
  {
    forall i, j :: 0 <= i < j < |r| ==> InColumnOrder(r[i], r[j])
  }

  /** "May stand before" is exactly "the comparator does not put it after". */
  lemma InColumnOrderIff(a: Task, b: Task)
    ensures InColumnOrder(a, b) <==> CompareTasks(a, b) <= 0
  {
    CompareZero(a.date, b.date);
    CompareZero(a.time, b.time);
  }

  /** Column order is exactly "sorted by the comparator". */
  lemma ColumnOrderedIsSorted(r: seq<Task>)
    ensures ColumnOrdered(r) <==> SortedBy(r, CompareTasks)
  {
    forall i, j | 0 <= i < j < |r| ensures InColumnOrder(r[i], r[j]) <==> CompareTasks(r[i], r[j]) <= 0 {
      InColumnOrderIff(r[i], r[j]);
    }
  }

  /** The tasks of `ts` scheduled at date `d` and time `t`, in their order in `ts`. */
  function Slot(ts: seq<Task>, d: string, t: string): seq<Task>
  {
    Filter(ts, (x: Task) => x.date == d && x.time == t)
  }

  /** The comparator's peers of `p` are the tasks sharing its date and time. */
  lemma {:induction false} PeersAreSlot(ts: seq<Task>, p: Task)
    ensures Peers(ts, p, CompareTasks) == Slot(ts, p.date, p.time)
  {
    if ts != [] {
      PeersAreSlot(ts[1..], p);
      CompareTasksMeaning(ts[0], p);
    }
  }

  /** A task with the given date and time, used to name a slot. */
  function Pivot(d: string, t: string): (p: Task)
    ensures p.date == d && p.time == t
  {
    Task("", "", "", "", Lavoro, t, d, "", "")
  }

  /**
   * The sorted column holds the same tasks, in column order, and tasks that
   * share a date and time keep their input order.
   */
  lemma SortColumnCorrect(ts: seq<Task>)
    ensures multiset(SortColumn(ts)) == multiset(ts)
    ensures ColumnOrdered(SortColumn(ts))
    ensures forall d, t :: Slot(SortColumn(ts), d, t) == Slot(ts, d, t)
  {
    ColumnComparatorConsistent();
    SortSorted(ts, CompareTasks);
    ColumnOrderedIsSorted(SortColumn(ts));
    forall d, t ensures Slot(SortColumn(ts), d, t) == Slot(ts, d, t) {
      var p := Pivot(d, t);
      SortStable(ts, p, CompareTasks);
      PeersAreSlot(ts, p);
      PeersAreSlot(SortColumn(ts), p);
    }
  }

  /** Any list in column order that keeps the input order within each slot is the sorted column. */
  lemma SortColumnDetermined(ts: seq<Task>, r: seq<Task>)
    requires ColumnOrdered(r)
    requires forall d, t :: Slot(r, d, t) == Slot(ts, d, t)
    ensures r == SortColumn(ts)
  {
    ColumnComparatorConsistent();
    ColumnOrderedIsSorted(r);
    forall p ensures Peers(r, p, CompareTasks) == Peers(ts, p, CompareTasks) {
      PeersAreSlot(r, p);
      PeersAreSlot(ts, p);
      assert Slot(r, p.date, p.time) == Slot(ts, p.date, p.time);
    }
    SortIsDetermined(ts, r, CompareTasks);
  }

  /** Sorting a column that is already in column order changes nothing; in particular sorting twice is sorting once. */
  lemma SortColumnIdempotent(ts: seq<Task>)
    ensures ColumnOrdered(ts) ==> SortColumn(ts) == ts
    ensures SortColumn(SortColumn(ts)) == SortColumn(ts)
  {
    ColumnComparatorConsistent();
    if ColumnOrdered(ts) {
      ColumnOrderedIsSorted(ts);
      SortSortedIsIdentity(ts, CompareTasks);
    }
    SortColumnCorrect(ts);
    ColumnOrderedIsSorted(SortColumn(ts));
    SortSortedIsIdentity(SortColumn(ts), CompareTasks);
  }
}
