/**
 * The board (components/KanbanBoard.tsx): four columns in a fixed order, each
 * given the tasks of its category and showing them in column order.
 */
module KanbanBoard {
  import opened Types
  import opened Seqs
  import opened Column

  /** The columns, left to right. */
  const Categories: seq<Category> := [Lavoro, Casa, Corsi, Allenamento]

  /** Every category has exactly one column. */
  lemma CategoriesListEachOnce(c: Category)
    ensures c in Categories
    ensures forall i, j :: 0 <= i < j < |Categories| ==> Categories[i] != Categories[j]
  {
  }

  /** `tasks.filter(t => t.category === cat)`. */
  function OfCategory(ts: seq<Task>, c: Category): seq<Task>
  {
    Filter(ts, (t: Task) => t.category == c)
  }

  datatype ColumnView = ColumnView(category: Category, tasks: seq<Task>)

  /** What the board shows: each category's tasks in column order, columns in the fixed order. */
  function Board(ts: seq<Task>): (r: seq<ColumnView>)
    ensures |r| == |Categories|
    ensures forall i :: 0 <= i < |r| ==> r[i].category == Categories[i]
  {
    seq(|Categories|, i requires 0 <= i < |Categories| =>
      ColumnView(Categories[i], SortColumn(OfCategory(ts, Categories[i]))))
  }

  /**
   * A column receives exactly the tasks of its category, in list order, each
   * as often as the list holds it.
   */
  lemma ColumnContents(ts: seq<Task>, c: Category)
    ensures IsSubsequence(OfCategory(ts, c), ts)
    ensures forall x :: x in OfCategory(ts, c) <==> x in ts && x.category == c
    ensures forall x :: multiset(OfCategory(ts, c))[x] == if x.category == c then multiset(ts)[x] else 0
  {
    FilterIsSubsequence(ts, (t: Task) => t.category == c);
    FilterMultiset(ts, (t: Task) => t.category == c);
  }

  /** The four column filters of `ts`, as one multiset. */
  function AllColumns(ts: seq<Task>): multiset<Task>
  {
    multiset(OfCategory(ts, Lavoro)) + multiset(OfCategory(ts, Casa))
    + multiset(OfCategory(ts, Corsi)) + multiset(OfCategory(ts, Allenamento))
  }

  lemma OfCategoryCons(t: Task, rest: seq<Task>, c: Category)
    ensures multiset(OfCategory([t] + rest, c)) == (if t.category == c then multiset{t} else multiset{}) + multiset(OfCategory(rest, c))
  {
    assert ([t] + rest)[1..] == rest;
  }

  lemma AllColumnsCons(t: Task, rest: seq<Task>)
    ensures AllColumns([t] + rest) == multiset{t} + AllColumns(rest)
  {
    OfCategoryCons(t, rest, Lavoro);
    OfCategoryCons(t, rest, Casa);
    OfCategoryCons(t, rest, Corsi);
    OfCategoryCons(t, rest, Allenamento);
  }

  /** The four category filters split the tasks without loss or duplication. */
  lemma {:induction false} FiltersPartition(ts: seq<Task>)
    ensures multiset(ts) == AllColumns(ts)
  {
    if ts != [] {
      FiltersPartition(ts[1..]);
      AllColumnsCons(ts[0], ts[1..]);
      assert [ts[0]] + ts[1..] == ts;
    }
  }

  /**
   * The board partitions the tasks: the four columns together hold each task
   * exactly as often as the list does, so their sizes add up to its length.
   */
  lemma BoardPartitions(ts: seq<Task>)
    ensures var b := Board(ts);
      multiset(b[0].tasks + b[1].tasks + b[2].tasks + b[3].tasks) == multiset(ts)
    ensures var b := Board(ts);
      |b[0].tasks| + |b[1].tasks| + |b[2].tasks| + |b[3].tasks| == |ts|
  {
    var b := Board(ts);
    var all := b[0].tasks + b[1].tasks + b[2].tasks + b[3].tasks;
    SortColumnCorrect(OfCategory(ts, Lavoro));
    SortColumnCorrect(OfCategory(ts, Casa));
    SortColumnCorrect(OfCategory(ts, Corsi));
    SortColumnCorrect(OfCategory(ts, Allenamento));
    FiltersPartition(ts);
    assert multiset(all) == multiset(ts);
    assert |all| == |multiset(all)| == |multiset(ts)| == |ts|;
  }

  /** Each task appears in the column of its own category and in no other. */
  lemma EachTaskInOneColumn(ts: seq<Task>, x: Task, i: nat)
    requires x in ts && i < |Categories|
    ensures x in Board(ts)[i].tasks <==> Categories[i] == x.category
  {
    var c := Categories[i];
    SortColumnCorrect(OfCategory(ts, c));
    ColumnContents(ts, c);
    assert x in Board(ts)[i].tasks <==> x in multiset(Board(ts)[i].tasks);
  }
}
