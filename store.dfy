/**
 * The task list App.tsx keeps in component state, its three updates, and the
 * save effect that writes the list to local storage after every change. The
 * storage slot is a ghost snapshot: what is written there, not how.
 */
module Store {
  import opened Types
  import opened Seqs
  import opened NewTaskModal

  /** `prev.map(t => t.id === updated.id ? updated : t)`. */
  function Replace(ts: seq<Task>, updated: Task): (r: seq<Task>)
    ensures |r| == |ts|
    ensures forall i :: 0 <= i < |ts| ==> r[i] == if ts[i].id == updated.id then updated else ts[i]
  {
    if ts == [] then []
    else [if ts[0].id == updated.id then updated else ts[0]] + Replace(ts[1..], updated)
  }

  /** `prev.filter(t => t.id !== id)`. */
  function Remove(ts: seq<Task>, id: string): seq<Task>
  {
    Filter(ts, (t: Task) => t.id != id)
  }

  /** No two tasks share an id. The store does not enforce it; some lemmas below assume it. */
  predicate UniqueIds(ts: seq<Task>)
  {
    forall i, j :: 0 <= i < j < |ts| ==> ts[i].id != ts[j].id
  }

  // ---------------------------------------------------------------------------
  // Update

  /** Replacing keeps every id in its place. */
  lemma ReplaceKeepsIds(ts: seq<Task>, updated: Task)
    ensures Ids(Replace(ts, updated)) == Ids(ts)
  {
  }

  /** Replacing a task whose id no task has changes nothing. */
  lemma ReplaceAbsentIsNoOp(ts: seq<Task>, updated: Task)
    requires updated.id !in Ids(ts)
    ensures Replace(ts, updated) == ts
  {
    forall i | 0 <= i < |ts| ensures Replace(ts, updated)[i] == ts[i] {
      assert Ids(ts)[i] == ts[i].id;
    }
  }

  /** Replacing twice with the same task is replacing once. */
  lemma ReplaceIdempotent(ts: seq<Task>, updated: Task)
    ensures Replace(Replace(ts, updated), updated) == Replace(ts, updated)
  {
  }

  /** After replacing, the updated task is in the list exactly when its id was. */
  lemma ReplaceInstalls(ts: seq<Task>, updated: Task)
    ensures updated in Replace(ts, updated) <==> updated.id in Ids(ts)
    ensures forall x :: x in Replace(ts, updated) && x.id == updated.id ==> x == updated
  {
    if updated.id in Ids(ts) {
      var i :| 0 <= i < |ts| && Ids(ts)[i] == updated.id;
      assert Replace(ts, updated)[i] == updated;
    }
    if updated in Replace(ts, updated) {
      var i :| 0 <= i < |ts| && Replace(ts, updated)[i] == updated;
      assert Ids(ts)[i] == ts[i].id == updated.id;
    }
  }

  // ---------------------------------------------------------------------------
  // Delete

  /**
   * Deleting keeps exactly the tasks with another id, in their order, each as
   * often as before.
   */
  lemma RemoveKeepsOthers(ts: seq<Task>, id: string)
    ensures forall x :: x in Remove(ts, id) <==> x in ts && x.id != id
    ensures IsSubsequence(Remove(ts, id), ts)
    ensures forall x :: multiset(Remove(ts, id))[x] == if x.id != id then multiset(ts)[x] else 0
  {
    FilterIsSubsequence(ts, (t: Task) => t.id != id);
    FilterMultiset(ts, (t: Task) => t.id != id);
  }

  /** Deleting an id no task has changes nothing. */
  lemma RemoveAbsentIsNoOp(ts: seq<Task>, id: string)
    requires id !in Ids(ts)
    ensures Remove(ts, id) == ts
  {
    forall x | x in ts ensures x.id != id {
      var i :| 0 <= i < |ts| && ts[i] == x;
      assert Ids(ts)[i] == x.id;
    }
    FilterAll(ts, (t: Task) => t.id != id);
  }

  /** Deleting twice is deleting once. */
  lemma RemoveIdempotent(ts: seq<Task>, id: string)
    ensures Remove(Remove(ts, id), id) == Remove(ts, id)
  {
    RemoveKeepsOthers(ts, id);
    FilterAll(Remove(ts, id), (t: Task) => t.id != id);
  }

  /** Adding a task with a fresh id and then deleting that id restores the list. */
  lemma AddThenRemove(ts: seq<Task>, t: Task)
    requires t.id !in Ids(ts)
    ensures Remove(ts + [t], t.id) == ts
  {
    FilterAppend(ts, [t], (x: Task) => x.id != t.id);
    RemoveAbsentIsNoOp(ts, t.id);
  }

  // ---------------------------------------------------------------------------
  // Unique ids

  lemma UniqueIdsAfterAdd(ts: seq<Task>, t: Task)
    requires UniqueIds(ts) && t.id !in Ids(ts)
    ensures UniqueIds(ts + [t])
  {
    forall i | 0 <= i < |ts| ensures ts[i].id != t.id {
      assert Ids(ts)[i] == ts[i].id;
    }
  }

  lemma UniqueIdsAfterReplace(ts: seq<Task>, updated: Task)
    requires UniqueIds(ts)
    ensures UniqueIds(Replace(ts, updated))
  {
    ReplaceKeepsIds(ts, updated);
    var r := Replace(ts, updated);
    forall i, j | 0 <= i < j < |r| ensures r[i].id != r[j].id {
      assert Ids(r)[i] == Ids(ts)[i] && Ids(r)[j] == Ids(ts)[j];
    }
  }

  lemma UniqueIdsCons(x: Task, rest: seq<Task>)
    requires UniqueIds(rest) && forall y :: y in rest ==> y.id != x.id
    ensures UniqueIds([x] + rest)
  {
    var s := [x] + rest;
    forall i, j | 0 <= i < j < |s| ensures s[i].id != s[j].id {
      assert s[j] == rest[j - 1];
      if i > 0 {
        assert s[i] == rest[i - 1];
      }
    }
  }

  lemma {:induction false} UniqueIdsAfterRemove(ts: seq<Task>, id: string)
    requires UniqueIds(ts)
    ensures UniqueIds(Remove(ts, id))
  {
    if ts != [] {
      assert UniqueIds(ts[1..]) by {
        forall i, j | 0 <= i < j < |ts[1..]| ensures ts[1..][i].id != ts[1..][j].id {
          assert ts[1..][i] == ts[i + 1] && ts[1..][j] == ts[j + 1];
        }
      }
      UniqueIdsAfterRemove(ts[1..], id);
      var rest := Remove(ts[1..], id);
      if ts[0].id != id {
        RemoveKeepsOthers(ts[1..], id);
        forall y | y in rest ensures y.id != ts[0].id {
          var k :| 0 <= k < |ts[1..]| && ts[1..][k] == y;
          assert ts[k + 1] == y;
        }
        UniqueIdsCons(ts[0], rest);
      }
    }
  }

  /**
   * With unique ids, saving a task whose fields are those the list already
   * holds for its id leaves the list as it was.
   */
  lemma ReplaceWithSameIsNoOp(ts: seq<Task>, t: Task)
    requires UniqueIds(ts) && t in ts
    ensures Replace(ts, t) == ts
  {
    var k :| 0 <= k < |ts| && ts[k] == t;
    forall i | 0 <= i < |ts| ensures Replace(ts, t)[i] == ts[i] {
      if i != k {
        assert ts[i].id != t.id;
      }
    }
  }

  // ---------------------------------------------------------------------------
  // The component's state

  class TaskStore {
    /** The `tasks` state. */
    var tasks: seq<Task>
    /** What the storage slot holds. */
    ghost var saved: seq<Task>

    /** The save effect has run: the slot holds the current list. */
    ghost predicate Valid()
      reads this
    {
      saved == tasks
    }

    /**
     * Mounting: the list starts empty and, when the slot held a non-empty
     * text, becomes what that text parses to (`stored`); the save effect then
     * writes it back.
     */
    constructor(stored: Option<seq<Task>>)
      ensures Valid()
      ensures tasks == if stored.Some? then stored.value else []
    {
      tasks := if stored.Some? then stored.value else [];
      saved := tasks;
    }

    /** `addTask`: the task goes at the end. */
    method AddTask(t: Task)
      requires Valid()
      modifies this
      ensures Valid()
      ensures tasks == old(tasks) + [t]
    {
      tasks := tasks + [t];
      saved := tasks;
    }

    /** `updateTask`: every task with the updated task's id is replaced by it. */
    method UpdateTask(updated: Task)
      requires Valid()
      modifies this
      ensures Valid()
      ensures tasks == Replace(old(tasks), updated)
    {
      tasks := Replace(tasks, updated);
      saved := tasks;
    }

    /** `deleteTask`: every task with that id goes. */
    method DeleteTask(id: string)
      requires Valid()
      modifies this
      ensures Valid()
      ensures tasks == Remove(old(tasks), id)
    {
      tasks := Remove(tasks, id);
      saved := tasks;
    }

    /** The form's `onSave`: an update while a task is being edited, an addition otherwise. */
    method Save(editing: Option<Task>, t: Task)
      requires Valid()
      modifies this
      ensures Valid()
      ensures tasks == if editing.Some? then Replace(old(tasks), t) else old(tasks) + [t]
    {
      if editing.Some? {
        UpdateTask(t);
      } else {
        AddTask(t);
      }
    }
  }

  /**
   * Opening a stored task for editing and saving the form unchanged leaves
   * the list as it was, when ids are unique.
   */
  lemma EditUnchangedKeepsList(ts: seq<Task>, t: Task, lookup: MapsInfo, freshId: string)
    requires UniqueIds(ts) && t in ts
    requires Present(t.id) && Present(t.title) && Present(t.location)
    ensures Submit(Some(t), Prefill(Some(t)), lookup, freshId) == Some(t)
    ensures Replace(ts, t) == ts
  {
    EditUnchangedIsIdentity(t, lookup, freshId);
    ReplaceWithSameIsNoOp(ts, t);
  }
}
