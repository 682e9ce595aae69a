/**
 The secondary operations of `TaskManager`, built only from the kernel
 operations: the two remove-then-add mutators, the priority listing, the two
 completion filters and the choice of the next task. The listing and the next
 task follow the documented contract; the literal code of those two loops is
 in module `AsWritten`.

 The source walks the store with `for (Task task : this)`, whose order the
 interfaces leave open. Here that order is a parameter: any sequence that
 `Enumerates` the store's names.
 */
module Queries {
  import opened Tasks
  import opened Kernel

  /** `order` lists every name of the store exactly once: one possible iteration order. */
  predicate Enumerates(order: seq<string>, s: Store)
  {
    && (forall i, j :: 0 <= i < j < |order| ==> order[i] != order[j])
    && (forall k :: k in s ==> k in order)
    && (forall i :: 0 <= i < |order| ==> order[i] in s)
  }

  /** The store's tasks in iteration order, as the listing loops copy them out. */
  function Snapshot(s: Store, order: seq<string>): (xs: seq<Task>)
    requires forall i :: 0 <= i < |order| ==> order[i] in s
    ensures |xs| == |order|
    ensures forall i :: 0 <= i < |order| ==> xs[i] == s[order[i]]
  {
    if order == [] then [] else Snapshot(s, order[..|order| - 1]) + [s[order[|order| - 1]]]
  }

  /** Dropping the last name of an enumeration enumerates the store without that name. */
  lemma EnumeratesPrefix(s: Store, order: seq<string>)
    requires Enumerates(order, s) && |order| > 0
    ensures Enumerates(order[..|order| - 1], s - {order[|order| - 1]})
  {
    var n := |order| - 1;
    var pre := order[..n];
    forall k | k in s - {order[n]}
      ensures k in pre
    {
      assert k in order;
      var i :| 0 <= i < |order| && order[i] == k;
      assert pre[i] == k;
    }
  }

  /** Removing a key of a valid store removes exactly its task from the values. */
  lemma ValuesWithoutKey(s: Store, key: string)
    requires Valid(s) && key in s
    ensures multiset(s.Values) == multiset((s - {key}).Values) + multiset{s[key]}
  {
    var rest := s - {key};
    forall v
      ensures v in s.Values <==> v in rest.Values || v == s[key]
    {
      if v in s.Values {
        var k :| k in s && s[k] == v;
        if k != key {
          assert rest[k] == v;
        }
      }
      if v in rest.Values {
        var k :| k in rest && rest[k] == v;
        assert s[k] == v;
      }
    }
    assert s.Values == rest.Values + {s[key]};
    assert s[key] !in rest.Values;
  }

  /** Enumerating the whole store yields each of its tasks exactly once. */
  lemma {:induction false} SnapshotIsValues(s: Store, order: seq<string>)
    requires Valid(s) && Enumerates(order, s)
    ensures multiset(Snapshot(s, order)) == multiset(s.Values)
    decreases |order|
  {
    if order == [] {
      assert s.Keys == {};
      assert s.Values == {};
    } else {
      var n := |order| - 1;
      var pre := order[..n];
      var rest := s - {order[n]};
      EnumeratesPrefix(s, order);
      SnapshotIsValues(rest, pre);
      assert Snapshot(s, pre) == Snapshot(rest, pre);
      ValuesWithoutKey(s, order[n]);
    }
  }

  /** A task is listed by an enumeration of a valid store iff it is one of the store's tasks. */
  lemma SnapshotMembers(s: Store, order: seq<string>)
    requires Valid(s) && Enumerates(order, s)
    ensures forall t :: t in Snapshot(s, order) <==> t in s.Values
  {
    SnapshotIsValues(s, order);
    assert forall t :: t in Snapshot(s, order) <==> t in multiset(Snapshot(s, order));
  }

  // ---------------------------------------------------------------------------
  // Remove-then-add mutators
  // ---------------------------------------------------------------------------

  /**
   `changeTaskPriority`: removes the task and adds it back with the new
   priority and its old due date. Because adding always creates an incomplete
   task, the completion flag is reset.
   */
  function ChangeTaskPriority(s: Store, name: string, newPriority: int): (r: Store)
    requires HasTask(s, name)
    ensures r.Keys == s.Keys
    ensures r[name] == Task(name, newPriority, s[name].dueDate, false)
    ensures forall k :: k in s && k != name ==> r[k] == s[k]
    ensures Valid(s) && newPriority >= 0 ==> Valid(r)
  {
    var (temp, rest) := RemoveTask(s, name);
    AddTask(rest, name, newPriority, temp.dueDate)
  }

  /**
   `rescheduleTask`: removes the task and adds it back with its old priority
   and the new due date; the completion flag is reset as above.
   */
  function RescheduleTask(s: Store, name: string, newDueDate: string): (r: Store)
    requires HasTask(s, name)
    ensures r.Keys == s.Keys
    ensures r[name] == Task(name, s[name].priority, newDueDate, false)
    ensures forall k :: k in s && k != name ==> r[k] == s[k]
    ensures Valid(s) ==> Valid(r)
  {
    var (temp, rest) := RemoveTask(s, name);
    AddTask(rest, name, temp.priority, newDueDate)
  }

  /**
   Re-setting a task's own priority or due date gives back the same store
   exactly when the task was incomplete: the remove-then-add pattern loses a
   completed flag.
   */
  lemma ResetToSameFieldsKeepsStoreIffIncomplete(s: Store, name: string)
    requires Valid(s) && HasTask(s, name)
    ensures ChangeTaskPriority(s, name, s[name].priority) == s <==> !IsTaskComplete(s, name)
    ensures RescheduleTask(s, name, s[name].dueDate) == s <==> !IsTaskComplete(s, name)
  {
    var r1 := ChangeTaskPriority(s, name, s[name].priority);
    var r2 := RescheduleTask(s, name, s[name].dueDate);
    if !IsTaskComplete(s, name) {
      assert r1 == s;
      assert r2 == s;
    } else {
      assert r1[name] != s[name];
      assert r2[name] != s[name];
    }
  }

  /** Changing a priority twice is the same as changing it once to the second value. */
  lemma ChangeTaskPriorityLastWins(s: Store, name: string, p: int, q: int)
    requires HasTask(s, name)
    ensures HasTask(ChangeTaskPriority(s, name, p), name)
    ensures ChangeTaskPriority(ChangeTaskPriority(s, name, p), name, q) == ChangeTaskPriority(s, name, q)
  {
    var a := ChangeTaskPriority(ChangeTaskPriority(s, name, p), name, q);
    var b := ChangeTaskPriority(s, name, q);
    assert a.Keys == b.Keys;
  }

  /** Rescheduling twice is the same as rescheduling once to the second date. */
  lemma RescheduleTaskLastWins(s: Store, name: string, d: string, e: string)
    requires HasTask(s, name)
    ensures HasTask(RescheduleTask(s, name, d), name)
    ensures RescheduleTask(RescheduleTask(s, name, d), name, e) == RescheduleTask(s, name, e)
  {
    var a := RescheduleTask(RescheduleTask(s, name, d), name, e);
    var b := RescheduleTask(s, name, e);
    assert a.Keys == b.Keys;
  }

  // ---------------------------------------------------------------------------
  // Completion filters
  // ---------------------------------------------------------------------------

  /** The tasks of `xs` whose completion flag is `done`, in their order in `xs`. */
  function WithCompletion(xs: seq<Task>, done: bool): (r: seq<Task>)
    ensures forall t :: t in r <==> t in xs && t.isComplete == done
    ensures |r| <= |xs|
  {
    if xs == [] then []
    else
      var last := xs[|xs| - 1];
      WithCompletion(xs[..|xs| - 1], done) + (if last.isComplete == done then [last] else [])
  }

  /** Filtering a sequence extended by one task extends the filtered sequence by that task if it qualifies. */
  lemma WithCompletionAppend(xs: seq<Task>, t: Task, done: bool)
    ensures WithCompletion(xs + [t], done) == WithCompletion(xs, done) + (if t.isComplete == done then [t] else [])
  {
    assert (xs + [t])[..|xs|] == xs;
  }

  /** The multiset of a filtered non-empty sequence, split at its last task. */
  lemma WithCompletionLast(xs: seq<Task>, done: bool)
    requires xs != []
    ensures multiset(WithCompletion(xs, done))
         == multiset(WithCompletion(xs[..|xs| - 1], done))
          + (if xs[|xs| - 1].isComplete == done then multiset{xs[|xs| - 1]} else multiset{})
  {
  }

  /** The two filters split any sequence of tasks: together they hold each task as often as `xs` does. */
  lemma {:induction false} WithCompletionPartition(xs: seq<Task>)
    ensures multiset(WithCompletion(xs, true)) + multiset(WithCompletion(xs, false)) == multiset(xs)
  {
    if xs != [] {
      var pre, last := xs[..|xs| - 1], xs[|xs| - 1];
      WithCompletionPartition(pre);
      assert multiset(xs) == multiset(pre) + multiset{last} by {
        assert xs == pre + [last];
      }
      WithCompletionLast(xs, true);
      WithCompletionLast(xs, false);
    }
  }

  /** Filtering an enumeration of a valid store keeps exactly its tasks with the wanted flag. */
  lemma StoreFilterMembers(s: Store, order: seq<string>, done: bool)
    requires Valid(s) && Enumerates(order, s)
    ensures forall t :: t in WithCompletion(Snapshot(s, order), done) <==> t in s.Values && t.isComplete == done
  {
    SnapshotMembers(s, order);
  }

  /** One step of a left-to-right filtering loop over `xs`. */
  lemma WithCompletionStep(xs: seq<Task>, i: nat, done: bool)
    requires i < |xs|
    ensures WithCompletion(xs[..i + 1], done)
         == WithCompletion(xs[..i], done) + (if xs[i].isComplete == done then [xs[i]] else [])
  {
    assert xs[..i + 1] == xs[..i] + [xs[i]];
    WithCompletionAppend(xs[..i], xs[i], done);
  }

  /** The `i`-th task of an enumeration of a valid store is stored under its own name. */
  lemma SnapshotEntry(s: Store, order: seq<string>, i: nat)
    requires Valid(s) && Enumerates(order, s) && i < |order|
    ensures HasTask(s, Snapshot(s, order)[i].name)
    ensures IsTaskComplete(s, Snapshot(s, order)[i].name) == Snapshot(s, order)[i].isComplete
  {
  }

  /**
   The loop shared by `listCompletedTasks` and `listIncompleteTasks`: walks
   the store and keeps the tasks whose `IsTaskComplete` answer is `done`.
   */
  method CollectByCompletion(s: Store, order: seq<string>, done: bool) returns (r: seq<Task>)
    requires Valid(s) && Enumerates(order, s)
    ensures r == WithCompletion(Snapshot(s, order), done)
  {
    var tasks := Snapshot(s, order);
    r := [];
    var i := 0;
    while i < |tasks|
      invariant 0 <= i <= |tasks|
      invariant r == WithCompletion(tasks[..i], done)
    {
      var task := tasks[i];
      SnapshotEntry(s, order, i);
      WithCompletionStep(tasks, i, done);
      if IsTaskComplete(s, task.name) == done {
        r := r + [task];
      }
      i := i + 1;
    }
    assert tasks[..i] == tasks;
  }

  /** `listCompletedTasks`: exactly the store's completed tasks. */
  method ListCompletedTasks(s: Store, order: seq<string>) returns (r: seq<Task>)
    requires Valid(s) && Enumerates(order, s)
    ensures r == WithCompletion(Snapshot(s, order), true)
    ensures forall t :: t in r <==> t in s.Values && t.isComplete
  {
    r := CollectByCompletion(s, order, true);
    StoreFilterMembers(s, order, true);
  }

  /** `listIncompleteTasks`: exactly the store's incomplete tasks. */
  method ListIncompleteTasks(s: Store, order: seq<string>) returns (r: seq<Task>)
    requires Valid(s) && Enumerates(order, s)
    ensures r == WithCompletion(Snapshot(s, order), false)
    ensures forall t :: t in r <==> t in s.Values && !t.isComplete
  {
    r := CollectByCompletion(s, order, false);
    StoreFilterMembers(s, order, false);
  }

  /**
   The completed and incomplete listings of a store are disjoint, and
   together they hold every task of the store exactly once.
   */
  lemma StoreCompletionPartition(s: Store, order: seq<string>)
    requires Valid(s) && Enumerates(order, s)
    ensures var snap := Snapshot(s, order);
            multiset(WithCompletion(snap, true)) + multiset(WithCompletion(snap, false)) == multiset(s.Values)
    ensures var snap := Snapshot(s, order);
            forall t :: !(t in WithCompletion(snap, true) && t in WithCompletion(snap, false))
  {
    SnapshotIsValues(s, order);
    WithCompletionPartition(Snapshot(s, order));
  }

  // ---------------------------------------------------------------------------
  // Priority listing
  // ---------------------------------------------------------------------------

  /** No task of `xs` comes before an earlier one in the listing order. */
  predicate SortedByRank(xs: seq<Task>)
  {
    forall i, j :: 0 <= i < j < |xs| ==> !Precedes(xs[j], xs[i])
  }

  /** In a sorted sequence, a task that comes first in the listing order sits at a lower index. */
  lemma SortedRespectsPrecedes(xs: seq<Task>)
    requires SortedByRank(xs)
    ensures forall i, j :: 0 <= i < |xs| && 0 <= j < |xs| && Precedes(xs[i], xs[j]) ==> i < j
  {
    forall i, j | 0 <= i < |xs| && 0 <= j < |xs| && Precedes(xs[i], xs[j])
      ensures i < j
    {
      PrecedesIrreflexive(xs[i]);
    }
  }

  /** The selection step: the index of a task that no other task of `list` comes before. */
  method IndexOfHighest(list: seq<Task>) returns (best: nat)
    requires |list| > 0
    ensures best < |list|
    ensures forall j :: 0 <= j < |list| ==> !Precedes(list[j], list[best])
  {
    best := 0;
    PrecedesIrreflexive(list[0]);
    var i := 1;
    while i < |list|
      invariant 1 <= i <= |list|
      invariant best < i
      invariant forall j :: 0 <= j < i ==> !Precedes(list[j], list[best])
    {
      if Precedes(list[i], list[best]) {
        forall j | 0 <= j < i
          ensures !Precedes(list[j], list[i])
        {
          if Precedes(list[j], list[i]) {
            PrecedesTransitive(list[j], list[i], list[best]);
          }
        }
        PrecedesIrreflexive(list[i]);
        best := i;
      }
      i := i + 1;
    }
  }

  /**
   One round of the selection sort: moving a task that nothing left in `list`
   comes before to the end of `sorted` keeps `sorted` sorted, keeps it ahead
   of everything still in `list`, and loses no task.
   */
  lemma SelectionStep(sorted: seq<Task>, list: seq<Task>, idx: nat)
    requires idx < |list|
    requires SortedByRank(sorted)
    requires forall i, j :: 0 <= i < |sorted| && 0 <= j < |list| ==> !Precedes(list[j], sorted[i])
    requires forall j :: 0 <= j < |list| ==> !Precedes(list[j], list[idx])
    ensures var rest := list[..idx] + list[idx + 1..];
            var sorted' := sorted + [list[idx]];
            && SortedByRank(sorted')
            && (forall i, j :: 0 <= i < |sorted'| && 0 <= j < |rest| ==> !Precedes(rest[j], sorted'[i]))
            && multiset(rest) + multiset(sorted') == multiset(list) + multiset(sorted)
  {
    var rest := list[..idx] + list[idx + 1..];
    assert list == list[..idx] + [list[idx]] + list[idx + 1..];
    assert forall j :: 0 <= j < |rest| ==> rest[j] == list[if j < idx then j else j + 1];
  }

  /**
   `listTasksByPriority`: every task of the store exactly once, higher
   priority first and, at equal priority, earlier due date first. Each round
   moves one selected task from `list` to the end of `sorted`.
   */
  method ListTasksByPriority(s: Store, order: seq<string>) returns (sorted: seq<Task>)
    requires Valid(s) && Enumerates(order, s)
    ensures multiset(sorted) == multiset(s.Values)
    ensures SortedByRank(sorted)
    ensures forall i, j :: 0 <= i < |sorted| && 0 <= j < |sorted| && Precedes(sorted[i], sorted[j]) ==> i < j
  {
    var list := Snapshot(s, order);
    SnapshotIsValues(s, order);
    sorted := [];
    while |list| > 0
      invariant multiset(list) + multiset(sorted) == multiset(s.Values)
      invariant |list| + |sorted| == |order|
      invariant SortedByRank(sorted)
      invariant forall i, j :: 0 <= i < |sorted| && 0 <= j < |list| ==> !Precedes(list[j], sorted[i])
      decreases |list|
    {
      var idx := IndexOfHighest(list);
      SelectionStep(sorted, list, idx);
      sorted := sorted + [list[idx]];
      list := list[..idx] + list[idx + 1..];
    }
    SortedRespectsPrecedes(sorted);
  }

  // ---------------------------------------------------------------------------
  // Next task
  // ---------------------------------------------------------------------------

  /** Some task of the store is not yet complete. */
  predicate HasIncomplete(s: Store)
  {
    exists k :: k in s && !s[k].isComplete
  }

  /**
   `name` is an incomplete task of the highest priority among incomplete
   tasks, and the earliest due date among those of that priority.
   */
  predicate IsNext(s: Store, name: string)
  {
    && name in s
    && !s[name].isComplete
    && (forall k :: k in s && !s[k].isComplete ==> !Precedes(s[k], s[name]))
  }

  /** `nextTask`: the name of the incomplete task the listing order puts first. */
  method NextTask(s: Store, order: seq<string>) returns (name: string)
    requires Valid(s) && Enumerates(order, s) && HasIncomplete(s)
    ensures IsNext(s, name)
  {
    var found := false;
    name := "";
    var i := 0;
    while i < |order|
      invariant 0 <= i <= |order|
      invariant found ==> name in s && !s[name].isComplete
      invariant found ==> forall j :: 0 <= j < i && !s[order[j]].isComplete ==> !Precedes(s[order[j]], s[name])
      invariant !found ==> forall j :: 0 <= j < i ==> s[order[j]].isComplete
    {
      var task := s[order[i]];
      if !IsTaskComplete(s, task.name) {
        if !found || Precedes(task, s[name]) {
          if found {
            forall j | 0 <= j < i && !s[order[j]].isComplete
              ensures !Precedes(s[order[j]], task)
            {
              if Precedes(s[order[j]], task) {
                PrecedesTransitive(s[order[j]], task, s[name]);
              }
            }
          }
          PrecedesIrreflexive(task);
          name := task.name;
          found := true;
        }
      }
      i := i + 1;
    }
    var w :| w in s && !s[w].isComplete;
    assert w in order;
    forall k | k in s && !s[k].isComplete
      ensures !Precedes(s[k], s[name])
    {
      assert k in order;
      var j :| 0 <= j < |order| && order[j] == k;
    }
  }

  /** The next task has the highest priority among the incomplete tasks. */
  lemma NextHasTopPriority(s: Store, name: string)
    requires IsNext(s, name)
    ensures forall k :: k in s && !s[k].isComplete ==> s[k].priority <= s[name].priority
  {
  }

  /** Any two candidates for the next task have the same priority and due date. */
  lemma NextTaskUniqueUpToRank(s: Store, a: string, b: string)
    requires IsNext(s, a) && IsNext(s, b)
    ensures SameRank(s[a], s[b])
  {
    PrecedesTotal(s[a], s[b]);
  }

  /**
   The next task ranks the same as the head of any sorted listing of the
   incomplete tasks: the task `listTasksByPriority` would put first among them.
   */
  lemma NextTaskHeadsIncompleteListing(s: Store, name: string, xs: seq<Task>)
    requires IsNext(s, name)
    requires SortedByRank(xs)
    requires forall t :: t in xs <==> t in s.Values && !t.isComplete
    ensures |xs| > 0
    ensures SameRank(xs[0], s[name])
  {
    assert s[name] in s.Values;
    assert s[name] in xs;
    var j :| 0 <= j < |xs| && xs[j] == s[name];
    assert xs[0] in s.Values;
    var k :| k in s && s[k] == xs[0];
    assert !Precedes(xs[0], s[name]);
    if j > 0 {
      assert !Precedes(s[name], xs[0]);
    } else {
      PrecedesIrreflexive(xs[0]);
    }
    PrecedesTotal(xs[0], s[name]);
  }

  /** With two equal-priority incomplete tasks, the contract's next task is the one due earlier, and only that one. */
  lemma TieNext(early: string, late: string)
    requires LexLess(early, late)
    ensures var x := Task("X", 3, late, false);
            var y := Task("Y", 3, early, false);
            var s := map["X" := x, "Y" := y];
            forall n :: IsNext(s, n) <==> n == "Y"
  {
    var x := Task("X", 3, late, false);
    var y := Task("Y", 3, early, false);
    var s := map["X" := x, "Y" := y];
    LexLessAsymmetric(early, late);
    LexLessIrreflexive(early);
    assert s.Keys == {"X", "Y"};
  }
}
