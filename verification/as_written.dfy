/**
 The two loops of `TaskManagerSecondary` whose code departs from the
 documented contract, modelled literally so that the departures can be
 stated: the selection scan of `listTasksByPriority` and the two passes of
 `nextTask`. The rest of the model uses the corrected `Queries` versions.

 Both loops walk the store; as in `Queries`, the walk is over the tasks
 present when the loop starts, in an order given as a parameter.
 */
module AsWritten {
  import opened Tasks
  import opened Kernel
  import opened Queries

  // ---------------------------------------------------------------------------
  // listTasksByPriority
  // ---------------------------------------------------------------------------

  /**
   The inner `for` loop of the sort: for each `i` from 1, if the entry before
   `i` has priority at least that of entry `i`, the selected index becomes
   `i - 1`; otherwise it keeps its value, which may be left over from the
   previous round.
   */
  function ScanAsWritten(list: seq<Task>, index: int, i: nat): int
    requires i >= 1
    decreases |list| - i
  {
    if i >= |list| then index
    else ScanAsWritten(list, if list[i - 1].priority >= list[i].priority then i - 1 else index, i + 1)
  }

  /** How the literal sort ends: with a list, or by removing at an index outside the list. */
  datatype SortOutcome = SortedList(tasks: seq<Task>) | IndexFault(index: int, length: nat)

  /**
   The outer `while` loop of the sort: each round moves the entry at the
   scanned index from `list` to the end of `sorted`; the index is carried into
   the next round instead of being reset.
   */
  function SortAsWritten(list: seq<Task>, sorted: seq<Task>, index: int): SortOutcome
    decreases |list|
  {
    if |list| == 0 then SortedList(sorted)
    else
      var idx := ScanAsWritten(list, index, 1);
      if 0 <= idx < |list| then
        SortAsWritten(list[..idx] + list[idx + 1..], sorted + [list[idx]], idx)
      else IndexFault(idx, |list|)
  }

  /**
   On tasks with priorities 1, 2, 3, 5, 4 (in iteration order) the literal
   sort removes 5, then 4, and on the third round tries to remove index 3
   from a list of three.
   */
  lemma SortAsWrittenIndexFault()
    ensures var ds := "02-20-2025";
            var list := [Task("a", 1, ds, false), Task("b", 2, ds, false), Task("c", 3, ds, false),
                         Task("d", 5, ds, false), Task("e", 4, ds, false)];
            SortAsWritten(list, [], 0) == IndexFault(3, 3)
  {
    var ds := "02-20-2025";
    var a, b, c, d, e := Task("a", 1, ds, false), Task("b", 2, ds, false), Task("c", 3, ds, false),
                         Task("d", 5, ds, false), Task("e", 4, ds, false);
    var l1 := [a, b, c, d, e];
    assert ScanAsWritten(l1, 0, 1) == ScanAsWritten(l1, 0, 2) == ScanAsWritten(l1, 0, 3)
        == ScanAsWritten(l1, 0, 4) == ScanAsWritten(l1, 3, 5) == 3;
    var l2 := [a, b, c, e];
    assert l1[..3] + l1[4..] == l2;
    assert ScanAsWritten(l2, 3, 1) == ScanAsWritten(l2, 3, 2) == ScanAsWritten(l2, 3, 3)
        == ScanAsWritten(l2, 3, 4) == 3;
    var l3 := [a, b, c];
    assert l2[..3] + l2[4..] == l3;
    assert ScanAsWritten(l3, 3, 1) == ScanAsWritten(l3, 3, 2) == ScanAsWritten(l3, 3, 3) == 3;
    assert SortAsWritten(l3, [d, e], 3) == IndexFault(3, 3);
    assert [d] + [e] == [d, e];
    assert SortAsWritten(l2, [d], 3) == SortAsWritten(l3, [d, e], 3);
    assert [] + [d] == [d];
    assert SortAsWritten(l1, [], 0) == SortAsWritten(l2, [d], 3);
  }

  /**
   On tasks with priorities 2, 1, 3 the literal sort completes but returns
   them unchanged, with the priority-3 task last, which the listing order
   forbids.
   */
  lemma SortAsWrittenMisorders()
    ensures var ds := "02-20-2025";
            var list := [Task("a", 2, ds, false), Task("b", 1, ds, false), Task("c", 3, ds, false)];
            && SortAsWritten(list, [], 0) == SortedList(list)
            && !SortedByRank(list)
  {
    var ds := "02-20-2025";
    var a, b, c := Task("a", 2, ds, false), Task("b", 1, ds, false), Task("c", 3, ds, false);
    var l1 := [a, b, c];
    assert ScanAsWritten(l1, 0, 1) == ScanAsWritten(l1, 0, 2) == ScanAsWritten(l1, 0, 3) == 0;
    var l2 := [b, c];
    assert l1[..0] + l1[1..] == l2;
    assert ScanAsWritten(l2, 0, 1) == ScanAsWritten(l2, 0, 2) == 0;
    assert l2[..0] + l2[1..] == [c];
    assert [c][..0] + [c][1..] == [];
    assert ScanAsWritten([c], 0, 1) == 0;
    assert SortAsWritten([c], [a, b], 0) == SortAsWritten([], [a, b, c], 0) == SortedList(l1);
    assert [a] + [b] == [a, b];
    assert SortAsWritten(l2, [a], 0) == SortAsWritten([c], [a, b], 0);
    assert [] + [a] == [a];
    assert SortAsWritten(l1, [], 0) == SortAsWritten(l2, [a], 0);
    assert Precedes([a, b, c][2], [a, b, c][0]);
  }

  // ---------------------------------------------------------------------------
  // nextTask
  // ---------------------------------------------------------------------------

  /**
   The first loop of `nextTask`: starting from `result` and threshold
   `highest`, every incomplete task whose priority is at least the threshold
   becomes the result and raises the threshold to its priority.
   */
  function FirstPass(s: Store, tasks: seq<Task>, result: string, highest: int): (string, int)
    requires forall i :: 0 <= i < |tasks| ==> HasTask(s, tasks[i].name)
    decreases |tasks|
  {
    if tasks == [] then (result, highest)
    else
      var task := tasks[0];
      if !IsTaskComplete(s, task.name) && task.priority >= highest then
        FirstPass(s, tasks[1..], task.name, task.priority)
      else
        FirstPass(s, tasks[1..], result, highest)
  }

  /** `tasks` lists tasks of the store as they are stored under their own names. */
  predicate StoredIn(tasks: seq<Task>, s: Store)
  {
    forall i :: 0 <= i < |tasks| ==> HasTask(s, tasks[i].name) && s[tasks[i].name] == tasks[i]
  }

  /**
   What the first pass computes: the threshold never drops and ends at or
   above every incomplete priority; if some incomplete task reaches the
   starting threshold, the result names an incomplete task whose priority is
   the final threshold, and otherwise nothing changes.
   */
  lemma {:induction false} FirstPassFindsMaximum(s: Store, tasks: seq<Task>, result: string, highest: int)
    requires StoredIn(tasks, s)
    ensures var (r, h) := FirstPass(s, tasks, result, highest);
            && h >= highest
            && (forall t :: t in tasks && !t.isComplete ==> t.priority <= h)
            && ((exists t :: t in tasks && !t.isComplete && t.priority >= highest) ==>
                  r in s && !s[r].isComplete && s[r].priority == h)
            && ((forall t :: t in tasks && !t.isComplete ==> t.priority < highest) ==>
                  r == result && h == highest)
    decreases |tasks|
  {
    if tasks != [] {
      var task := tasks[0];
      assert StoredIn(tasks[1..], s) by {
        forall i | 0 <= i < |tasks[1..]|
          ensures HasTask(s, tasks[1..][i].name) && s[tasks[1..][i].name] == tasks[1..][i]
        {
          assert tasks[1..][i] == tasks[i + 1];
        }
      }
      assert forall t :: t in tasks <==> t == task || t in tasks[1..] by {
        assert tasks == [task] + tasks[1..];
      }
      if !IsTaskComplete(s, task.name) && task.priority >= highest {
        FirstPassFindsMaximum(s, tasks[1..], task.name, task.priority);
      } else {
        FirstPassFindsMaximum(s, tasks[1..], result, highest);
      }
    }
  }

  /**
   On a valid store with an incomplete task, the first pass started as in the
   source (empty name, threshold 0) ends naming an incomplete task of the
   highest priority among incomplete tasks, the priority `nextTask` must
   choose. The start at 0 is sound because every priority is non-negative.
   */
  lemma FirstPassPicksTopPriority(s: Store, order: seq<string>, next: string)
    requires Valid(s) && Enumerates(order, s) && HasIncomplete(s)
    requires IsNext(s, next)
    ensures var (r, h) := FirstPass(s, Snapshot(s, order), "", 0);
            && r in s && !s[r].isComplete
            && s[r].priority == h == s[next].priority
  {
    var tasks := Snapshot(s, order);
    assert StoredIn(tasks, s);
    FirstPassFindsMaximum(s, tasks, "", 0);
    assert next in order;
    var j :| 0 <= j < |order| && order[j] == next;
    assert tasks[j] == s[next];
  }

  /** How the literal `nextTask` ends: with a name and the store it leaves behind, or by asking for a task it has already removed. */
  datatype NextOutcome = Returned(name: string, store: Store) | MissingTask(missing: string)

  /**
   The second loop of `nextTask`: for each incomplete task of the threshold
   priority it removes the current result from the store, and takes the
   task's name as the new result when the task's due date is LATER than the
   removed one's (`compareTo(...) > 0`). The completion test and the removal
   both need the name to be in the store; a missing name ends the run.
   */
  function SecondPass(cur: Store, tasks: seq<Task>, result: string, highest: int): NextOutcome
    decreases |tasks|
  {
    if tasks == [] then Returned(result, cur)
    else
      var task := tasks[0];
      if !HasTask(cur, task.name) then MissingTask(task.name)
      else if IsTaskComplete(cur, task.name) || task.priority != highest then
        SecondPass(cur, tasks[1..], result, highest)
      else if !HasTask(cur, result) then MissingTask(result)
      else
        var (temp, rest) := RemoveTask(cur, result);
        SecondPass(rest, tasks[1..], if LexLess(temp.dueDate, task.dueDate) then task.name else result, highest)
  }

  /** The literal `nextTask`: both passes over one enumeration of the store. */
  function NextTaskAsWritten(s: Store, order: seq<string>): NextOutcome
    requires Valid(s) && Enumerates(order, s)
  {
    var tasks := Snapshot(s, order);
    var (result, highest) := FirstPass(s, tasks, "", 0);
    SecondPass(s, tasks, result, highest)
  }

  /** The second pass only ever removes tasks: a store it returns is part of the one it started with. */
  lemma {:induction false} SecondPassOnlyRemoves(cur: Store, tasks: seq<Task>, result: string, highest: int)
    ensures var out := SecondPass(cur, tasks, result, highest);
            out.Returned? ==> out.store.Keys <= cur.Keys
    decreases |tasks|
  {
    if tasks != [] {
      var task := tasks[0];
      if HasTask(cur, task.name) {
        if IsTaskComplete(cur, task.name) || task.priority != highest {
          SecondPassOnlyRemoves(cur, tasks[1..], result, highest);
        } else if HasTask(cur, result) {
          var (temp, rest) := RemoveTask(cur, result);
          SecondPassOnlyRemoves(rest, tasks[1..], if LexLess(temp.dueDate, task.dueDate) then task.name else result, highest);
        }
      }
    }
  }

  /**
   Once the second pass meets an incomplete task of the threshold priority,
   it removes a task, so a store it returns lacks at least one name.
   */
  lemma {:induction false} SecondPassRemovesOnMatch(cur: Store, tasks: seq<Task>, result: string, highest: int)
    requires StoredIn(tasks, cur)
    requires exists t :: t in tasks && !t.isComplete && t.priority == highest
    ensures var out := SecondPass(cur, tasks, result, highest);
            out.Returned? ==> out.store.Keys < cur.Keys
    decreases |tasks|
  {
    var task := tasks[0];
    assert HasTask(cur, task.name) && cur[task.name] == task;
    if task.isComplete || task.priority != highest {
      assert StoredIn(tasks[1..], cur) by {
        forall i | 0 <= i < |tasks[1..]|
          ensures HasTask(cur, tasks[1..][i].name) && cur[tasks[1..][i].name] == tasks[1..][i]
        {
          assert tasks[1..][i] == tasks[i + 1];
        }
      }
      assert exists t :: t in tasks[1..] && !t.isComplete && t.priority == highest by {
        var t :| t in tasks && !t.isComplete && t.priority == highest;
        assert tasks == [task] + tasks[1..];
        assert t in tasks[1..];
      }
      SecondPassRemovesOnMatch(cur, tasks[1..], result, highest);
    } else if HasTask(cur, result) {
      var (temp, rest) := RemoveTask(cur, result);
      SecondPassOnlyRemoves(rest, tasks[1..], if LexLess(temp.dueDate, task.dueDate) then task.name else result, highest);
      assert result in cur.Keys && result !in rest.Keys;
    }
  }

  /**
   Whenever the literal `nextTask` returns on a valid store with an
   incomplete task, the store it leaves behind has lost at least one of its
   tasks, although the operation is a query that must leave the store as it was.
   */
  lemma NextTaskAsWrittenRemovesTask(s: Store, order: seq<string>)
    requires Valid(s) && Enumerates(order, s) && HasIncomplete(s)
    ensures var out := NextTaskAsWritten(s, order);
            out.Returned? ==> out.store.Keys < s.Keys
  {
    var tasks := Snapshot(s, order);
    assert StoredIn(tasks, s);
    FirstPassFindsMaximum(s, tasks, "", 0);
    var (r, h) := FirstPass(s, tasks, "", 0);
    assert exists t :: t in tasks && !t.isComplete && t.priority >= 0 by {
      var w :| w in s && !s[w].isComplete;
      assert w in order;
      var j :| 0 <= j < |order| && order[j] == w;
      assert tasks[j] == s[w];
    }
    assert r in order;
    var j :| 0 <= j < |order| && order[j] == r;
    assert tasks[j] == s[r] && !s[r].isComplete && s[r].priority == h;
    SecondPassRemovesOnMatch(s, tasks, r, h);
  }

  /**
   On a store holding one incomplete task (any name, any non-negative
   priority, any due date), the literal `nextTask` returns its name but
   leaves the store empty, where the query must leave it unchanged.
   */
  lemma NextTaskAsWrittenEmptiesStore(name: string, priority: nat, due: string)
    ensures var s := map[name := Task(name, priority, due, false)];
            && IsNext(s, name)
            && NextTaskAsWritten(s, [name]) == Returned(name, map[])
  {
    var t := Task(name, priority, due, false);
    var s := map[name := t];
    LexLessIrreflexive(due);
    assert Snapshot(s, [name]) == [t];
    assert FirstPass(s, [t], "", 0) == (name, priority);
    assert SecondPass(s, [t], name, priority) == Returned(name, map[]) by {
      assert s - {name} == map[];
      assert SecondPass(map[], [], name, priority) == Returned(name, map[]);
    }
  }

  /**
   With two incomplete tasks of equal priority and different due dates, the
   literal `nextTask` removes the first-pass result and later asks for it
   again. Iteration order: later task first.
   */
  lemma NextTaskAsWrittenFaultsOnTie(early: string, late: string)
    requires LexLess(early, late)
    ensures var x := Task("X", 3, late, false);
            var y := Task("Y", 3, early, false);
            var s := map["X" := x, "Y" := y];
            && IsNext(s, "Y") && !IsNext(s, "X")
            && NextTaskAsWritten(s, ["X", "Y"]) == MissingTask("Y")
  {
    var x := Task("X", 3, late, false);
    var y := Task("Y", 3, early, false);
    var s := map["X" := x, "Y" := y];
    TieNext(early, late);
    assert Snapshot(s, ["X", "Y"]) == [x, y];
    assert FirstPass(s, [x, y], "", 0) == ("Y", 3) by {
      assert FirstPass(s, [y], "X", 3) == FirstPass(s, [], "Y", 3);
    }
    assert SecondPass(s, [x, y], "Y", 3) == MissingTask("Y") by {
      var rest := s - {"Y"};
      assert rest == map["X" := x];
      assert SecondPass(rest, [y], "X", 3) == MissingTask("Y");
    }
  }

  /** The same tie in the other iteration order (earlier task first): the run also faults. */
  lemma NextTaskAsWrittenFaultsOnTieReversed(early: string, late: string)
    requires LexLess(early, late)
    ensures var x := Task("X", 3, late, false);
            var y := Task("Y", 3, early, false);
            var s := map["X" := x, "Y" := y];
            NextTaskAsWritten(s, ["Y", "X"]) == MissingTask("X")
  {
    var x := Task("X", 3, late, false);
    var y := Task("Y", 3, early, false);
    var s := map["X" := x, "Y" := y];
    LexLessAsymmetric(early, late);
    assert Snapshot(s, ["Y", "X"]) == [y, x];
    assert FirstPass(s, [y, x], "", 0) == ("X", 3) by {
      assert FirstPass(s, [x], "Y", 3) == FirstPass(s, [], "X", 3);
    }
    assert SecondPass(s, [y, x], "X", 3) == MissingTask("X") by {
      var rest := s - {"X"};
      assert rest == map["Y" := y];
      assert SecondPass(rest, [x], "X", 3) == MissingTask("X");
    }
  }

  /**
   The comparison step alone: from result `Y`, visiting the equal-priority
   task `X` with the later due date replaces the result by `X`, the reverse
   of the earliest-due-date tie-break.
   */
  lemma TieBreakAsWrittenPrefersLater(early: string, late: string)
    requires LexLess(early, late)
    ensures var x := Task("X", 3, late, false);
            var y := Task("Y", 3, early, false);
            var s := map["X" := x, "Y" := y];
            && IsNext(s, "Y") && !IsNext(s, "X")
            && SecondPass(s, [x], "Y", 3) == Returned("X", map["X" := x])
  {
    var x := Task("X", 3, late, false);
    var y := Task("Y", 3, early, false);
    var s := map["X" := x, "Y" := y];
    TieNext(early, late);
    LexLessAsymmetric(early, late);
    assert s - {"Y"} == map["X" := x];
  }
}
