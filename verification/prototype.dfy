/**
 The earlier, defensive prototype `TaskManagerComp2`: the same store of
 tasks by name, plus a list of the names in insertion order. Adding an
 existing name and removing an absent one do nothing. The list holds names;
 completion state lives only in the map (in the source the list and the map
 share the task objects, so both see the same flag).
 */
module Prototype {
  import opened Tasks
  import Kernel

  /** The prototype's state: tasks by name, and the task names in insertion order. */
  datatype Manager = Manager(tasks: map<string, Task>, taskList: seq<string>)

  predicate NoDuplicates(xs: seq<string>)
  {
    forall i, j :: 0 <= i < j < |xs| ==> xs[i] != xs[j]
  }

  /** The list holds exactly the map's names, each once, and every task is stored under its own name. */
  predicate Valid(m: Manager)
  {
    && NoDuplicates(m.taskList)
    && (forall k :: k in m.tasks ==> k in m.taskList)
    && (forall i :: 0 <= i < |m.taskList| ==> m.taskList[i] in m.tasks)
    && (forall k :: k in m.tasks ==> m.tasks[k].name == k)
  }

  /** The constructor: no tasks and an empty list. */
  function NewManager(): (m: Manager)
    ensures Valid(m)
    ensures |m.tasks| == 0 && |m.taskList| == 0
  {
    Manager(map[], [])
  }

  /**
   `addTask`: a name already present leaves everything unchanged; a fresh
   name gets a new incomplete task in the map and is appended to the list.
   */
  function AddTask(m: Manager, name: string, priority: int, dueDate: string): (r: Manager)
    ensures name in m.tasks ==> r == m
    ensures name !in m.tasks ==> r.tasks == m.tasks[name := NewTask(name, priority, dueDate)]
    ensures name !in m.tasks ==> r.taskList == m.taskList + [name]
    ensures Valid(m) ==> Valid(r)
  {
    if name in m.tasks then m
    else Manager(m.tasks[name := NewTask(name, priority, dueDate)], m.taskList + [name])
  }

  /** Reference definition: `xs` with every occurrence of `name` dropped, the rest in order. */
  function Without(xs: seq<string>, name: string): (r: seq<string>)
    ensures forall x :: x in r <==> x in xs && x != name
    ensures |r| <= |xs|
  {
    if xs == [] then [] else (if xs[0] == name then [] else [xs[0]]) + Without(xs[1..], name)
  }

  /**
   The removal loop of `removeTask` as written: walks the list by index and
   removes an entry equal to `name`, then moves on to the next index, so the
   entry that slid into the removed slot is not looked at.
   */
  function ScanRemove(xs: seq<string>, name: string, i: nat): seq<string>
    decreases |xs| - i
  {
    if i >= |xs| then xs
    else if xs[i] == name then ScanRemove(xs[..i] + xs[i + 1..], name, i + 1)
    else ScanRemove(xs, name, i + 1)
  }

  lemma {:induction false} WithoutAppend(xs: seq<string>, ys: seq<string>, name: string)
    ensures Without(xs + ys, name) == Without(xs, name) + Without(ys, name)
    decreases |xs|
  {
    if xs != [] {
      assert (xs + ys)[0] == xs[0];
      assert (xs + ys)[1..] == xs[1..] + ys;
      WithoutAppend(xs[1..], ys, name);
      var head := if xs[0] == name then [] else [xs[0]];
      assert Without(xs + ys, name) == head + Without(xs[1..] + ys, name);
      assert Without(xs, name) == head + Without(xs[1..], name);
      assert head + (Without(xs[1..], name) + Without(ys, name))
          == (head + Without(xs[1..], name)) + Without(ys, name);
    } else {
      assert xs + ys == ys;
    }
  }

  lemma {:induction false} WithoutAbsent(xs: seq<string>, name: string)
    requires name !in xs
    ensures Without(xs, name) == xs
    decreases |xs|
  {
    if xs != [] {
      WithoutAbsent(xs[1..], name);
      assert xs == [xs[0]] + xs[1..];
    }
  }

  /** From index `i` on, a loop that meets no entry equal to `name` changes nothing. */
  lemma {:induction false} ScanRemoveAbsent(xs: seq<string>, name: string, i: nat)
    requires forall j :: i <= j < |xs| ==> xs[j] != name
    ensures ScanRemove(xs, name, i) == xs
    decreases |xs| - i
  {
    if i < |xs| {
      ScanRemoveAbsent(xs, name, i + 1);
    }
  }

  /** The loop passes over entries that differ from `name` without change. */
  lemma {:induction false} ScanRemoveSkips(xs: seq<string>, name: string, i: nat, k: nat)
    requires i <= k <= |xs|
    requires forall j :: i <= j < k ==> xs[j] != name
    ensures ScanRemove(xs, name, i) == ScanRemove(xs, name, k)
    decreases k - i
  {
    if i < k {
      ScanRemoveSkips(xs, name, i + 1, k);
    }
  }

  /** On a list without duplicates the loop cuts out the single occurrence of `name`. */
  lemma ScanRemoveOnce(xs: seq<string>, name: string, k: nat)
    requires NoDuplicates(xs) && k < |xs| && xs[k] == name
    ensures ScanRemove(xs, name, 0) == xs[..k] + xs[k + 1..]
  {
    ScanRemoveSkips(xs, name, 0, k);
    var ys := xs[..k] + xs[k + 1..];
    forall j | k + 1 <= j < |ys|
      ensures ys[j] != name
    {
      assert ys[j] == xs[j + 1];
      assert xs[k] != xs[j + 1];
    }
    ScanRemoveAbsent(ys, name, k + 1);
  }

  /** In a list without duplicates, the entry at `k` occurs neither before nor after `k`. */
  lemma OnlyAt(xs: seq<string>, k: nat)
    requires NoDuplicates(xs) && k < |xs|
    ensures xs[k] !in xs[..k] && xs[k] !in xs[k + 1..]
  {
    forall j | 0 <= j < k
      ensures xs[..k][j] != xs[k]
    {
      assert xs[j] != xs[k];
    }
    var post := xs[k + 1..];
    forall j | 0 <= j < |post|
      ensures post[j] != xs[k]
    {
      assert xs[k] != xs[k + 1 + j];
    }
  }

  /** Dropping a name that occurs once, between `pre` and `post`, leaves `pre + post`. */
  lemma WithoutCut(pre: seq<string>, name: string, post: seq<string>)
    requires name !in pre && name !in post
    ensures Without(pre + [name] + post, name) == pre + post
  {
    calc {
      Without(pre + [name] + post, name);
      { assert pre + [name] + post == pre + ([name] + post); }
      Without(pre + ([name] + post), name);
      { WithoutAppend(pre, [name] + post, name); }
      Without(pre, name) + Without([name] + post, name);
      { WithoutAppend([name], post, name); WithoutOnly(name); }
      Without(pre, name) + Without(post, name);
      { WithoutAbsent(pre, name); WithoutAbsent(post, name); }
      pre + post;
    }
  }

  /** Dropping a name from the list holding only that name leaves nothing. */
  lemma WithoutOnly(name: string)
    ensures Without([name], name) == []
  {
    assert [name][1..] == [];
  }

  /** Dropping the single occurrence of a name cuts it out and keeps the rest in order. */
  lemma WithoutSingleOccurrence(xs: seq<string>, name: string, k: nat)
    requires NoDuplicates(xs) && k < |xs| && xs[k] == name
    ensures Without(xs, name) == xs[..k] + xs[k + 1..]
  {
    OnlyAt(xs, k);
    assert xs == xs[..k] + [name] + xs[k + 1..];
    WithoutCut(xs[..k], name, xs[k + 1..]);
  }

  /** On a list with a repeated name next to itself the loop leaves one copy behind. */
  lemma ScanRemoveMissesAdjacentRepeat()
    ensures ScanRemove(["a", "a"], "a", 0) == ["a"]
  {
    assert ["a", "a"][..0] + ["a", "a"][1..] == ["a"];
    assert ScanRemove(["a"], "a", 1) == ["a"];
  }

  /**
   `removeTask`: an absent name leaves everything unchanged; a present one
   leaves the map and, on a valid manager, has exactly its entry dropped
   from the list, the other entries keeping their order.
   */
  function RemoveTask(m: Manager, name: string): (r: Manager)
    ensures name !in m.tasks ==> r == m
    ensures name in m.tasks ==> r.tasks == m.tasks - {name}
    ensures Valid(m) ==> r.taskList == Without(m.taskList, name)
    ensures Valid(m) ==> Valid(r)
  {
    if name !in m.tasks then
      RemoveAbsentKeepsList(m, name);
      m
    else
      RemovePresentKeepsValid(m, name);
      Manager(m.tasks - {name}, ScanRemove(m.taskList, name, 0))
  }

  /** Cutting one entry out of a list without duplicates leaves a list without duplicates and without that entry. */
  lemma CutOut(xs: seq<string>, k: nat)
    requires NoDuplicates(xs) && k < |xs|
    ensures NoDuplicates(xs[..k] + xs[k + 1..])
    ensures forall x :: x in xs[..k] + xs[k + 1..] <==> x in xs && x != xs[k]
  {
    var ys := xs[..k] + xs[k + 1..];
    assert forall j :: 0 <= j < |ys| ==> ys[j] == xs[if j < k then j else j + 1];
    forall x | x in xs && x != xs[k]
      ensures x in ys
    {
      var i :| 0 <= i < |xs| && xs[i] == x;
      assert ys[if i < k then i else i - 1] == x;
    }
  }

  /** Cutting the entry at `k` out of the list and its task out of the map keeps a manager valid. */
  lemma CutKeepsValid(m: Manager, k: nat)
    requires Valid(m) && k < |m.taskList|
    ensures Valid(Manager(m.tasks - {m.taskList[k]}, m.taskList[..k] + m.taskList[k + 1..]))
  {
    var xs := m.taskList;
    var list := xs[..k] + xs[k + 1..];
    var tasks := m.tasks - {xs[k]};
    CutOut(xs, k);
    assert forall key :: key in tasks ==> key in list;
    forall i | 0 <= i < |list|
      ensures list[i] in tasks
    {
      assert list[i] in list;
    }
  }

  /** The list part of removing a present name from a valid manager. */
  lemma RemovePresentKeepsValid(m: Manager, name: string)
    requires name in m.tasks
    ensures Valid(m) ==> ScanRemove(m.taskList, name, 0) == Without(m.taskList, name)
    ensures Valid(m) ==> Valid(Manager(m.tasks - {name}, ScanRemove(m.taskList, name, 0)))
  {
    if Valid(m) {
      var xs := m.taskList;
      assert name in xs;
      var k :| 0 <= k < |xs| && xs[k] == name;
      ScanRemoveOnce(xs, name, k);
      WithoutSingleOccurrence(xs, name, k);
      CutKeepsValid(m, k);
    }
  }

  /** The list part of removing an absent name: on a valid manager the name is not in the list either. */
  lemma RemoveAbsentKeepsList(m: Manager, name: string)
    requires name !in m.tasks
    ensures Valid(m) ==> Without(m.taskList, name) == m.taskList
  {
    if Valid(m) {
      WithoutAbsent(m.taskList, name);
    }
  }

  /** The completion flag of the named task, which must be present. */
  function IsTaskComplete(m: Manager, name: string): (b: bool)
    requires name in m.tasks
  {
    m.tasks[name].isComplete
  }

  /** Sets the named task's completion flag; the task must be present. */
  function MarkTaskComplete(m: Manager, name: string): (r: Manager)
    requires name in m.tasks
    ensures r.taskList == m.taskList && r.tasks.Keys == m.tasks.Keys
    ensures IsTaskComplete(r, name)
    ensures r.tasks[name].name == m.tasks[name].name && r.tasks[name].priority == m.tasks[name].priority
    ensures r.tasks[name].dueDate == m.tasks[name].dueDate
    ensures forall k :: k in m.tasks && k != name ==> r.tasks[k] == m.tasks[k]
    ensures Valid(m) ==> Valid(r)
  {
    Manager(m.tasks[name := m.tasks[name].MarkComplete()], m.taskList)
  }

  /**
   On the map, the prototype's add and remove of a fresh or present name do
   what the kernel's `AddTask` and `RemoveTask` do.
   */
  lemma AgreesWithKernel(m: Manager, name: string, priority: int, dueDate: string)
    ensures name !in m.tasks ==> AddTask(m, name, priority, dueDate).tasks == Kernel.AddTask(m.tasks, name, priority, dueDate)
    ensures name in m.tasks ==> RemoveTask(m, name).tasks == Kernel.RemoveTask(m.tasks, name).1
    ensures name in m.tasks ==> MarkTaskComplete(m, name).tasks == Kernel.MarkTaskComplete(m.tasks, name)
  {
  }
}
