/**
 The kernel store of the task manager: a finite map from a task name to its
 task record, with the primary operations of `TaskManagerKernel` as realised
 by the map-backed `TaskManager1`. Every operation is a pure function from
 the old store to the new one (and to its returned value, if any), so a
 query that returns only a value cannot change the store.
 */
module Kernel {
  import opened Tasks

  type Store = map<string, Task>

  /**
   The representation convention: every key names a task whose own name is
   that key and whose priority is non-negative.
   */
  predicate Valid(s: Store)
  {
    forall k :: k in s ==> s[k].name == k && s[k].WellFormed()
  }

  /** The store a fresh manager starts with. */
  function Empty(): (s: Store)
    ensures forall n :: !HasTask(s, n)
    ensures Valid(s) && |s| == 0
  {
    map[]
  }

  /** True iff a task of that name is in the store; total. */
  predicate HasTask(s: Store, name: string)
  {
    name in s
  }

  /**
   Adds a fresh, incomplete task. The name must not be in the store already;
   afterwards the store is the old one plus exactly that task.
   */
  function AddTask(s: Store, name: string, priority: int, dueDate: string): (r: Store)
    requires !HasTask(s, name)
    ensures r.Keys == s.Keys + {name}
    ensures r[name] == NewTask(name, priority, dueDate)
    ensures forall k :: k in s ==> r[k] == s[k]
    ensures Valid(s) && priority >= 0 ==> Valid(r)
  {
    s[name := NewTask(name, priority, dueDate)]
  }

  /**
   Removes the task of that name and returns it with the remaining store.
   The name must be present.
   */
  function RemoveTask(s: Store, name: string): (r: (Task, Store))
    requires HasTask(s, name)
    ensures r.0 == s[name]
    ensures r.1.Keys == s.Keys - {name}
    ensures forall k :: k in r.1 ==> r.1[k] == s[k]
    ensures Valid(s) ==> Valid(r.1) && r.0.name == name && r.0.WellFormed()
  {
    (s[name], s - {name})
  }

  /** The completion flag of the named task, which must be present. */
  function IsTaskComplete(s: Store, name: string): (b: bool)
    requires HasTask(s, name)
  {
    s[name].isComplete
  }

  /**
   Sets the completion flag of the named task, which must be present;
   nothing else in the store changes.
   */
  function MarkTaskComplete(s: Store, name: string): (r: Store)
    requires HasTask(s, name)
    ensures r.Keys == s.Keys
    ensures IsTaskComplete(r, name)
    ensures r[name].name == s[name].name && r[name].priority == s[name].priority
    ensures r[name].dueDate == s[name].dueDate
    ensures forall k :: k in s && k != name ==> r[k] == s[k]
    ensures Valid(s) ==> Valid(r)
  {
    s[name := s[name].MarkComplete()]
  }

  /** Resets the store to the one a fresh manager has. */
  function Clear(s: Store): (r: Store)
    ensures forall n :: !HasTask(r, n)
    ensures Valid(r)
  {
    Empty()
  }

  /**
   `dst.transferFrom(src)`: the destination takes over the source's tasks
   (its own former tasks are dropped) and the source becomes empty.
   Returns the new destination and the new source.
   */
  function TransferFrom(dst: Store, src: Store): (r: (Store, Store))
    ensures r.0.Keys == src.Keys
    ensures forall k :: k in src ==> r.0[k] == src[k]
    ensures forall n :: !HasTask(r.1, n)
    ensures Valid(src) ==> Valid(r.0) && Valid(r.1)
  {
    (src, Empty())
  }

  /** Adding a task and removing it again gives back that task and the old store. */
  lemma AddThenRemove(s: Store, name: string, priority: int, dueDate: string)
    requires !HasTask(s, name)
    ensures HasTask(AddTask(s, name, priority, dueDate), name)
    ensures RemoveTask(AddTask(s, name, priority, dueDate), name)
         == (Task(name, priority, dueDate, false), s)
  {
    var r := AddTask(s, name, priority, dueDate);
    assert r - {name} == s;
  }

  /**
   Removing a task and adding one with its fields back restores the store,
   provided the removed task was not yet complete (adding always creates an
   incomplete task).
   */
  lemma RemoveThenAdd(s: Store, name: string)
    requires Valid(s) && HasTask(s, name) && !IsTaskComplete(s, name)
    ensures var (t, rest) := RemoveTask(s, name);
            !HasTask(rest, name) && AddTask(rest, name, t.priority, t.dueDate) == s
  {
  }

  /** Marking a task complete twice is the same as marking it once. */
  lemma MarkTaskCompleteIdempotent(s: Store, name: string)
    requires HasTask(s, name)
    ensures MarkTaskComplete(MarkTaskComplete(s, name), name) == MarkTaskComplete(s, name)
  {
  }

  /**
   What `IsTaskComplete` reports after the mutators: a just-added task is
   incomplete, and marking one task complete changes the answer for that
   name only.
   */
  lemma CompletionAfterMutators(s: Store, name: string, other: string, priority: int, dueDate: string)
    ensures !HasTask(s, name) ==> !IsTaskComplete(AddTask(s, name, priority, dueDate), name)
    ensures HasTask(s, name) && HasTask(s, other) ==>
      (IsTaskComplete(MarkTaskComplete(s, name), other) <==> other == name || IsTaskComplete(s, other))
  {
  }

  /** Removal deletes exactly the named task, and `HasTask` sees it gone. */
  lemma RemoveTaskForgetsName(s: Store, name: string, other: string)
    requires HasTask(s, name)
    ensures !HasTask(RemoveTask(s, name).1, name)
    ensures other != name ==> (HasTask(RemoveTask(s, name).1, other) <==> HasTask(s, other))
  {
  }
}
