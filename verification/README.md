# Task registry — a Dafny model

This project models the core of a small in-memory task registry written in
Java. A task is a record (name, priority, due date, completion flag). The
registry has two layers:

- **The kernel store.** The interface `TaskManagerKernel` and its map-backed
  implementation `TaskManager1` keep a map from a task's name to the task.
  They add, remove, query and complete tasks, clear the store and transfer
  it to another store.
- **The secondary layer.** `TaskManagerSecondary` builds these operations
  from kernel calls alone; their contracts are in the interface `TaskManager`.
  - Changing a priority and rescheduling are each a remove followed by an add.
  - The completed and incomplete listings are filters.
  - The priority listing is specified to return every task, higher priority
    first and then earlier due date first; the code attempts this with a
    selection sort.
  - `nextTask` is specified to return the incomplete task that the listing
    would put first.

The earlier prototype `TaskManagerComp2` is modelled beside them. It keeps the
same map plus a list of the tasks in insertion order, modelled by their names, and it treats
adding an existing name or removing an absent one as a no-op.

Modules, one file each:

| module | file | contents |
|---|---|---|
| `Tasks` | `tasks.dfy` | the `Task` datatype and its setters; `LexLess`, the order of Java's `String.compareTo`; `Precedes`, the listing order (higher priority first, then earlier due date) |
| `Kernel` | `kernel.dfy` | the store `map<string, Task>`, its representation invariant `Valid`, and the primary operations as pure functions |
| `Queries` | `queries.dfy` | the secondary operations, specified by their documented contracts |
| `AsWritten` | `as_written.dfy` | the literal code of the sort loop and the two `nextTask` loops, and lemmas showing where they depart from the contracts |
| `Prototype` | `prototype.dfy` | `TaskManagerComp2` with its parallel name list |
| `Scenarios` | `scenarios.dfy` | concrete stores whose listing and next task are forced |

Every operation is a pure function (or a method with value parameters) from
the old store to the new store and any returned value. A query therefore
cannot change the store.

The source walks the store with `for (Task task : this)`, and nothing in the
source fixes that order. The order is therefore a parameter `order: seq<string>`.
Any sequence that `Queries.Enumerates` the store's names is allowed: each name
once, and only names of the store. Every property of the listings holds for
every such order. The loops walk the tasks present when the walk starts.

The kernel's `@requires` clauses ("name is not in this", "name is in this")
are the `requires` of `Kernel.AddTask`, `Kernel.RemoveTask`,
`Kernel.IsTaskComplete` and `Kernel.MarkTaskComplete`. The prototype checks
the preconditions of `addTask` and `removeTask` at run time, and those cases
are modelled as no-ops; its `isTaskComplete` and `markTaskComplete` check
nothing and carry `requires`.

## Model

| member | source | states |
|---|---|---|
| `Tasks.NewTask` | src/TaskManager1.java:45-50 | A new task has the given name, priority and due date and is not complete. It satisfies the priority constraint whenever the given priority is non-negative. |
| `Tasks.Task.MarkComplete` | src/TaskManager1.java:119-127 | Marking a task complete sets its flag. Its name, priority and due date are unchanged, and a well-formed task stays well-formed. |
| `Tasks.Task.SetPriority` | src/TaskManager1.java:96-106 | Requires a non-negative priority. Sets the priority and keeps the other fields, so the task satisfies `priority >= 0`. |
| `Tasks.Task.SetDueDate` | src/TaskManager1.java:108-117 | Sets the due date and keeps the other fields and well-formedness. |
| `Tasks.LexLessIrreflexive` | src/TaskManagerSecondary.java:91-92 | No due date compares before itself under `compareTo`. |
| `Tasks.LexLessTransitive` | src/TaskManagerSecondary.java:91-92 | The `compareTo` order on due dates is transitive. |
| `Tasks.LexLessTotal` | src/TaskManagerSecondary.java:91-92 | Any two distinct due dates are ordered one way or the other. |
| `Tasks.LexLessAsymmetric` | src/TaskManagerSecondary.java:91-92 | Two due dates are never each before the other. |
| `Tasks.LexLessAtFirstDifference` | src/TaskManagerSecondary.java:91-92 | Strings with a common prefix compare by their first differing character. Zero-padded year-first dates (YYYY-MM-DD) therefore compare as the dates they spell; month-first dates such as `02-20-2025` do not across years, and the source leaves the format to the caller. |
| `Tasks.PrecedesIrreflexive` | src/TaskManager.java:37-40 | No task comes before itself in the listing order. |
| `Tasks.PrecedesTransitive` | src/TaskManager.java:37-40 | The listing order is transitive. |
| `Tasks.PrecedesTotal` | src/TaskManager.java:37-40 | Of two tasks, one comes first unless they have the same priority and due date. |
| `Tasks.NotAfterTransitive` | src/TaskManager.java:37-40 | "Not after" is transitive, so the listing order is a total preorder that a sort can meet. |
| `Kernel.Empty` | src/TaskManagerKernel.java:8-12 | The kernel contract's initial store holds no tasks and satisfies the representation convention (see `Kernel.Empty` under "Left out" for `TaskManager1`'s construction). |
| `Kernel.AddTask` | src/TaskManagerKernel.java:85-98 | Requires the name to be absent. Afterwards the store is the old one plus exactly `(name, priority, dueDate, false)`, and the convention is kept when the priority is non-negative. |
| `Kernel.RemoveTask` | src/TaskManager1.java:145-158 | Requires the name to be present. Returns exactly the stored task, drops exactly that key, keeps every other entry, and keeps the convention. |
| `Kernel.MarkTaskComplete` | src/TaskManager1.java:174-186 | Requires the name to be present. Afterwards `IsTaskComplete` holds for it, its other fields and all other tasks are unchanged, and the convention is kept. |
| `Kernel.Clear` | src/TaskManager1.java:200-203 | Afterwards no name is in the store. |
| `Kernel.TransferFrom` | src/TaskManager1.java:217-225 | The destination holds exactly the source's former tasks and the source becomes empty. |
| `Kernel.AddThenRemove` | src/TaskManagerKernel.java:95-109 | Adding a fresh task and removing it returns that task and the original store. |
| `Kernel.RemoveThenAdd` | src/TaskManagerKernel.java:95-109 | Removing an incomplete task and re-adding its fields restores the store. |
| `Kernel.MarkTaskCompleteIdempotent` | src/TaskManagerKernel.java:122-131 | Marking a task complete twice is the same as marking it once. |
| `Kernel.CompletionAfterMutators` | src/TaskManagerKernel.java:111-131 | A just-added task is incomplete. Marking one task changes `IsTaskComplete` for that name and no other. |
| `Kernel.RemoveTaskForgetsName` | src/TaskManagerKernel.java:133-140 | After a removal, `HasTask` is false for the removed name and unchanged for every other name. |
| `Queries.Snapshot` | src/TaskManagerSecondary.java:30-33 | Copying the store out along an iteration order gives one task per name, in that order. |
| `Queries.SnapshotIsValues` | src/TaskManagerSecondary.java:30-33 | The copied-out sequence holds each task of the store exactly once: its multiset equals the store's values. |
| `Queries.ChangeTaskPriority` | src/TaskManagerSecondary.java:8-14 | Requires presence. The key set is unchanged, and the task becomes `(name, newPriority, old due date, false)`. Every other task is unchanged and the convention is kept. |
| `Queries.RescheduleTask` | src/TaskManagerSecondary.java:16-22 | Requires presence. The key set is unchanged, and the task becomes `(name, old priority, newDueDate, false)`. Every other task is unchanged and the convention is kept. |
| `Queries.ResetToSameFieldsKeepsStoreIffIncomplete` | src/TaskManagerSecondary.java:8-22 | Re-setting a task's own priority or due date leaves the store equal to the old one if and only if the task was incomplete. |
| `Queries.ChangeTaskPriorityLastWins` | src/TaskManager.java:8-19 | Two priority changes equal one change to the second value. |
| `Queries.RescheduleTaskLastWins` | src/TaskManager.java:21-32 | Two reschedules equal one reschedule to the second date. |
| `Queries.WithCompletion` | src/TaskManager.java:44-59 | The reference filter: a task is kept if and only if it is in the input and its flag has the wanted value. |
| `Queries.WithCompletionPartition` | src/TaskManager.java:44-59 | The two filters together hold each task as often as the input does. |
| `Queries.CollectByCompletion` | src/TaskManagerSecondary.java:47-71 | The loop that tests `IsTaskComplete` for each task computes the reference filter of the copied-out store. |
| `Queries.ListCompletedTasks` | src/TaskManagerSecondary.java:47-58 | Returns the completed tasks in iteration order. A task is listed if and only if it is one of the store's tasks and is complete. |
| `Queries.ListIncompleteTasks` | src/TaskManagerSecondary.java:60-71 | Returns the incomplete tasks in iteration order. A task is listed if and only if it is one of the store's tasks and is incomplete. |
| `Queries.StoreCompletionPartition` | src/TaskManager.java:44-59 | The two listings are disjoint, and together they hold every task of the store exactly once. |
| `Queries.SortedRespectsPrecedes` | src/TaskManager.java:37-40 | In a sorted listing, a task that comes first in the listing order sits at a lower index. |
| `Queries.IndexOfHighest` | src/TaskManagerSecondary.java:36-40 | The selection scan, corrected: returns an index that no other task of the list comes before. |
| `Queries.SelectionStep` | src/TaskManagerSecondary.java:35-42 | One round of the sort moves one task from `list` to the end of `sorted`. No task is lost, `sorted` stays sorted, and `sorted` stays ahead of every task still in `list`. |
| `Queries.ListTasksByPriority` | src/TaskManager.java:34-42 | Returns a permutation of the store's tasks, sorted by priority (higher first) and then due date (earlier first). |
| `Queries.NextTask` | src/TaskManager.java:61-70 | Requires an incomplete task. Returns an incomplete task that no incomplete task comes before in the listing order (`IsNext`): of the highest priority among incomplete tasks, and the earliest due date among those. |
| `Queries.NextHasTopPriority` | src/TaskManager.java:61-70 | Any valid next task has a priority at least that of every incomplete task. |
| `Queries.NextTaskUniqueUpToRank` | src/TaskManager.java:61-70 | Any two valid answers for the next task have the same priority and due date. |
| `Queries.NextTaskHeadsIncompleteListing` | src/TaskManager.java:34-70 | The next task ranks with the first entry of any sorted listing of the incomplete tasks. |
| `AsWritten.SortAsWrittenIndexFault` | src/TaskManagerSecondary.java:34-41 | For priorities 1, 2, 3, 5, 4, the literal sort's third round removes at index 3 from a list of length 3. |
| `AsWritten.SortAsWrittenMisorders` | src/TaskManagerSecondary.java:34-41 | For priorities 2, 1, 3, the literal sort returns the list unchanged, with the priority-3 task last. |
| `AsWritten.FirstPassFindsMaximum` | src/TaskManagerSecondary.java:77-85 | The threshold of the first loop never drops and ends at or above every incomplete priority. If some incomplete task reaches the starting threshold, the result names an incomplete task of that final threshold; otherwise the result and threshold are unchanged. |
| `AsWritten.FirstPassPicksTopPriority` | src/TaskManagerSecondary.java:75-85 | Started from 0 on a valid store, the first loop names an incomplete task of the highest incomplete priority. The start at 0 is sound because priorities are non-negative. |
| `AsWritten.SecondPassOnlyRemoves` | src/TaskManagerSecondary.java:87-97 | The second loop only removes tasks: a store it returns is contained in the store it started from. |
| `AsWritten.SecondPassRemovesOnMatch` | src/TaskManagerSecondary.java:87-97 | Once the second loop meets an incomplete task of the threshold priority, it removes a task. |
| `AsWritten.NextTaskAsWrittenRemovesTask` | src/TaskManagerSecondary.java:73-100 | On every valid store with an incomplete task, any store the literal `nextTask` returns has lost a task. |
| `AsWritten.NextTaskAsWrittenEmptiesStore` | src/TaskManagerSecondary.java:73-100 | For a single incomplete task, the literal `nextTask` returns its name and leaves the store empty. |
| `AsWritten.NextTaskAsWrittenFaultsOnTie` | src/TaskManagerSecondary.java:87-97 | For two incomplete tasks of equal priority, with the later-due one first, the literal loop asks again for the task it already removed. |
| `AsWritten.NextTaskAsWrittenFaultsOnTieReversed` | src/TaskManagerSecondary.java:87-97 | The same tie, earlier-due task first: the literal loop also asks again for a removed task. |
| `Queries.TieNext` | src/TaskManager.java:61-70 | For that tie, the contract's next task is the earlier-due one, and only that one. |
| `AsWritten.TieBreakAsWrittenPrefersLater` | src/TaskManagerSecondary.java:90-94 | The comparison `compareTo(...) > 0` replaces the earlier-due result by the later-due task. |
| `Prototype.NewManager` | src/TaskManagerComp2.java:84-87 | The constructor gives an empty map and an empty list, which satisfy the invariant. |
| `Prototype.AddTask` | src/TaskManagerComp2.java:91-97 | A present name is a no-op. A fresh name adds `(name, priority, dueDate, false)` to the map and appends the name to the list. The invariant is kept. |
| `Prototype.Without` | src/TaskManagerComp2.java:104-108 | The reference removal: a list entry is kept if and only if it is in the list and differs from the name. |
| `Prototype.ScanRemoveOnce` | src/TaskManagerComp2.java:104-108 | On a list without duplicates, the literal loop cuts out the one occurrence of the name. |
| `Prototype.WithoutSingleOccurrence` | src/TaskManagerComp2.java:104-108 | On a list without duplicates, the reference removal cuts out the one occurrence and keeps the order of the rest. |
| `Prototype.ScanRemoveMissesAdjacentRepeat` | src/TaskManagerComp2.java:104-108 | On a list with a name twice in a row, the literal loop leaves one copy. The invariant excludes such lists. |
| `Prototype.RemoveTask` | src/TaskManagerComp2.java:100-110 | An absent name is a no-op. A present name leaves the map without that name. On a valid manager the list becomes exactly the reference removal of the name, and the invariant is kept. |
| `Prototype.CutKeepsValid` | src/TaskManagerComp2.java:77-80 | Cutting a name out of the list and the map together keeps the list equal to the map's keys, without duplicates. |
| `Prototype.MarkTaskComplete` | src/TaskManagerComp2.java:121-124 | Requires presence. Sets that task's flag and keeps its name, priority and due date; the list and every other task are unchanged, and the invariant is kept. |
| `Prototype.AgreesWithKernel` | src/TaskManagerComp2.java:91-124 | On the map, the prototype's add of a fresh name, remove of a present name and mark-complete do what the kernel operations do. |
| `Scenarios.ListingScenario` | src/TaskManager.java:34-42 | For tasks A (5, 2025-03-01), B (5, 2025-01-01) and C (9, 2025-01-01), the only sorted listing is C, B, A. |
| `Scenarios.ListingOfThree` | src/TaskManager.java:34-42 | Three tasks that the listing order strictly ranks have exactly one sorted listing. |
| `Scenarios.NextTaskScenario` | src/TaskManager.java:61-70 | For X (3, 2025-05-01) and Y (3, 2025-02-01), both incomplete, the next task is Y and only Y. |

## Left out

- `TaskManagerComp2.main`: its console output is I/O. It also constructs the interface type directly.
- `TaskManager1.newInstance`: reflective construction through the no-argument constructor. It is not modelled; see the next line.
- Kernel.Empty: models the kernel's `@initially` clause (an empty store), not `TaskManager1`'s construction. `TaskManager1` declares no constructor, and its `createNewRep` is called only from `clear` and `transferFrom`, so a manager made by `new` or by `newInstance` has a null map, which breaks the convention "taskMap is not null" until `clear` is called. The model has no null store.
- The dynamic type test and cast in `TaskManager1.transferFrom`: Java run-time typing. Only the move of the contents is modelled.
- The layered Java does not compile as shown: `for (Task task : this)` iterates over a type that is not `Iterable` (`TaskManagerKernel` extends only `Standard`), and `TaskManagerSecondary` uses the result of `removeTask`, which `TaskManagerKernel` declares `void`. The model uses `TaskManager1`'s `removeTask`, which returns the removed `Task`, and an arbitrary enumeration of the store (`Queries.Enumerates`) in place of the missing iterator.
- The `components` library (`Map1L`, `Sequence1L`, `Standard`): its maps and sequences are Dafny `map` and `seq`, and its internals are not modelled.
- The getters of `Task` (`getName` and the others): they are the datatype's fields.
- `Kernel.HasTask` and `Kernel.IsTaskComplete`: these are the membership test and the field read themselves, so they carry no `ensures` of their own. What they report after each mutator is stated by `Kernel.CompletionAfterMutators` and `Kernel.RemoveTaskForgetsName`, and by the postconditions that mention them.
- `AsWritten.ScanAsWritten`, `AsWritten.FirstPass`, `AsWritten.SecondPass` and `Prototype.ScanRemove`: these are the literal loops themselves, so they carry no `ensures` of their own. `AsWritten.ScanAsWritten` is the inner `for` loop of the priority sort (src/TaskManagerSecondary.java:36-40), and `AsWritten.SortAsWrittenIndexFault` and `AsWritten.SortAsWrittenMisorders` state how it goes wrong. `AsWritten.FirstPass` is the first loop of `nextTask` (src/TaskManagerSecondary.java:77-85), characterised by `AsWritten.FirstPassFindsMaximum`. `AsWritten.SecondPass` is its second loop (src/TaskManagerSecondary.java:87-97), characterised by `AsWritten.SecondPassOnlyRemoves` and `AsWritten.SecondPassRemovesOnMatch`. `Prototype.ScanRemove` is the index loop of the prototype's `removeTask` (src/TaskManagerComp2.java:104-108), characterised by `Prototype.ScanRemoveOnce` and `Prototype.ScanRemoveMissesAdjacentRepeat`.
- `Prototype.IsTaskComplete`: a field read, as above; `Prototype.MarkTaskComplete` states what it reports.
- Java `int` width: no operation computes with priorities, only compares them, so unbounded `int` changes nothing.
- `LexLess` compares characters as Unicode scalar values, while Java's `compareTo` compares UTF-16 code units. The two orders differ only for characters outside the Basic Multilingual Plane.
- Iteration order: the order of `for (Task task : this)` is a parameter, and the loops walk the tasks present at the start. The literal `nextTask` removes tasks while iterating; what a Java iterator does after such a removal (for example, throwing `ConcurrentModificationException`) is not modelled.
- Aliasing in `TaskManagerComp2`: the list and the map share task objects there. The model's list holds names, and completion lives only in the map, so both views see the same flag as in the source.
- Aliasing in `TaskManager1` and the secondary layer: `removeTask` and the three listings hand out the store's own `Task` objects, and their public `setPriority`, `setDueDate` and `markComplete` change a stored task in place (so a later `markTaskComplete` also changes a listing returned earlier). In the model every result is a value: a returned listing is a copy, and `Tasks.Task.SetPriority` and `Tasks.Task.SetDueDate` are pure functions that no store operation calls. Changes made through such a shared reference are not modelled.
- The prototype's `removeTask` matches list entries by task name, which is what the model's list of names compares.
- `Queries.NextTask` is specified by its contract. The literal two-loop code is `AsWritten.NextTaskAsWritten`, which is not a method of the corrected layer.
- `Queries.ListTasksByPriority` is a correct selection sort that meets the contract. The literal scan is `AsWritten.SortAsWritten`.

## Findings

| source | as written | input that shows it | evidently intended | confidence | as-written member | corrected member |
|---|---|---|---|---|---|---|
| src/TaskManagerSecondary.java:34-41 | The selection index is set only when an entry's priority is at least the next entry's. It is never reset between rounds, so it is neither the index of the highest priority nor necessarily inside the shrunken list. | Priorities 1, 2, 3, 5, 4: the third round removes at index 3 from a list of length 3. Priorities 2, 1, 3: the result is 2, 1, 3. | Each round removes an entry that no other entry comes before, so the result is a sorted permutation. | not executed | `AsWritten.SortAsWrittenIndexFault`, `AsWritten.SortAsWrittenMisorders` | `Queries.ListTasksByPriority` |
| src/TaskManagerSecondary.java:87-97 | The second loop of `nextTask`, a query, calls `removeTask(result)` for every incomplete task of the top priority. | Any valid store with an incomplete task; one task `Task1` of priority 5 is left with an empty store. | The store is left unchanged. | not executed | `AsWritten.NextTaskAsWrittenRemovesTask`, `AsWritten.NextTaskAsWrittenEmptiesStore` | `Queries.NextTask` |
| src/TaskManagerSecondary.java:92 | The tie-break takes the new task when its due date compares greater (`compareTo(...) > 0`), that is, the later date. Because of the removal above, a tie then makes the loop ask for a task it has already removed. | X (priority 3, later date) and Y (priority 3, earlier date): from result Y, visiting X switches to X. In either iteration order, the run asks for a removed task. | At equal priority, the earliest due date wins. | not executed | `AsWritten.TieBreakAsWrittenPrefersLater`, `AsWritten.NextTaskAsWrittenFaultsOnTie` | `Queries.NextTask` |
