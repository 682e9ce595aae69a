/**
 Concrete scenarios for the query layer: a three-task store whose priority
 listing is forced, and a due-date tie decided by `nextTask`.
 */
module Scenarios {
  import opened Tasks
  import opened Queries

  const TaskA := Task("A", 5, "2025-03-01", false)
  const TaskB := Task("B", 5, "2025-01-01", false)
  const TaskC := Task("C", 9, "2025-01-01", false)

  /** January 2025 comes before March 2025 as a due date. */
  lemma JanuaryBeforeMarch()
    ensures LexLess("2025-01-01", "2025-03-01")
  {
    var a, b := "2025-01-01", "2025-03-01";
    assert a == "2025-0" + "1-01" && b == "2025-0" + "3-01";
    assert a[..6] == "2025-0" == b[..6];
    LexLessAtFirstDifference(a, b, 6);
  }

  /** February 2025 comes before May 2025 as a due date. */
  lemma FebruaryBeforeMay()
    ensures LexLess("2025-02-01", "2025-05-01")
  {
    var a, b := "2025-02-01", "2025-05-01";
    assert a == "2025-0" + "2-01" && b == "2025-0" + "5-01";
    assert a[..6] == "2025-0" == b[..6];
    LexLessAtFirstDifference(a, b, 6);
  }

  /**
   For the store {A: priority 5 due 2025-03-01, B: priority 5 due 2025-01-01,
   C: priority 9 due 2025-01-01}, the only sorted listing of its tasks is
   C, B, A: C has the highest priority, and B is due before A.
   */
  lemma ListingScenario(xs: seq<Task>)
    requires multiset(xs) == multiset(map["A" := TaskA, "B" := TaskB, "C" := TaskC].Values)
    requires SortedByRank(xs)
    ensures xs == [TaskC, TaskB, TaskA]
  {
    ScenarioValues();
    JanuaryBeforeMarch();
    ListingOfThree(xs, TaskC, TaskB, TaskA);
  }

  lemma ScenarioValues()
    ensures multiset(map["A" := TaskA, "B" := TaskB, "C" := TaskC].Values) == multiset{TaskC, TaskB, TaskA}
  {
    var s := map["A" := TaskA, "B" := TaskB, "C" := TaskC];
    assert s["A"] == TaskA && s["B"] == TaskB && s["C"] == TaskC;
    assert s.Keys == {"A", "B", "C"};
    assert s.Values == {TaskA, TaskB, TaskC};
    assert TaskA != TaskB && TaskB != TaskC && TaskA != TaskC;
  }

  /** Three tasks that the listing order strictly ranks have exactly one sorted listing. */
  lemma ListingOfThree(xs: seq<Task>, first: Task, second: Task, third: Task)
    requires Precedes(first, second) && Precedes(second, third)
    requires multiset(xs) == multiset{first, second, third}
    requires SortedByRank(xs)
    ensures xs == [first, second, third]
  {
    PrecedesTransitive(first, second, third);
    PrecedesIrreflexive(first);
    PrecedesIrreflexive(second);
    assert |xs| == 3;
    assert xs[0] in multiset(xs) && xs[1] in multiset(xs) && xs[2] in multiset(xs);
    assert first in xs && second in xs && third in xs;
    assert xs == [xs[0], xs[1], xs[2]];
  }

  /**
   For two incomplete tasks X (priority 3, due 2025-05-01) and Y (priority 3,
   due 2025-02-01), the next task is Y, and only Y.
   */
  lemma NextTaskScenario()
    ensures var s := map["X" := Task("X", 3, "2025-05-01", false), "Y" := Task("Y", 3, "2025-02-01", false)];
            forall n :: IsNext(s, n) <==> n == "Y"
  {
    FebruaryBeforeMay();
    TieNext("2025-02-01", "2025-05-01");
  }
}
