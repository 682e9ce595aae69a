/**
 The task record of the registry and the two orders it is compared by:
 Java's `String.compareTo` order on due dates (`LexLess`) and the
 "comes first" order of the priority listing (`Precedes`).
 */
module Tasks {

  /** A task, modelled as the tuple (name, priority, dueDate, isComplete). */
  datatype Task = Task(name: string, priority: int, dueDate: string, isComplete: bool) {

    /** The constraint every task of a store satisfies: a non-negative priority. */
    predicate WellFormed() {
      priority >= 0
    }

    /** Sets the completion flag; every other field keeps its value. */
    function MarkComplete(): (t: Task)
      ensures t.isComplete
      ensures t.name == name && t.priority == priority && t.dueDate == dueDate
      ensures WellFormed() ==> t.WellFormed()
    {
      this.(isComplete := true)
    }

    /** Replaces the priority; the caller must keep the priority non-negative. */
    function SetPriority(p: int): (t: Task)
      requires p >= 0
      ensures t.priority == p
      ensures t.name == name && t.dueDate == dueDate && t.isComplete == isComplete
      ensures t.WellFormed()
    {
      this.(priority := p)
    }

    /** Replaces the due date; every other field keeps its value. */
    function SetDueDate(d: string): (t: Task)
      ensures t.dueDate == d
      ensures t.name == name && t.priority == priority && t.isComplete == isComplete
      ensures WellFormed() ==> t.WellFormed()
    {
      this.(dueDate := d)
    }
  }

  /** The task the constructor builds: given fields, not yet complete. */
  function NewTask(name: string, priority: int, dueDate: string): (t: Task)
    ensures t.name == name && t.priority == priority && t.dueDate == dueDate
    ensures !t.isComplete
    ensures priority >= 0 ==> t.WellFormed()
  {
    Task(name, priority, dueDate, false)
  }

  /**
   Strict lexicographic order on strings, the sign of Java's `a.compareTo(b) < 0`:
   the first differing character decides, and a proper prefix comes first.
   */
  predicate LexLess(a: string, b: string)
  {
    if |a| == 0 then |b| > 0
    else if |b| == 0 then false
    else if a[0] != b[0] then a[0] < b[0]
    else LexLess(a[1..], b[1..])
  }

  lemma {:induction false} LexLessIrreflexive(a: string)
    ensures !LexLess(a, a)
  {
    if |a| > 0 {
      LexLessIrreflexive(a[1..]);
    }
  }

  lemma {:induction false} LexLessTransitive(a: string, b: string, c: string)
    requires LexLess(a, b) && LexLess(b, c)
    ensures LexLess(a, c)
  {
    if |a| > 0 && |b| > 0 && |c| > 0 && a[0] == b[0] && b[0] == c[0] {
      LexLessTransitive(a[1..], b[1..], c[1..]);
    }
  }

  /** Any two distinct strings are ordered one way or the other. */
  lemma {:induction false} LexLessTotal(a: string, b: string)
    ensures a == b || LexLess(a, b) || LexLess(b, a)
  {
    if |a| > 0 && |b| > 0 && a[0] == b[0] {
      LexLessTotal(a[1..], b[1..]);
      if a[1..] == b[1..] {
        assert a == [a[0]] + a[1..] && b == [b[0]] + b[1..];
      }
    }
  }

  lemma {:induction false} LexLessAsymmetric(a: string, b: string)
    requires LexLess(a, b)
    ensures !LexLess(b, a)
  {
    if LexLess(b, a) {
      LexLessTransitive(a, b, a);
      LexLessIrreflexive(a);
    }
  }

  /** Strings that agree before position `i` and differ at `i` are ordered by that character. */
  lemma {:induction false} LexLessAtFirstDifference(a: string, b: string, i: nat)
    requires i < |a| && i < |b|
    requires a[..i] == b[..i]
    requires a[i] < b[i]
    ensures LexLess(a, b)
  {
    if i > 0 {
      assert a[0] == a[..i][0] == b[..i][0] == b[0];
      assert a[1..][..i - 1] == a[1..i] == a[..i][1..];
      assert b[1..][..i - 1] == b[1..i] == b[..i][1..];
      LexLessAtFirstDifference(a[1..], b[1..], i - 1);
    }
  }

  /**
   `a` comes before `b` in the priority listing: a higher priority first,
   and at equal priority the lexicographically earlier due date first.
   */
  predicate Precedes(a: Task, b: Task)
  {
    a.priority > b.priority || (a.priority == b.priority && LexLess(a.dueDate, b.dueDate))
  }

  /** Two tasks the listing order cannot tell apart. */
  predicate SameRank(a: Task, b: Task)
  {
    a.priority == b.priority && a.dueDate == b.dueDate
  }

  lemma PrecedesIrreflexive(a: Task)
    ensures !Precedes(a, a)
  {
    LexLessIrreflexive(a.dueDate);
  }

  lemma PrecedesTransitive(a: Task, b: Task, c: Task)
    requires Precedes(a, b) && Precedes(b, c)
    ensures Precedes(a, c)
  {
    if a.priority == b.priority == c.priority {
      LexLessTransitive(a.dueDate, b.dueDate, c.dueDate);
    }
  }

  /** The listing order is total up to tasks of the same rank. */
  lemma PrecedesTotal(a: Task, b: Task)
    ensures Precedes(a, b) || Precedes(b, a) || SameRank(a, b)
  {
    LexLessTotal(a.dueDate, b.dueDate);
  }

  /** `!Precedes(b, a)` ("a is not after b") is transitive, so it is a total preorder. */
  lemma NotAfterTransitive(a: Task, b: Task, c: Task)
    requires !Precedes(b, a) && !Precedes(c, b)
    ensures !Precedes(c, a)
  {
    PrecedesTotal(a, b);
    if Precedes(a, b) && Precedes(c, a) {
      PrecedesTransitive(c, a, b);
    }
  }
}
