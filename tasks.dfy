/**
 * A task record, the date order the lists are sorted by, and the selections
 * the display code makes from a list of tasks.
 */
module Tasks {

  /** The three category labels a task can be created with. */
  datatype Category = Study | Work | Personal

  /** A task is shared by reference between the task list, the urgent stack
      and the completed queue. Only `isCompleted` ever changes after creation. */
  class Task {
    const name: string
    const day: int
    const month: int
    const year: int
    const isUrgent: bool
    const category: Category
    var isCompleted: bool

    constructor (name: string, day: int, month: int, year: int, isUrgent: bool, category: Category)
      ensures this.name == name && this.day == day && this.month == month && this.year == year
      ensures this.isUrgent == isUrgent && this.category == category
      ensures !isCompleted
    {
      this.name := name;
      this.day := day;
      this.month := month;
      this.year := year;
      this.isUrgent := isUrgent;
      this.category := category;
      this.isCompleted := false;
    }
  }

  /** A due date, fields in the order the comparison weighs them. */
  datatype Date = Date(year: int, month: int, day: int)

  function Due(t: Task): (d: Date)
  {
    Date(t.year, t.month, t.day)
  }

  /** Lexicographic "strictly earlier" on (year, month, day). */
  predicate Earlier(a: Date, b: Date)
  {
    a.year < b.year ||
    (a.year == b.year && (a.month < b.month || (a.month == b.month && a.day < b.day)))
  }

  /** Three-way comparison of due dates: negative, zero or positive as `t1` is
      due before, on the same day as, or after `t2`. Years are at most 9999,
      so the subtractions cannot overflow a Java int; only the sign is used. */
  function CompareTasks(t1: Task, t2: Task): (r: int)
    ensures r < 0 <==> Earlier(Due(t1), Due(t2))
    ensures r == 0 <==> Due(t1) == Due(t2)
    ensures r > 0 <==> Earlier(Due(t2), Due(t1))
  {
    if t1.year != t2.year then t1.year - t2.year
    else if t1.month != t2.month then t1.month - t2.month
    else t1.day - t2.day
  }

  /** `Earlier` is a strict total order on dates, so `CompareTasks` orders
      tasks by a total preorder (ties exactly on equal dates). */
  lemma EarlierIsStrictTotalOrder(a: Date, b: Date, c: Date)
    ensures !Earlier(a, a)
    ensures Earlier(a, b) ==> !Earlier(b, a)
    ensures Earlier(a, b) && Earlier(b, c) ==> Earlier(a, c)
    ensures a == b || Earlier(a, b) || Earlier(b, a)
  {
  }

  /** The comparison is antisymmetric in sign: swapping the arguments negates it. */
  lemma CompareTasksAntisymmetric(t1: Task, t2: Task)
    ensures CompareTasks(t2, t1) == -CompareTasks(t1, t2)
  {
  }

  /** The tasks of `s` that are not completed, in order: what the task list
      and the urgent stack display. */
  function Active(s: seq<Task>): (r: seq<Task>)
    reads s
    ensures |r| <= |s|
    ensures forall t :: t in r ==> t in s && !t.isCompleted
    ensures forall t :: t in s && !t.isCompleted ==> t in r
  {
    if s == [] then []
    else Active(s[..|s| - 1]) + (if s[|s| - 1].isCompleted then [] else [s[|s| - 1]])
  }

  /** The active tasks of a prefix are a prefix of the active tasks. */
  lemma {:induction false} ActivePrefix(s: seq<Task>, k: nat)
    requires k <= |s|
    ensures Active(s[..k]) <= Active(s)
    decreases |s| - k
  {
    if k < |s| {
      ActivePrefix(s[..|s| - 1], k);
      assert s[..|s| - 1][..k] == s[..k];
    } else {
      assert s[..k] == s;
    }
  }

  /** Extending a prefix by one task extends its active selection by that
      task exactly when it is pending. */
  lemma ActiveStep(s: seq<Task>, k: nat)
    requires k < |s|
    ensures Active(s[..k + 1]) == Active(s[..k]) + (if s[k].isCompleted then [] else [s[k]])
  {
    assert s[..k + 1][..k] == s[..k];
  }

  /** A pending task at position `k` is the active task numbered by the
      count of active tasks before it. */
  lemma ActiveAt(s: seq<Task>, k: nat)
    requires k < |s| && !s[k].isCompleted
    ensures |Active(s[..k])| < |Active(s)| && Active(s)[|Active(s[..k])|] == s[k]
  {
    ActiveStep(s, k);
    ActivePrefix(s, k + 1);
  }

  /** No task of `s` is completed. */
  ghost predicate AllPending(s: seq<Task>)
    reads s
  {
    forall t :: t in s ==> !t.isCompleted
  }

  /** Every task of `s` is completed. */
  ghost predicate AllCompleted(s: seq<Task>)
    reads s
  {
    forall t :: t in s ==> t.isCompleted
  }

  /** A sequence whose tasks are all pending is its own active selection. */
  lemma {:induction false} ActiveOfAllPending(s: seq<Task>)
    requires AllPending(s)
    ensures Active(s) == s
  {
    if s != [] {
      ActiveOfAllPending(s[..|s| - 1]);
      assert s[..|s| - 1] + [s[|s| - 1]] == s;
    }
  }

  /** The pending tasks of `s` in category `c`, in order: what the
      by-category listing shows under the heading of `c`. */
  function ActiveInCategory(s: seq<Task>, c: Category): (r: seq<Task>)
    reads s
    ensures |r| <= |s|
    ensures forall t :: t in r ==> t in s && !t.isCompleted && t.category == c
    ensures forall t :: t in s && !t.isCompleted && t.category == c ==> t in r
  {
    if s == [] then []
    else
      var last := s[|s| - 1];
      ActiveInCategory(s[..|s| - 1], c) + (if !last.isCompleted && last.category == c then [last] else [])
  }

  /** Every pending task is listed under exactly one category. */
  lemma CategoriesPartitionActive(s: seq<Task>, t: Task)
    requires t in Active(s)
    ensures t in ActiveInCategory(s, t.category)
    ensures forall c :: c != t.category ==> t !in ActiveInCategory(s, c)
  {
  }
}
