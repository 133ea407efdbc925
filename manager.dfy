/**
 * The system's state and its two state-changing commands: adding a task and
 * marking one as completed. A task is shared by reference between the task
 * list, the urgent stack and the completed queue.
 */
module Manager {
  import opened Tasks
  import opened Dates
  import opened DateSort
  import opened Sequences
  import opened LinkedList
  import opened Containers

  class TaskManager {
    const taskList: TaskList
    const completedTasks: Queue
    const urgentTasks: Stack

    /** The three collections are well formed and separate structures, and
        no task is listed twice. */
    ghost predicate Valid()
      reads this, taskList, completedTasks, urgentTasks
      reads taskList.tasks, completedTasks.queue, urgentTasks.stack
      reads taskList.tasks.Repr, completedTasks.queue.Repr, urgentTasks.stack.Repr
    {
      taskList.Valid() && completedTasks.Valid() && urgentTasks.Valid() &&
      taskList.tasks != completedTasks.queue && taskList.tasks != urgentTasks.stack &&
      completedTasks.queue != urgentTasks.stack &&
      taskList.tasks.Repr !! completedTasks.queue.Repr &&
      taskList.tasks.Repr !! urgentTasks.stack.Repr &&
      completedTasks.queue.Repr !! urgentTasks.stack.Repr &&
      Distinct(taskList.Contents())
    }

    /** The task list holds only pending tasks and the queue only completed
        ones. */
    ghost predicate Settled()
      reads this, taskList, completedTasks, taskList.tasks, completedTasks.queue
      reads taskList.Contents(), completedTasks.Contents()
    {
      AllPending(taskList.Contents()) && AllCompleted(completedTasks.Contents())
    }

    constructor ()
      ensures Valid() && Settled()
      ensures taskList.Contents() == [] && completedTasks.Contents() == [] && urgentTasks.Contents() == []
      ensures fresh(taskList) && fresh(completedTasks) && fresh(urgentTasks)
      ensures fresh(taskList.tasks) && fresh(completedTasks.queue) && fresh(urgentTasks.stack)
      ensures taskList.tasks.Repr == {} && completedTasks.queue.Repr == {} && urgentTasks.stack.Repr == {}
    {
      taskList := new TaskList();
      completedTasks := new Queue();
      urgentTasks := new Stack();
    }

    /** Creates a task from already range-checked input and files it: in
        the task list, and on the urgent stack when it is urgent. A date
        that does not exist is rejected and nothing changes. */
    method AddTask(name: string, day: int, month: int, year: int, isUrgent: bool, category: Category)
      returns (task: Task?)
      requires Valid() && Settled()
      requires 1 <= day <= 31 && 1 <= month <= 12 && 1 <= year <= 9999
      modifies taskList.tasks, taskList.tasks.Repr, urgentTasks.stack, urgentTasks.stack.Repr
      ensures Valid() && Settled()
      ensures fresh(taskList.tasks.Repr - old(taskList.tasks.Repr))
      ensures fresh(urgentTasks.stack.Repr - old(urgentTasks.stack.Repr))
      ensures completedTasks.Contents() == old(completedTasks.Contents())
      ensures !IsValidDate(day, month, year) ==>
        task == null &&
        taskList.Contents() == old(taskList.Contents()) &&
        urgentTasks.Contents() == old(urgentTasks.Contents())
      ensures IsValidDate(day, month, year) ==>
        task != null && fresh(task) && !task.isCompleted &&
        task.name == name && Due(task) == Date(year, month, day) &&
        task.isUrgent == isUrgent && task.category == category &&
        taskList.Contents() == old(taskList.Contents()) + [task] &&
        urgentTasks.Contents() == if isUrgent then old(urgentTasks.Contents()) + [task] else old(urgentTasks.Contents())
    {
      if !IsValidDate(day, month, year) {
        return null;
      }
      task := new Task(name, day, month, year, isUrgent, category);
      FileTask(task);
      if isUrgent {
        StackUrgent(task);
      }
    }

    /** Appends a new pending task to the task list. */
    method FileTask(task: Task)
      requires Valid() && Settled() && !task.isCompleted && task !in taskList.Contents()
      modifies taskList.tasks, taskList.tasks.Repr
      ensures Valid() && Settled()
      ensures fresh(taskList.tasks.Repr - old(taskList.tasks.Repr))
      ensures taskList.Contents() == old(taskList.Contents()) + [task]
      ensures completedTasks.Contents() == old(completedTasks.Contents())
      ensures urgentTasks.Contents() == old(urgentTasks.Contents())
    {
      ghost var queued, stacked := completedTasks.Contents(), urgentTasks.Contents();
      ghost var others := completedTasks.Valid() && urgentTasks.Valid();
      taskList.AddTask(task);
      assert completedTasks.Contents() == queued && urgentTasks.Contents() == stacked;
      assert (completedTasks.Valid() && urgentTasks.Valid()) == others;
      assert Distinct(taskList.Contents()) && AllPending(taskList.Contents());
      assert AllCompleted(queued);
    }

    /** Pushes a pending urgent task on the urgent stack. */
    method StackUrgent(task: Task)
      requires Valid() && Settled() && task.isUrgent && !task.isCompleted
      modifies urgentTasks.stack, urgentTasks.stack.Repr
      ensures Valid() && Settled()
      ensures fresh(urgentTasks.stack.Repr - old(urgentTasks.stack.Repr))
      ensures urgentTasks.Contents() == old(urgentTasks.Contents()) + [task]
      ensures taskList.Contents() == old(taskList.Contents())
      ensures completedTasks.Contents() == old(completedTasks.Contents())
    {
      ghost var listed, queued := taskList.Contents(), completedTasks.Contents();
      ghost var others := taskList.Valid() && completedTasks.Valid();
      urgentTasks.Push(task);
      assert taskList.Contents() == listed && completedTasks.Contents() == queued;
      assert (taskList.Valid() && completedTasks.Valid()) == others;
      assert AllPending(listed) && AllCompleted(queued);
    }

    /** Marks the task the user chose as completed. The list is sorted by
        due date first and its tasks, all pending, are numbered from 1 in
        that order; `choice` is the number entered. An empty list, or a
        number that names no task, completes nothing. */
    method MarkTaskAsCompleted(choice: int) returns (task: Task?)
      requires Valid() && Settled()
      modifies taskList.tasks, taskList.tasks.Repr, completedTasks.queue, completedTasks.queue.Repr
      modifies taskList.Contents()
      ensures Valid() && Settled()
      ensures taskList.tasks.Repr == old(taskList.tasks.Repr)
      ensures fresh(completedTasks.queue.Repr - old(completedTasks.queue.Repr))
      ensures urgentTasks.Contents() == old(urgentTasks.Contents())
      ensures var sorted := SortByDate(old(taskList.Contents()));
        task == (if 1 <= choice <= |sorted| then sorted[choice - 1] else null) &&
        (task == null ==>
          taskList.Contents() == sorted && completedTasks.Contents() == old(completedTasks.Contents())) &&
        (task != null ==>
          task.isCompleted && task !in taskList.Contents() &&
          completedTasks.Contents() == old(completedTasks.Contents()) + [task] &&
          taskList.Contents() == sorted[..choice - 1] + sorted[choice..])
    {
      if taskList.tasks.IsEmpty() {
        return null;
      }
      task := CompleteChoice(choice);
    }

    /** The completion of a non-empty list: sort it, number it, and
        complete the chosen task if there is one. */
    method CompleteChoice(choice: int) returns (task: Task?)
      requires Valid() && Settled() && taskList.Contents() != []
      modifies taskList.tasks, taskList.tasks.Repr, completedTasks.queue, completedTasks.queue.Repr
      modifies taskList.Contents()
      ensures Valid() && Settled()
      ensures taskList.tasks.Repr == old(taskList.tasks.Repr)
      ensures fresh(completedTasks.queue.Repr - old(completedTasks.queue.Repr))
      ensures urgentTasks.Contents() == old(urgentTasks.Contents())
      ensures var sorted := SortByDate(old(taskList.Contents()));
        task == (if 1 <= choice <= |sorted| then sorted[choice - 1] else null) &&
        (task == null ==>
          taskList.Contents() == sorted && completedTasks.Contents() == old(completedTasks.Contents())) &&
        (task != null ==>
          task.isCompleted && task !in taskList.Contents() &&
          completedTasks.Contents() == old(completedTasks.Contents()) + [task] &&
          taskList.Contents() == sorted[..choice - 1] + sorted[choice..])
    {
      task := SortAndSelect(choice);
      if task != null {
        CompleteTask(task, choice - 1);
      }
    }

    /** Sorts the task list and picks the task numbered `choice` in it. */
    method SortAndSelect(choice: int) returns (task: Task?)
      requires Valid() && Settled()
      modifies taskList.tasks, taskList.tasks.Repr
      ensures Valid() && Settled()
      ensures taskList.tasks.Repr == old(taskList.tasks.Repr)
      ensures taskList.Contents() == SortByDate(old(taskList.Contents()))
      ensures completedTasks.Contents() == old(completedTasks.Contents())
      ensures urgentTasks.Contents() == old(urgentTasks.Contents())
      ensures task == if 1 <= choice <= |taskList.Contents()| then taskList.Contents()[choice - 1] else null
      ensures task != null ==> task in old(taskList.Contents())
    {
      SortTaskList();
      task := SelectTask(choice);
    }

    /** Sorts the task list by due date; the numbering offered to the user
        then runs over all of it, since every listed task is pending. */
    method SortTaskList()
      requires Valid() && Settled()
      modifies taskList.tasks, taskList.tasks.Repr
      ensures Valid() && Settled()
      ensures taskList.tasks.Repr == old(taskList.tasks.Repr)
      ensures taskList.Contents() == SortByDate(old(taskList.Contents()))
      ensures Active(taskList.Contents()) == taskList.Contents()
      ensures completedTasks.Contents() == old(completedTasks.Contents())
      ensures urgentTasks.Contents() == old(urgentTasks.Contents())
      ensures forall t :: t in taskList.Contents() ==> t in old(taskList.Contents())
    {
      ghost var before, queued := taskList.Contents(), completedTasks.Contents();
      taskList.SortTasksByDate();
      SortedFromList(before);
      ghost var sorted := taskList.Contents();
      assert AllPending(sorted) && AllCompleted(queued);
      ActiveOfAllPending(sorted);
    }

    /** Picks the task numbered `choice` in a list whose tasks are all
        offered for selection; nothing changes. */
    method SelectTask(choice: int) returns (task: Task?)
      requires Valid() && Settled() && Active(taskList.Contents()) == taskList.Contents()
      ensures Valid() && Settled()
      ensures taskList.Contents() == old(taskList.Contents())
      ensures completedTasks.Contents() == old(completedTasks.Contents())
      ensures urgentTasks.Contents() == old(urgentTasks.Contents())
      ensures task == if 1 <= choice <= |taskList.Contents()| then taskList.Contents()[choice - 1] else null
    {
      ghost var listed, queued, stacked := taskList.Contents(), completedTasks.Contents(), urgentTasks.Contents();
      ghost var valid := Valid();
      task := taskList.GetTaskByUserInput(choice);
      assert taskList.Contents() == listed && completedTasks.Contents() == queued && urgentTasks.Contents() == stacked;
      assert Valid() == valid;
      assert AllPending(listed) && AllCompleted(queued);
    }

    /** The completion of a chosen task: it is marked completed and queued,
        then its node is looked up in the task list and unlinked. */
    method CompleteTask(task: Task, ghost j: nat)
      requires Valid() && Settled() && j < |taskList.Contents()| && taskList.Contents()[j] == task
      modifies taskList.tasks, taskList.tasks.Repr, completedTasks.queue, completedTasks.queue.Repr, task
      ensures Valid() && Settled()
      ensures taskList.tasks.Repr == old(taskList.tasks.Repr)
      ensures fresh(completedTasks.queue.Repr - old(completedTasks.queue.Repr))
      ensures task.isCompleted
      ensures completedTasks.Contents() == old(completedTasks.Contents()) + [task]
      ensures taskList.Contents() == old(taskList.Contents())[..j] + old(taskList.Contents())[j + 1..]
      ensures task !in taskList.Contents()
      ensures urgentTasks.Contents() == old(urgentTasks.Contents())
    {
      ghost var listed, stacked := taskList.Contents(), urgentTasks.Contents();
      ghost var others := taskList.Valid() && urgentTasks.Valid();
      completedTasks.Enqueue(task);
      assert taskList.Contents() == listed && urgentTasks.Contents() == stacked;
      assert (taskList.Valid() && urgentTasks.Valid()) == others;
      assert forall t :: t in listed && t != task ==> !t.isCompleted;
      UnlinkCompleted(task, j);
    }

    /** Second half of the completion: the node of the task, now the only
        completed one in the task list, is looked up and unlinked. */
    method UnlinkCompleted(task: Task, ghost j: nat)
      requires Valid() && j < |taskList.Contents()| && taskList.Contents()[j] == task
      requires AllCompleted(completedTasks.Contents())
      requires forall t :: t in taskList.Contents() && t != task ==> !t.isCompleted
      modifies taskList.tasks, taskList.tasks.Repr
      ensures Valid() && Settled()
      ensures taskList.tasks.Repr == old(taskList.tasks.Repr)
      ensures taskList.Contents() == old(taskList.Contents())[..j] + old(taskList.Contents())[j + 1..]
      ensures task !in taskList.Contents()
      ensures completedTasks.Contents() == old(completedTasks.Contents())
      ensures urgentTasks.Contents() == old(urgentTasks.Contents())
    {
      ghost var before, queued, stacked := taskList.Contents(), completedTasks.Contents(), urgentTasks.Contents();
      ghost var others := completedTasks.Valid() && urgentTasks.Valid();
      ghost var after := before[..j] + before[j + 1..];
      DistinctCut(before, j);
      assert AllPending(after) && AllCompleted(queued);
      UnlinkNode(task, j);
      assert completedTasks.Contents() == queued && urgentTasks.Contents() == stacked;
      assert (completedTasks.Valid() && urgentTasks.Valid()) == others;
      assert AllPending(after) && AllCompleted(queued);
    }

    /** Looks up the node holding `task` in the task list and unlinks it. */
    method UnlinkNode(task: Task, ghost j: nat)
      requires taskList.Valid() && Distinct(taskList.Contents())
      requires j < |taskList.Contents()| && taskList.Contents()[j] == task
      modifies taskList.tasks, taskList.tasks.Repr
      ensures taskList.Valid() && taskList.tasks.Repr == old(taskList.tasks.Repr)
      ensures taskList.Contents() == old(taskList.Contents())[..j] + old(taskList.Contents())[j + 1..]
    {
      var taskNode := taskList.tasks.GetNodeByTask(task);
      if taskNode != null {
        FirstIndexOfDistinct(taskList.Contents(), j);
        FirstIndexOfDistinct(taskList.tasks.Nodes, j);
        taskList.tasks.Remove(taskNode);
      }
    }
  }

  /** A session on a new manager: A (1/1/2025, urgent), B (5/6/2024) and
      C (5/6/2024, urgent) are added, then the first task of the sorted list
      is marked completed. B and C are due on the same day and C, added
      later, sorts in front of B, so C is the task completed. */
  method CompletionScenario() returns (m: TaskManager, a: Task, b: Task, c: Task, t: Task?)
    ensures m.Valid() && m.Settled()
    ensures t == c && c.isCompleted && !a.isCompleted && !b.isCompleted
    ensures m.taskList.Contents() == [b, a]
    ensures m.urgentTasks.Contents() == [a, c]
    ensures m.completedTasks.Contents() == [c]
  {
    m, a, b, c := AddThree();
    t := CompleteFirst(m, a, b, c);
  }

  /** The last command of `CompletionScenario`: number 1 is chosen in the
      task list A, B, C. */
  method CompleteFirst(m: TaskManager, a: Task, b: Task, c: Task) returns (t: Task?)
    requires m.Valid() && m.Settled()
    requires Due(a) == Date(2025, 1, 1) && Due(b) == Date(2024, 6, 5) && Due(c) == Date(2024, 6, 5)
    requires m.taskList.Contents() == [a, b, c]
    requires m.urgentTasks.Contents() == [a, c]
    requires m.completedTasks.Contents() == []
    modifies m.taskList.tasks, m.taskList.tasks.Repr, m.completedTasks.queue, m.completedTasks.queue.Repr, a, b, c
    ensures m.Valid() && m.Settled()
    ensures t == c && c.isCompleted && !a.isCompleted && !b.isCompleted
    ensures m.taskList.Contents() == [b, a]
    ensures m.urgentTasks.Contents() == [a, c]
    ensures m.completedTasks.Contents() == [c]
  {
    SortExample(a, b, c);
    assert [c, b, a][..0] + [c, b, a][1..] == [b, a];
    t := m.MarkTaskAsCompleted(1);
  }

  /** The first three commands of `CompletionScenario`: A, B and C are
      added to a new manager and filed in that order. */
  method AddThree() returns (m: TaskManager, a: Task, b: Task, c: Task)
    ensures m.Valid() && m.Settled()
    ensures fresh(m.taskList.tasks) && fresh(m.taskList.tasks.Repr)
    ensures fresh(m.completedTasks.queue) && fresh(m.completedTasks.queue.Repr)
    ensures fresh(a) && fresh(b) && fresh(c)
    ensures Due(a) == Date(2025, 1, 1) && Due(b) == Date(2024, 6, 5) && Due(c) == Date(2024, 6, 5)
    ensures m.taskList.Contents() == [a, b, c]
    ensures m.urgentTasks.Contents() == [a, c]
    ensures m.completedTasks.Contents() == []
  {
    m, a, b := AddTwo();
    var added := m.AddTask("C", 5, 6, 2024, true, Personal);
    c := added;
  }

  /** The first two commands of `CompletionScenario`. */
  method AddTwo() returns (m: TaskManager, a: Task, b: Task)
    ensures m.Valid() && m.Settled()
    ensures fresh(m.taskList.tasks) && fresh(m.taskList.tasks.Repr)
    ensures fresh(m.completedTasks.queue) && fresh(m.completedTasks.queue.Repr)
    ensures fresh(m.urgentTasks.stack) && fresh(m.urgentTasks.stack.Repr)
    ensures fresh(a) && fresh(b)
    ensures Due(a) == Date(2025, 1, 1) && Due(b) == Date(2024, 6, 5)
    ensures m.taskList.Contents() == [a, b]
    ensures m.urgentTasks.Contents() == [a]
    ensures m.completedTasks.Contents() == []
  {
    m, a := AddOne();
    var added := m.AddTask("B", 5, 6, 2024, false, Study);
    b := added;
  }

  /** The first command of `CompletionScenario`. */
  method AddOne() returns (m: TaskManager, a: Task)
    ensures m.Valid() && m.Settled()
    ensures fresh(m.taskList.tasks) && fresh(m.taskList.tasks.Repr)
    ensures fresh(m.completedTasks.queue) && fresh(m.completedTasks.queue.Repr)
    ensures fresh(m.urgentTasks.stack) && fresh(m.urgentTasks.stack.Repr)
    ensures fresh(a)
    ensures Due(a) == Date(2025, 1, 1)
    ensures m.taskList.Contents() == [a]
    ensures m.urgentTasks.Contents() == [a]
    ensures m.completedTasks.Contents() == []
  {
    m := new TaskManager();
    var added := m.AddTask("A", 1, 1, 2025, true, Work);
    a := added;
  }

  /** Sorting a list without repeated tasks gives a list without repeated
      tasks, drawn from the same tasks. */
  lemma SortedFromList(s: seq<Task>)
    requires Distinct(s)
    ensures Distinct(SortByDate(s))
    ensures forall t :: t in SortByDate(s) ==> t in s
  {
    var sorted := SortByDate(s);
    SortByDatePermutes(s);
    DistinctPermutation(s, sorted);
    forall t | t in sorted
      ensures t in s
    {
      assert t in multiset(sorted);
    }
  }

  /** On a list of pending tasks, the numbers offered to the user are
      exactly the positions in the sorted list. */
  lemma SettledNumbering(s: seq<Task>)
    requires AllPending(s)
    ensures Active(SortByDate(s)) == SortByDate(s)
  {
    var sorted := SortByDate(s);
    SortByDatePermutes(s);
    forall t | t in sorted
      ensures !t.isCompleted
    {
      assert t in multiset(sorted);
    }
    ActiveOfAllPending(sorted);
  }
}
