/**
 * The three task collections of the system, each a thin wrapper around its
 * own doubly-linked list: the queue of completed tasks, the stack of urgent
 * tasks and the main task list.
 */
module Containers {
  import opened Tasks
  import opened DateSort
  import opened LinkedList

  /** Completed tasks, oldest first: enqueued at the tail, dequeued at the
      head. */
  class Queue {
    const queue: DoublyLinkedList

    ghost predicate Valid()
      reads this, queue, queue.Repr
    {
      queue.Valid()
    }

    /** The queued tasks, front first. */
    ghost function Contents(): seq<Task>
      reads this, queue
    {
      queue.Contents()
    }

    constructor ()
      ensures Valid() && Contents() == [] && fresh(queue) && queue.Repr == {}
    {
      queue := new DoublyLinkedList();
    }

    /** Marks `task` completed, then appends it at the tail. */
    method Enqueue(task: Task)
      requires Valid()
      modifies task, queue, queue.Repr
      ensures Valid() && fresh(queue.Repr - old(queue.Repr))
      ensures task.isCompleted
      ensures Contents() == old(Contents()) + [task]
    {
      task.isCompleted := true;
      queue.Add(task);
    }

    /** Removes and returns the task at the head; null when empty. */
    method Dequeue() returns (task: Task?)
      requires Valid()
      modifies queue, queue.Repr
      ensures Valid() && queue.Repr == old(queue.Repr)
      ensures old(Contents()) == [] ==> task == null && Contents() == []
      ensures old(Contents()) != [] ==> task == old(Contents())[0] && Contents() == old(Contents())[1..]
    {
      task := queue.RemoveFront();
    }

    predicate IsEmpty()
      requires Valid()
      reads this, queue, queue.Repr
      ensures IsEmpty() <==> Contents() == []
    {
      queue.IsEmpty()
    }
  }

  /** Urgent tasks, pushed and popped at the tail. Only urgent tasks are
      ever pushed. */
  class Stack {
    const stack: DoublyLinkedList

    ghost predicate Valid()
      reads this, stack, stack.Repr
    {
      stack.Valid() &&
      forall t :: t in stack.Contents() ==> t.isUrgent
    }

    /** The stacked tasks, bottom first. */
    ghost function Contents(): seq<Task>
      reads this, stack
    {
      stack.Contents()
    }

    constructor ()
      ensures Valid() && Contents() == [] && fresh(stack) && stack.Repr == {}
    {
      stack := new DoublyLinkedList();
    }

    /** Pushes `task` when it is urgent and not yet completed; any other
        task is ignored. */
    method Push(task: Task)
      requires Valid()
      modifies stack, stack.Repr
      ensures Valid() && fresh(stack.Repr - old(stack.Repr))
      ensures Contents() == if task.isUrgent && !task.isCompleted then old(Contents()) + [task] else old(Contents())
    {
      if task.isUrgent && !task.isCompleted {
        stack.Add(task);
      }
    }

    /** Removes and returns the task on top; null when empty. */
    method Pop() returns (task: Task?)
      requires Valid()
      modifies stack, stack.Repr
      ensures Valid() && stack.Repr == old(stack.Repr)
      ensures old(Contents()) == [] ==> task == null && Contents() == []
      ensures old(Contents()) != [] ==>
        task == old(Contents())[|old(Contents())| - 1] && Contents() == old(Contents())[..|old(Contents())| - 1]
      ensures task != null ==> task.isUrgent
    {
      task := stack.RemoveLast();
    }

    predicate IsEmpty()
      requires Valid()
      reads this, stack, stack.Repr
      ensures IsEmpty() <==> Contents() == []
    {
      stack.IsEmpty()
    }
  }

  /** The main list of tasks, in the order they were added or last sorted. */
  class TaskList {
    const tasks: DoublyLinkedList

    ghost predicate Valid()
      reads this, tasks, tasks.Repr
    {
      tasks.Valid()
    }

    /** The listed tasks, head first. */
    ghost function Contents(): seq<Task>
      reads this, tasks
    {
      tasks.Contents()
    }

    constructor ()
      ensures Valid() && Contents() == [] && fresh(tasks) && tasks.Repr == {}
    {
      tasks := new DoublyLinkedList();
    }

    method AddTask(task: Task)
      requires Valid()
      modifies tasks, tasks.Repr
      ensures Valid() && fresh(tasks.Repr - old(tasks.Repr))
      ensures Contents() == old(Contents()) + [task]
    {
      tasks.Add(task);
    }

    /** The task a user means by `index`: the pending tasks are numbered
        from 1 in list order, skipping completed ones. Null when `index` is
        not the number of any pending task. */
    method GetTaskByUserInput(index: int) returns (task: Task?)
      requires Valid()
      ensures task == if 1 <= index <= |Active(Contents())| then Active(Contents())[index - 1] else null
      ensures task != null ==> task in Contents() && !task.isCompleted
    {
      var current := tasks.head;
      var count := 1;
      ghost var k := 0;
      ghost var s := Contents();
      while current != null
        invariant 0 <= k <= |tasks.Nodes|
        invariant current == if k < |tasks.Nodes| then tasks.Nodes[k] else null
        invariant count == |Active(s[..k])| + 1
        invariant index < 1 || count <= index
        decreases |tasks.Nodes| - k
      {
        assert current.task == s[k];
        ActiveStep(s, k);
        if !current.task.isCompleted && count == index {
          ActiveAt(s, k);
          return current.task;
        }
        if !current.task.isCompleted {
          count := count + 1;
        }
        current := current.next;
        k := k + 1;
      }
      assert s[..k] == s;
      return null;
    }

    /** Sorts the list by due date (the listing that follows is output only). */
    method SortTasksByDate()
      requires Valid()
      modifies tasks, tasks.Repr
      ensures Valid() && tasks.Repr == old(tasks.Repr)
      ensures Contents() == SortByDate(old(Contents()))
    {
      tasks.Sort();
    }
  }
}
