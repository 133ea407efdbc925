# Task manager: verified model of the task collections

`TaskManagerSystem.java` is a console to-do manager. Each task has:
- a name;
- a due date (day, month, year);
- an urgency flag;
- a category (study, work or personal);
- a completion flag.

Tasks are kept in three structures. All three are built on one hand-written doubly-linked list:

- the **task list**, holding every task that is not yet completed;
- the **urgent stack**, onto which urgent tasks are pushed when they are created;
- the **completed queue**, into which a task is enqueued when it is marked completed.

A task object is shared by reference between these structures. Only its completion flag ever changes.

Two commands change state:

- **add a task**: the date is validated with the Gregorian calendar.
- **mark a task as completed**: the task list is sorted by due date with a linked-list insertion sort, and its pending tasks are numbered from 1. The chosen task is flagged, enqueued, looked up in the list and unlinked.

This project models that core in Dafny:

- The list, the queue, the stack, the task list and the manager are classes whose methods update their fields in place.
- Each list has a ghost sequence of nodes `Nodes` and an abstract value `Contents()`.
- The comparison, the calendar rules and the specification of the sort are pure functions.

Files and modules:

- `dates.dfy` (`Dates`): the leap-year rule, month lengths and date validation.
- `tasks.dfy` (`Tasks`):
  - the task record and the three-way date comparison;
  - the selections the display code makes: `Active` gives the pending tasks in list order, and `ActiveInCategory` gives the pending tasks of one category.
- `date_sort.dfy` (`DateSort`):
  - `SortByDate`, the insertion sort as a function on sequences;
  - proofs that it permutes its input, sorts it, and reverses tasks with equal dates.
- `sequences.dfy` (`Sequences`): sequences without repeats, and first occurrences.
- `linked_list.dfy` (`LinkedList`): the doubly-linked list and its in-place operations, each proved against `Contents()`.
- `containers.dfy` (`Containers`): the queue, the stack and the task list.
- `manager.dfy` (`Manager`): the system state and its two commands.

The manager's state is described by two predicates:

- `Valid()`: the three structures are well formed and separate, and no task is listed twice.
- `Settled()`: the task list holds only pending tasks and the queue only completed ones.

The constructor establishes both predicates and every command preserves them. Under `Settled()`, the numbers offered to the user are exactly the positions in the sorted list.

An insertion sort that links a node in front of equal keys is not stable. `sortedInsert` places a node before the first node whose task is due no earlier than its own, using `compareTasks(...) <= 0`. A node inserted later therefore goes in front of the tasks with the same date, and equal dates come out in reverse order. The model follows the code:

- `DateSort.SortByDateReversesTies` proves the reversal in general.
- `DateSort.SortExample` proves that A (1/1/2025), B (5/6/2024), C (5/6/2024) sort to C, B, A.
- `Manager.CompletionScenario` runs the same three tasks through the commands: after they are added to a new manager, choosing number 1 completes C, not B.

## Model

| member | source | states |
|---|---|---|
| Tasks.Task.constructor | TaskManagerSystem.java:13-21 | a new task carries the given name, date, urgency and category and is not completed |
| Tasks.CompareTasks | TaskManagerSystem.java:235-246 | the result is negative, zero or positive exactly when the first task is due before, on the same day as, or after the second (lexicographic on year, month, day) |
| Tasks.EarlierIsStrictTotalOrder | TaskManagerSystem.java:235-246 | the date order the comparison decides is irreflexive, asymmetric, transitive and total |
| Tasks.CompareTasksAntisymmetric | TaskManagerSystem.java:235-246 | swapping the two tasks negates the comparison |
| Tasks.Active | TaskManagerSystem.java:438-458 | the pending tasks of a list: no longer than it, every pending task of the list and only those |
| Tasks.ActivePrefix | TaskManagerSystem.java:381-399 | the pending tasks of a prefix are a prefix of the pending tasks |
| Tasks.ActiveStep | TaskManagerSystem.java:386-397 | one more node extends the pending selection by its task exactly when that task is pending |
| Tasks.ActiveAt | TaskManagerSystem.java:386-397 | a pending task at position k is the pending task whose number is one more than the count of pending tasks before k |
| Tasks.ActiveOfAllPending | TaskManagerSystem.java:571-582 | when no listed task is completed, the numbered listing is the whole list |
| Tasks.ActiveInCategory | TaskManagerSystem.java:411-434 | the pending tasks of one category: every such task of the list and only those |
| Tasks.CategoriesPartitionActive | TaskManagerSystem.java:411-434 | a pending task is listed under its own category and under no other |
| Dates.IsLeapYear | TaskManagerSystem.java:671-674 | a leap year is divisible by 4; a year divisible by 400 is leap; a year divisible by 100 but not by 400 is not; a year divisible by 4 but not by 100 is |
| Dates.DaysInMonth | TaskManagerSystem.java:658-667 | 29 exactly for February of a leap year, 28 for February otherwise, 31 for January, March, May, July, August, October and December, 30 for the other four months |
| Dates.IsValidDate | TaskManagerSystem.java:646-654 | a valid date has its month in 1..12 and its day in 1..31 |
| Dates.LeapDayIsValidExactlyInLeapYears | TaskManagerSystem.java:646-674 | 29 February is valid exactly in leap years |
| Dates.ThirtyFirstIsValidExactlyInLongMonths | TaskManagerSystem.java:646-667 | the 31st is valid exactly in the seven long months |
| Dates.FirstTwentyEightDaysAlwaysValid | TaskManagerSystem.java:646-667 | days 1 to 28 of any month 1..12 are valid |
| DateSort.InsertPos | TaskManagerSystem.java:203-219 | the insertion point is the first position whose task is due no earlier than the new task: every task before it is due strictly earlier |
| DateSort.InsertPosUnique | TaskManagerSystem.java:203-219 | that position is the only one with this property |
| DateSort.InsertByDate | TaskManagerSystem.java:200-231 | inserting a task gives a sequence one longer that holds the task at its insertion point |
| DateSort.InsertByDatePermutes | TaskManagerSystem.java:200-231 | inserting adds exactly the new task |
| DateSort.InsertByDateSorted | TaskManagerSystem.java:200-231 | inserting into a sorted sequence keeps it sorted |
| DateSort.InsertByDateDueOn | TaskManagerSystem.java:203 | the inserted task becomes the first of the tasks due on its date |
| DateSort.SortByDate | TaskManagerSystem.java:172-196 | the sort keeps the length of its input |
| DateSort.SortByDateStep | TaskManagerSystem.java:181-187 | sorting the first k+1 tasks is inserting task k into the sorted first k |
| DateSort.SortByDatePermutes | TaskManagerSystem.java:172-196 | the sort returns a permutation of its input |
| DateSort.SortByDateSorted | TaskManagerSystem.java:172-196 | the sort returns its input in non-decreasing due-date order |
| DateSort.SortByDateReversesTies | TaskManagerSystem.java:172-231 | tasks due on the same date come out in the reverse of their original order |
| DateSort.SortByDateShort | TaskManagerSystem.java:174-177 | lists of fewer than two tasks are left as they are |
| DateSort.SortExample | TaskManagerSystem.java:172-231 | A (1/1/2025), B (5/6/2024), C (5/6/2024) sort to C, B, A |
| LinkedList.Node.constructor | TaskManagerSystem.java:41-46 | a new node carries the task and has no neighbours |
| LinkedList.DoublyLinkedList.constructor | TaskManagerSystem.java:50-53 | a new list is well formed and empty |
| LinkedList.DoublyLinkedList.Add | TaskManagerSystem.java:57-70 | the contents become the old contents followed by the task; the list stays well formed |
| LinkedList.DoublyLinkedList.RemoveFront | TaskManagerSystem.java:74-91 | null and no change on an empty list; otherwise the first task is returned and dropped |
| LinkedList.DoublyLinkedList.UnlinkHead | TaskManagerSystem.java:80-89 | the first node is unlinked and the rest stays well formed |
| LinkedList.DoublyLinkedList.RemoveLast | TaskManagerSystem.java:95-112 | null and no change on an empty list; otherwise the last task is returned and dropped |
| LinkedList.DoublyLinkedList.UnlinkTail | TaskManagerSystem.java:101-110 | the last node is unlinked and the rest stays well formed |
| LinkedList.DoublyLinkedList.Get | TaskManagerSystem.java:116-130 | the task at a zero-based index, or null for any index outside the list, negative ones included |
| LinkedList.DoublyLinkedList.IsEmpty | TaskManagerSystem.java:134-137 | true exactly when the contents are empty |
| LinkedList.DoublyLinkedList.Remove | TaskManagerSystem.java:141-168 | the node, wherever it is, is cut out of the node sequence and its task out of the contents at that position, nothing else changes, and the list stays well formed |
| LinkedList.DoublyLinkedList.UnlinkInterior | TaskManagerSystem.java:159-163 | an interior node is cut out by linking its neighbours |
| LinkedList.DoublyLinkedList.Bypass | TaskManagerSystem.java:161-162 | after the two link writes the chain without the node is well formed |
| LinkedList.DoublyLinkedList.GetNodeByTask | TaskManagerSystem.java:250-263 | the first node whose task is the given task (same reference), or null when the task is not listed |
| LinkedList.DoublyLinkedList.Sort | TaskManagerSystem.java:172-196 | the contents become `SortByDate` of the old contents; the node sequence is a rearrangement of the old one (same nodes, same multiset), the footprint is unchanged, and the list stays well formed |
| LinkedList.DoublyLinkedList.SortLong | TaskManagerSystem.java:179-195 | `Sort` for lists of two or more nodes: the same outcome, by the main loop and the walk to the new tail |
| LinkedList.DoublyLinkedList.InsertionPass | TaskManagerSystem.java:179-188 | the main loop moves every node, each exactly once, into one well-formed chain whose tasks are the sorted tasks |
| LinkedList.DoublyLinkedList.DetachAndInsert | TaskManagerSystem.java:183-186 | one round: the node is detached, inserted into the sorted chain (which gains exactly that node), and the walk moves on to its old successor |
| LinkedList.DoublyLinkedList.LastNode | TaskManagerSystem.java:190-195 | following `next` from the head reaches the last node of the chain |
| LinkedList.DoublyLinkedList.SortedInsert | TaskManagerSystem.java:200-231 | the chain grows by exactly the new node (its multiset of nodes gains that node), stays well formed, and its tasks become `InsertByDate` of the old ones |
| LinkedList.DoublyLinkedList.InsertAfterFirst | TaskManagerSystem.java:213-231 | when the new task is due after the head's, it is linked in at the insertion point behind the head |
| LinkedList.DoublyLinkedList.FindInsertionPoint | TaskManagerSystem.java:213-219 | the walk stops at the node right before the insertion point |
| LinkedList.DoublyLinkedList.LinkBefore | TaskManagerSystem.java:203-210 | linking the node in front of the chain gives a well-formed chain |
| LinkedList.DoublyLinkedList.LinkAfter | TaskManagerSystem.java:222-228 | the four link writes splice the node in after the chosen node, keeping the chain well formed |
| Containers.Queue.constructor | TaskManagerSystem.java:269 | a new queue is empty |
| Containers.Queue.Enqueue | TaskManagerSystem.java:273-277 | the task is marked completed and appended at the back |
| Containers.Queue.Dequeue | TaskManagerSystem.java:281-284 | null on an empty queue; otherwise the front task is returned and removed |
| Containers.Queue.IsEmpty | TaskManagerSystem.java:288-291 | true exactly when no task is queued |
| Containers.Stack.constructor | TaskManagerSystem.java:317 | a new stack is empty |
| Containers.Stack.Push | TaskManagerSystem.java:321-327 | the task is appended exactly when it is urgent and not completed; otherwise nothing changes; the stack holds only urgent tasks |
| Containers.Stack.Pop | TaskManagerSystem.java:331-334 | null on an empty stack; otherwise the most recently pushed task, which is urgent, is returned and removed |
| Containers.Stack.IsEmpty | TaskManagerSystem.java:338-341 | true exactly when no task is stacked |
| Containers.TaskList.constructor | TaskManagerSystem.java:370 | a new task list is empty |
| Containers.TaskList.AddTask | TaskManagerSystem.java:374-377 | the task is appended |
| Containers.TaskList.GetTaskByUserInput | TaskManagerSystem.java:381-399 | the task numbered `index` when pending tasks are numbered from 1 in list order, or null when no pending task has that number (zero and negative numbers included); never a completed task |
| Containers.TaskList.SortTasksByDate | TaskManagerSystem.java:403-407 | the contents become `SortByDate` of the old contents |
| Manager.TaskManager.constructor | TaskManagerSystem.java:464-466 | three empty, separate, well-formed collections, each a newly allocated list with an empty footprint |
| Manager.TaskManager.AddTask | TaskManagerSystem.java:533-558 | an invalid date changes nothing and yields null; a valid one creates a pending task with the given fields, appends it to the task list, pushes it on the urgent stack exactly when it is urgent, and leaves the queue alone; the task list and the stack only grow by newly allocated nodes |
| Manager.TaskManager.FileTask | TaskManagerSystem.java:550-551 | the new pending task is appended to the task list and the invariants still hold |
| Manager.TaskManager.StackUrgent | TaskManagerSystem.java:552-555 | a pending urgent task is pushed on the urgent stack, which only grows by newly allocated nodes, and the invariants still hold |
| Manager.TaskManager.MarkTaskAsCompleted | TaskManagerSystem.java:562-602 | the list ends up sorted by due date; the result is task number `choice` of the sorted list, or null when there is none (empty list, number out of range); a chosen task is marked completed, appended to the queue, and cut out of the sorted list at its position; the urgent stack is unchanged and the invariants still hold; the task list keeps its footprint and the queue only grows by newly allocated nodes |
| Manager.TaskManager.CompleteChoice | TaskManagerSystem.java:568-601 | the same outcome as `MarkTaskAsCompleted` for a non-empty list |
| Manager.TaskManager.SortAndSelect | TaskManagerSystem.java:568-585 | the list is sorted and the result is the task numbered `choice` in it, or null |
| Manager.TaskManager.SortTaskList | TaskManagerSystem.java:568 | the list is sorted by due date, the invariants still hold, and the numbered listing is the whole sorted list |
| Manager.TaskManager.SelectTask | TaskManagerSystem.java:585 | in a list whose tasks are all pending, the task numbered `choice` is its element `choice - 1`; nothing changes |
| Manager.TaskManager.CompleteTask | TaskManagerSystem.java:587-596 | the task is marked completed, appended to the queue and cut out of the task list at its position; the stack is unchanged and the invariants still hold |
| Manager.TaskManager.UnlinkCompleted | TaskManagerSystem.java:590-594 | unlinking the just-completed task leaves a list of pending tasks without repeats |
| Manager.TaskManager.UnlinkNode | TaskManagerSystem.java:590-594 | the node of the task is found and removed, cutting the task out of the list at its position |
| Manager.CompletionScenario | TaskManagerSystem.java:533-601 | on a new manager, adding A (1/1/2025, urgent), B (5/6/2024) and C (5/6/2024, urgent) and then choosing number 1 completes C: the task list is B, A, the urgent stack A, C and the queue C |
| Manager.AddThree | TaskManagerSystem.java:533-558 | the three additions of that session file A, B, C in order in the task list and A, C on the urgent stack |
| Manager.AddTwo | TaskManagerSystem.java:533-558 | the first two additions of that session |
| Manager.AddOne | TaskManagerSystem.java:533-558 | the first addition of that session |
| Manager.CompleteFirst | TaskManagerSystem.java:562-601 | choosing number 1 in the list A, B, C completes C and leaves B, A listed |
| Manager.SortedFromList | TaskManagerSystem.java:172-196 | sorting a list without repeated tasks gives one without repeats, drawn from the same tasks |
| Manager.SettledNumbering | TaskManagerSystem.java:568-585 | when every listed task is pending, the numbers offered after sorting are exactly the positions in the sorted list |

## Left out

- The menu loop, the Scanner input loops (`getInput`, `getStringInput`) and all printing are left out. This covers `printCompletedTasks`, `printUrgentTasks`, `printTasksByCategory`, `printTasks` and the numbered listing in `markTaskAsCompleted`. The selections the printing code makes are modelled as `Tasks.Active` and `Tasks.ActiveInCategory`.
- Manager.TaskManager.AddTask: the range checks that `getInput` performs (day 1..31, month 1..12, year 1..9999) become a precondition. The category prompt becomes a `Category` parameter, so the string label and its case-insensitive matching are not modelled.
- Manager.TaskManager.MarkTaskAsCompleted: `getInput` only accepts numbers from 1 to the count of listed tasks. The model takes any integer and also states the outcome for numbers outside that range.
- Manager.TaskManager.MarkTaskAsCompleted: requires `Settled()`, the invariant that the constructor establishes and every command preserves. Under it every listed task is pending, so the "invalid task number or task already completed" branch can only be reached with a number out of range.
- Tasks.CompareTasks: Java `int` overflow in the subtractions is not modelled. Years are at most 9999, so the differences stay small and only their sign is used.
- LinkedList.DoublyLinkedList.Remove: requires the node to belong to the list. Removing a foreign node, which the Java code does not guard against, is not modelled.
- LinkedList.DoublyLinkedList.Sort: in the Java code the sort is two methods, `sort` (172-196) and the private `sortedInsert` (200-231). The model splits them into smaller methods, as it does the removal and the completion command, each with its own contract. The order of the link writes is unchanged.
- `Queue.dequeue` and `Stack.pop` are modelled, but no command of the program calls them.
- The `toString` method of a task (display text only) is not modelled.
