/**
 * The hand-written doubly-linked list of task references that the task
 * list, the urgent stack and the completed queue are all built on.
 *
 * The abstract value of a list is the sequence of its nodes, `Nodes`, and the
 * tasks they carry, `Contents()`. `Valid()` ties `head`, `tail` and every
 * node's `next` and `prev` to that sequence.
 */
module LinkedList {
  import opened Tasks
  import opened DateSort
  import opened Sequences

  /** One position of a list. The task a node carries never changes; the
      links are rewritten in place. */
  class Node {
    const task: Task
    var next: Node?
    var prev: Node?

    constructor (task: Task)
      ensures this.task == task && next == null && prev == null
    {
      this.task := task;
      next := null;
      prev := null;
    }
  }

  /** The tasks carried by a chain of nodes, in chain order. */
  function TasksOf(ns: seq<Node>): (r: seq<Task>)
  {
    seq(|ns|, i requires 0 <= i < |ns| => ns[i].task)
  }

  /** The tasks of a cut-out stretch of a chain are the same stretch of
      its tasks. */
  lemma TasksOfSlice(ns: seq<Node>, lo: nat, hi: nat)
    requires lo <= hi <= |ns|
    ensures TasksOf(ns[lo..hi]) == TasksOf(ns)[lo..hi]
  {
  }

  /** The tasks of a chain with position `i` cut out are its tasks with
      position `i` cut out. */
  lemma TasksOfCut(ns: seq<Node>, i: nat)
    requires i < |ns|
    ensures TasksOf(ns[..i] + ns[i + 1..]) == TasksOf(ns)[..i] + TasksOf(ns)[i + 1..]
  {
    TasksOfSlice(ns, 0, i);
    TasksOfSlice(ns, i + 1, |ns|);
    TasksOfConcat(ns[..i], ns[i + 1..]);
  }

  /** The tasks of two chains joined are their tasks joined. */
  lemma TasksOfConcat(a: seq<Node>, b: seq<Node>)
    ensures TasksOf(a + b) == TasksOf(a) + TasksOf(b)
  {
  }

  /** `ns` is a well-formed doubly-linked chain: no node occurs twice,
      neighbours point at each other, the first node has no predecessor and
      the last no successor. */
  ghost predicate Linked(ns: seq<Node>)
    reads ns
  {
    Distinct(ns) &&
    (forall i :: 0 <= i < |ns| - 1 ==> ns[i].next == ns[i + 1]) &&
    (forall i :: 0 < i < |ns| ==> ns[i].prev == ns[i - 1]) &&
    (|ns| > 0 ==> ns[0].prev == null && ns[|ns| - 1].next == null)
  }

  /** In a well-formed chain, only the last node has no successor. */
  lemma LinkedLast(ns: seq<Node>, t: nat)
    requires Linked(ns) && t < |ns| && ns[t].next == null
    ensures t == |ns| - 1
  {
    forall i | 0 <= i < |ns| - 1
      ensures ns[i].next != null
    {
      assert ns[i].next == ns[i + 1];
    }
  }

  /** Extending a prefix of `ns` by one node adds that node to its multiset. */
  lemma PrefixMultiset(ns: seq<Node>, k: nat)
    requires k < |ns|
    ensures multiset(ns[..k + 1]) == multiset(ns[..k]) + multiset{ns[k]}
  {
    assert ns[..k + 1] == ns[..k] + [ns[k]];
  }

  /** `n` inserted at position `p` of `chain`. */
  function Spliced(chain: seq<Node>, p: nat, n: Node): (r: seq<Node>)
    requires p <= |chain|
  {
    chain[..p] + [n] + chain[p..]
  }

  /** Splicing a node into a chain adds exactly that node, keeps the nodes
      distinct when it was not there yet, and splices its task into the
      chain's tasks. */
  lemma Splice(chain: seq<Node>, p: nat, n: Node)
    requires p <= |chain|
    ensures |Spliced(chain, p, n)| == |chain| + 1
    ensures forall m :: m in Spliced(chain, p, n) <==> m in chain || m == n
    ensures TasksOf(Spliced(chain, p, n)) == TasksOf(chain)[..p] + [n.task] + TasksOf(chain)[p..]
    ensures Distinct(chain) && n !in chain ==> Distinct(Spliced(chain, p, n))
    ensures multiset(Spliced(chain, p, n)) == multiset(chain) + multiset{n}
  {
    assert chain == chain[..p] + chain[p..];
    var longer := Spliced(chain, p, n);
    assert multiset(longer) == multiset(chain[..p]) + multiset{n} + multiset(chain[p..]);
    if Distinct(chain) && n !in chain {
      forall i, j | 0 <= i < j < |longer| ensures longer[i] != longer[j] {
        if j < p {
          assert longer[i] == chain[i] && longer[j] == chain[j];
        } else if i > p {
          assert longer[i] == chain[i - 1] && longer[j] == chain[j - 1];
        } else if i < p && j > p {
          assert longer[i] == chain[i] && longer[j] == chain[j - 1];
        }
      }
    }
  }

  /** After `n` has been linked in between positions `p - 1` and `p` of the
      well-formed chain `chain` (the four link writes of the insertion), the
      longer chain is well formed. */
  lemma SpliceLinked(chain: seq<Node>, p: nat, n: Node)
    requires 0 < p <= |chain| && n !in chain && Distinct(chain)
    requires forall j :: 0 <= j < |chain| - 1 && j != p - 1 ==> chain[j].next == chain[j + 1]
    requires forall j :: 0 < j < |chain| && j != p ==> chain[j].prev == chain[j - 1]
    requires chain[0].prev == null
    requires p < |chain| ==> chain[|chain| - 1].next == null && chain[p].prev == n
    requires chain[p - 1].next == n && n.prev == chain[p - 1]
    requires n.next == if p < |chain| then chain[p] else null
    ensures Linked(Spliced(chain, p, n))
  {
    Splice(chain, p, n);
    var longer := Spliced(chain, p, n);
    assert forall j :: 0 <= j < p ==> longer[j] == chain[j];
    assert forall j :: p < j < |longer| ==> longer[j] == chain[j - 1];
    forall j | 0 <= j < |longer| - 1
      ensures longer[j].next == longer[j + 1]
    {
      if j < p - 1 {
        assert longer[j] == chain[j] && longer[j + 1] == chain[j + 1];
      } else if j > p {
        assert longer[j] == chain[j - 1] && longer[j + 1] == chain[j];
      }
    }
    forall j | 0 < j < |longer|
      ensures longer[j].prev == longer[j - 1]
    {
      if j < p {
        assert longer[j] == chain[j] && longer[j - 1] == chain[j - 1];
      } else if j > p + 1 {
        assert longer[j] == chain[j - 1] && longer[j - 1] == chain[j - 2];
      }
    }
  }

  /** After `n` has been linked in front of the well-formed chain `chain`,
      the longer chain is well formed. */
  lemma PrependLinked(chain: seq<Node>, n: Node)
    requires n !in chain && Distinct(chain)
    requires forall j :: 0 <= j < |chain| - 1 ==> chain[j].next == chain[j + 1]
    requires forall j :: 0 < j < |chain| ==> chain[j].prev == chain[j - 1]
    requires chain != [] ==> chain[0].prev == n && chain[|chain| - 1].next == null
    requires n.prev == null && n.next == if chain == [] then null else chain[0]
    ensures Linked([n] + chain)
  {
    Splice(chain, 0, n);
    assert [n] + chain == Spliced(chain, 0, n);
  }

  /** After the two neighbours of the node at interior position `i` of the
      well-formed chain `ns` have been linked to each other, the chain
      without that node is well formed. */
  lemma CutLinked(ns: seq<Node>, i: nat)
    requires 0 < i < |ns| - 1 && Distinct(ns)
    requires forall j :: 0 <= j < |ns| - 1 && j != i - 1 && j != i ==> ns[j].next == ns[j + 1]
    requires forall j :: 0 < j < |ns| && j != i && j != i + 1 ==> ns[j].prev == ns[j - 1]
    requires ns[i - 1].next == ns[i + 1] && ns[i + 1].prev == ns[i - 1]
    requires ns[0].prev == null && ns[|ns| - 1].next == null
    ensures Linked(ns[..i] + ns[i + 1..])
  {
    var short := ns[..i] + ns[i + 1..];
    assert forall j :: 0 <= j < i ==> short[j] == ns[j];
    assert forall j :: i <= j < |short| ==> short[j] == ns[j + 1];
    forall a, b | 0 <= a < b < |short| ensures short[a] != short[b] {
      var a', b' := if a < i then a else a + 1, if b < i then b else b + 1;
      assert short[a] == ns[a'] && short[b] == ns[b'];
    }
    forall j | 0 <= j < |short| - 1
      ensures short[j].next == short[j + 1]
    {
      if j + 1 < i {
        assert short[j] == ns[j] && short[j + 1] == ns[j + 1];
      } else if j + 1 == i {
        assert short[j] == ns[i - 1] && short[j + 1] == ns[i + 1];
      } else {
        assert short[j] == ns[j + 1] && short[j + 1] == ns[j + 2];
      }
    }
    forall j | 0 < j < |short|
      ensures short[j].prev == short[j - 1]
    {
      if j < i {
        assert short[j] == ns[j] && short[j - 1] == ns[j - 1];
      } else if j == i {
        assert short[j] == ns[i + 1] && short[j - 1] == ns[i - 1];
      } else {
        assert short[j] == ns[j + 1] && short[j - 1] == ns[j];
      }
    }
  }

  class DoublyLinkedList {
    var head: Node?
    var tail: Node?
    /** The nodes of the list, head first. */
    ghost var Nodes: seq<Node>
    /** Every node this list has linked; the nodes it may relink. */
    ghost var Repr: set<Node>

    ghost predicate Valid()
      reads this, Repr
    {
      (forall n :: n in Nodes ==> n in Repr) &&
      Linked(Nodes) &&
      (if Nodes == [] then head == null && tail == null
       else head == Nodes[0] && tail == Nodes[|Nodes| - 1])
    }

    /** The tasks in the list, head first. */
    ghost function Contents(): seq<Task>
      reads this
    {
      TasksOf(Nodes)
    }

    constructor ()
      ensures Valid() && Contents() == [] && Repr == {}
    {
      head, tail := null, null;
      Nodes, Repr := [], {};
    }

    /** Appends `task` at the tail. */
    method Add(task: Task)
      requires Valid()
      modifies this, Repr
      ensures Valid() && fresh(Repr - old(Repr))
      ensures Contents() == old(Contents()) + [task]
    {
      var newNode := new Node(task);
      if head == null {
        head, tail := newNode, newNode;
      } else {
        tail.next := newNode;
        newNode.prev := tail;
        tail := newNode;
      }
      Nodes, Repr := Nodes + [newNode], Repr + {newNode};
    }

    /** Unlinks the head and returns its task; null on an empty list. */
    method RemoveFront() returns (task: Task?)
      requires Valid()
      modifies this, Repr
      ensures Valid() && Repr == old(Repr)
      ensures old(Contents()) == [] ==> task == null && Contents() == []
      ensures old(Contents()) != [] ==> task == old(Contents())[0] && Contents() == old(Contents())[1..]
    {
      if head == null {
        return null;
      }
      task := head.task;
      UnlinkHead();
      TasksOfSlice(old(Nodes), 1, |old(Nodes)|);
    }

    /** Unlinks the first node: `head` moves on to its successor, whose
        `prev` is cleared, and a list left empty also clears `tail`. */
    method UnlinkHead()
      requires Valid() && Nodes != []
      modifies this, Repr
      ensures Valid() && Repr == old(Repr) && Nodes == old(Nodes)[1..]
    {
      head := head.next;
      if head == null {
        tail := null;
      } else {
        assert head == Nodes[1];
        head.prev := null;
      }
      Nodes := Nodes[1..];
    }

    /** Unlinks the tail and returns its task; null on an empty list. */
    method RemoveLast() returns (task: Task?)
      requires Valid()
      modifies this, Repr
      ensures Valid() && Repr == old(Repr)
      ensures old(Contents()) == [] ==> task == null && Contents() == []
      ensures old(Contents()) != [] ==>
        task == old(Contents())[|old(Contents())| - 1] && Contents() == old(Contents())[..|old(Contents())| - 1]
    {
      if tail == null {
        return null;
      }
      task := tail.task;
      UnlinkTail();
      TasksOfSlice(old(Nodes), 0, |old(Nodes)| - 1);
    }

    /** Unlinks the last node: `tail` moves back to its predecessor, whose
        `next` is cleared, and a list left empty also clears `head`. */
    method UnlinkTail()
      requires Valid() && Nodes != []
      modifies this, Repr
      ensures Valid() && Repr == old(Repr) && Nodes == old(Nodes)[..|old(Nodes)| - 1]
    {
      tail := tail.prev;
      if tail == null {
        head := null;
      } else {
        assert tail == Nodes[|Nodes| - 2];
        tail.next := null;
      }
      Nodes := Nodes[..|Nodes| - 1];
    }

    /** The task at zero-based `index`, or null when there is none. */
    method Get(index: int) returns (task: Task?)
      requires Valid()
      ensures task == if 0 <= index < |Contents()| then Contents()[index] else null
    {
      var current := head;
      var count := 0;
      while current != null
        invariant 0 <= count <= |Nodes|
        invariant current == if count < |Nodes| then Nodes[count] else null
        invariant index < 0 || count <= index
        decreases |Nodes| - count
      {
        if count == index {
          return current.task;
        }
        count := count + 1;
        current := current.next;
      }
      return null;
    }

    predicate IsEmpty()
      requires Valid()
      reads this, Repr
      ensures IsEmpty() <==> Contents() == []
    {
      head == null
    }

    /** Splices `node` out of the list. */
    method Remove(node: Node)
      requires Valid() && node in Nodes
      modifies this, Repr
      ensures Valid() && Repr == old(Repr)
      ensures var i := FirstIndex(old(Nodes), node);
        Nodes == old(Nodes)[..i] + old(Nodes)[i + 1..] &&
        Contents() == old(Contents())[..i] + old(Contents())[i + 1..]
    {
      ghost var i := FirstIndex(Nodes, node);
      ghost var before := Nodes;
      if node == head {
        assert i == 0 && before[..0] + before[1..] == before[1..];
        UnlinkHead();
      } else if node == tail {
        assert i == |before| - 1 && before[..i] + before[i + 1..] == before[..i];
        UnlinkTail();
      } else {
        UnlinkInterior(node, i);
      }
      assert Valid() && Nodes == before[..i] + before[i + 1..];
      if head == null {
        tail := null;
      }
      TasksOfCut(old(Nodes), i);
    }

    /** Unlinks `node`, which is neither the first nor the last node, by
        linking its two neighbours to each other. */
    method UnlinkInterior(node: Node, ghost i: nat)
      requires Valid() && 0 < i < |Nodes| - 1 && node == Nodes[i]
      modifies this, Repr
      ensures Valid() && Repr == old(Repr) && Nodes == old(Nodes)[..i] + old(Nodes)[i + 1..]
    {
      assert Nodes[i - 1] in Repr && Nodes[i + 1] in Repr;
      Bypass(node, Nodes, i);
      Nodes := Nodes[..i] + Nodes[i + 1..];
      assert forall j :: 0 <= j < |Nodes| ==> Nodes[j] == old(Nodes)[if j < i then j else j + 1];
    }

    /** Links the two neighbours of `node`, the node at an interior position
        `i` of the well-formed chain `ns`, to each other, so that the chain
        without it is well formed. */
    static method Bypass(node: Node, ghost ns: seq<Node>, ghost i: nat)
      requires Linked(ns) && 0 < i < |ns| - 1 && node == ns[i]
      modifies ns[i - 1], ns[i + 1]
      ensures Linked(ns[..i] + ns[i + 1..])
    {
      node.prev.next := node.next;
      node.next.prev := node.prev;
      CutLinked(ns, i);
    }

    /** The first node carrying `task` (by reference), or null. */
    method GetNodeByTask(task: Task) returns (node: Node?)
      requires Valid()
      ensures task !in Contents() ==> node == null
      ensures task in Contents() ==> node == Nodes[FirstIndex(Contents(), task)]
    {
      var current := head;
      ghost var k := 0;
      while current != null
        invariant 0 <= k <= |Nodes|
        invariant current == if k < |Nodes| then Nodes[k] else null
        invariant task !in Contents()[..k]
        decreases |Nodes| - k
      {
        if current.task == task {
          FirstIndexAt(Contents(), task, k);
          return current;
        }
        assert Contents()[..k + 1] == Contents()[..k] + [current.task];
        current := current.next;
        k := k + 1;
      }
      return null;
    }

    /** Sorts the list by due date by relinking its nodes: each node, front
        to back, is detached and linked into a growing sorted chain. */
    method Sort()
      requires Valid()
      modifies this, Repr
      ensures Valid() && Repr == old(Repr)
      ensures multiset(Nodes) == multiset(old(Nodes))
      ensures Contents() == SortByDate(old(Contents()))
    {
      if head == null || head.next == null {
        if head != null {
          LinkedLast(Nodes, 0);
        }
        SortByDateShort(Contents());
        return;
      }
      SortLong();
    }

    /** `Sort` on a list of at least two nodes. */
    method SortLong()
      requires Valid() && head != null && head.next != null
      modifies this, Repr
      ensures Valid() && Repr == old(Repr)
      ensures multiset(Nodes) == multiset(old(Nodes))
      ensures Contents() == SortByDate(old(Contents()))
    {
      var sorted: Node;
      ghost var done: seq<Node>;
      sorted, done := InsertionPass(head, Nodes);
      var last := LastNode(sorted, done);
      assert forall n :: n in done ==> n in Repr;
      head, tail := sorted, last;
      Nodes := done;
    }

    /** The main loop of the sort: detaches the nodes of the well-formed
        chain `nodes`, front to back, and links each one into a growing
        sorted chain with `SortedInsert`. Returns the first node of the
        sorted chain. */
    method InsertionPass(first: Node, ghost nodes: seq<Node>) returns (sorted: Node, ghost done: seq<Node>)
      requires Linked(nodes) && nodes != [] && first == nodes[0]
      modifies nodes
      ensures Linked(done) && done != [] && sorted == done[0]
      ensures forall n :: n in done ==> n in nodes
      ensures multiset(done) == multiset(nodes)
      ensures TasksOf(done) == SortByDate(TasksOf(nodes))
    {
      ghost var tasks := TasksOf(nodes);
      var sorted': Node? := null;
      var current: Node? := first;
      done := [];
      ghost var k := 0;
      while current != null
        invariant 0 <= k <= |nodes| && |done| == k
        invariant current == if k < |nodes| then nodes[k] else null
        invariant Linked(done)
        invariant sorted' == if done == [] then null else done[0]
        invariant TasksOf(done) == SortByDate(tasks[..k])
        invariant Distinct(nodes)
        invariant forall n :: n in done ==> n in nodes
        invariant multiset(done) == multiset(nodes[..k])
        invariant forall j :: k <= j < |nodes| ==> nodes[j] !in done
        invariant forall j :: k <= j < |nodes| - 1 ==> nodes[j].next == nodes[j + 1]
        invariant k < |nodes| ==> nodes[|nodes| - 1].next == null
        decreases |nodes| - k
      {
        assert forall i :: 0 <= i < |done| ==> done[i] in nodes;
        SortByDateStep(tasks, k);
        PrefixMultiset(nodes, k);
        sorted', current, done := DetachAndInsert(sorted', current, nodes, done, k);
        k := k + 1;
      }
      assert tasks[..k] == tasks && nodes[..k] == nodes;
      sorted := sorted';
    }

    /** One round of the main loop of the sort: detaches `current`, the
        node at position `k` of the original chain `nodes`, links it into the
        sorted chain `done` and returns the new first node of the sorted chain
        and the node that followed `current`. */
    method DetachAndInsert(sorted: Node?, current: Node, ghost nodes: seq<Node>, ghost done: seq<Node>, ghost k: nat)
      returns (sorted': Node, next: Node?, ghost done': seq<Node>)
      requires k < |nodes| && current == nodes[k] && Distinct(nodes)
      requires Linked(done) && sorted == if done == [] then null else done[0]
      requires forall n :: n in done ==> n in nodes
      requires forall j :: k <= j < |nodes| ==> nodes[j] !in done
      requires forall j :: k <= j < |nodes| - 1 ==> nodes[j].next == nodes[j + 1]
      requires nodes[|nodes| - 1].next == null
      modifies done, current
      ensures next == if k + 1 < |nodes| then nodes[k + 1] else null
      ensures |done'| == |done| + 1 && Linked(done') && sorted' == done'[0]
      ensures TasksOf(done') == InsertByDate(TasksOf(done), current.task)
      ensures forall n :: n in done' ==> n in nodes
      ensures multiset(done') == multiset(done) + multiset{current}
      ensures forall j :: k < j < |nodes| ==> nodes[j] !in done'
      ensures forall j :: k < j < |nodes| - 1 ==> nodes[j].next == nodes[j + 1]
      ensures k + 1 < |nodes| ==> nodes[|nodes| - 1].next == null
    {
      next := current.next;
      current.prev, current.next := null, null;
      sorted', done' := SortedInsert(sorted, current, done);
    }

    /** Follows the `next` links from `first`, the head of the well-formed
        chain `chain`, to its last node. */
    static method LastNode(first: Node, ghost chain: seq<Node>) returns (last: Node)
      requires Linked(chain) && chain != [] && first == chain[0]
      ensures last == chain[|chain| - 1]
    {
      last := first;
      ghost var t := 0;
      while last.next != null
        invariant 0 <= t < |chain| && last == chain[t]
        decreases |chain| - t
      {
        last := last.next;
        t := t + 1;
      }
      LinkedLast(chain, t);
    }

    /** Links the detached `newNode` into the sorted chain `chain` starting
        at `sorted`, in front of the first node whose task is not due before
        its own, and returns the first node of the longer chain. */
    method SortedInsert(sorted: Node?, newNode: Node, ghost chain: seq<Node>) returns (first: Node, ghost longer: seq<Node>)
      requires Linked(chain) && newNode !in chain
      requires newNode.next == null && newNode.prev == null
      requires sorted == if chain == [] then null else chain[0]
      modifies chain, newNode
      ensures |longer| == |chain| + 1
      ensures Linked(longer)
      ensures first == longer[0]
      ensures TasksOf(longer) == InsertByDate(TasksOf(chain), newNode.task)
      ensures forall m :: m in longer ==> m in chain || m == newNode
      ensures multiset(longer) == multiset(chain) + multiset{newNode}
    {
      if sorted == null || CompareTasks(newNode.task, sorted.task) <= 0 {
        LinkBefore(sorted, newNode, chain);
        Splice(chain, 0, newNode);
        return newNode, Spliced(chain, 0, newNode);
      }
      longer := InsertAfterFirst(sorted, newNode, chain);
      return sorted, longer;
    }

    /** `SortedInsert` when `newNode`'s task is due after the first task of
        the chain: `newNode` is linked after the last node whose task is due
        before its own. */
    method InsertAfterFirst(sorted: Node, newNode: Node, ghost chain: seq<Node>) returns (ghost longer: seq<Node>)
      requires Linked(chain) && newNode !in chain && chain != [] && sorted == chain[0]
      requires CompareTasks(newNode.task, sorted.task) > 0
      modifies chain, newNode
      ensures |longer| == |chain| + 1
      ensures Linked(longer)
      ensures sorted == longer[0]
      ensures TasksOf(longer) == InsertByDate(TasksOf(chain), newNode.task)
      ensures forall m :: m in longer ==> m in chain || m == newNode
      ensures multiset(longer) == multiset(chain) + multiset{newNode}
    {
      var current := FindInsertionPoint(sorted, newNode, chain);
      ghost var p := FirstIndex(chain, current) + 1;
      LinkAfter(current, newNode, chain, p);
      Splice(chain, p, newNode);
      longer := Spliced(chain, p, newNode);
    }

    /** Walks the sorted chain from `sorted`, whose first task is due before
        `newNode`'s, to the last node whose task is due before `newNode`'s:
        the node after which `newNode` is to be linked. */
    method FindInsertionPoint(sorted: Node, newNode: Node, ghost chain: seq<Node>) returns (current: Node)
      requires Linked(chain) && chain != [] && sorted == chain[0]
      requires CompareTasks(newNode.task, sorted.task) > 0
      ensures current in chain && FirstIndex(chain, current) + 1 == InsertPos(TasksOf(chain), newNode.task)
    {
      current := sorted;
      ghost var i := 0;
      while current.next != null && CompareTasks(newNode.task, current.next.task) > 0
        invariant 0 <= i < |chain| && current == chain[i]
        invariant forall j :: 0 <= j <= i ==> CompareTasks(newNode.task, chain[j].task) > 0
        decreases |chain| - i
      {
        current := current.next;
        i := i + 1;
      }
      assert FirstIndex(chain, current) == i;
      InsertPosUnique(TasksOf(chain), newNode.task, i + 1);
    }

    /** Links the detached `newNode` in front of `sorted`, the first node of
        the well-formed chain `chain` (null when it is empty). */
    static method LinkBefore(sorted: Node?, newNode: Node, ghost chain: seq<Node>)
      requires Linked(chain) && newNode !in chain
      requires newNode.prev == null
      requires sorted == if chain == [] then null else chain[0]
      modifies chain, newNode
      ensures Linked(Spliced(chain, 0, newNode))
    {
      newNode.next := sorted;
      if sorted != null {
        sorted.prev := newNode;
      }
      PrependLinked(chain, newNode);
      assert [newNode] + chain == Spliced(chain, 0, newNode);
    }

    /** Links the detached `newNode` in right after `current`, the node at
        position `p - 1` of the well-formed chain `chain`. */
    method LinkAfter(current: Node, newNode: Node, ghost chain: seq<Node>, ghost p: nat)
      requires 0 < p <= |chain| && current == chain[p - 1]
      requires Linked(chain) && newNode !in chain
      modifies chain, newNode
      ensures Linked(Spliced(chain, p, newNode))
    {
      assert current.next == if p < |chain| then chain[p] else null;
      newNode.next := current.next;
      if current.next != null {
        current.next.prev := newNode;
      }
      current.next := newNode;
      newNode.prev := current;
      SpliceLinked(chain, p, newNode);
    }
  }
}
