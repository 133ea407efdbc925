/**
 * What the linked-list insertion sort computes, stated on sequences of tasks.
 *
 * The sort detaches the nodes from front to back and links each one into a
 * growing sorted chain BEFORE the first task whose date is not earlier than
 * its own. A task therefore lands in front of every task with the same date
 * that was inserted before it: tasks that share a due date come out in the
 * reverse of their original order.
 */
module DateSort {
  import opened Tasks

  /** Index at which the insertion links task `t` into `s`: the first index
      whose task is due on or after `t`, or `|s|` when there is none. */
  function InsertPos(s: seq<Task>, t: Task): (p: nat)
    ensures p <= |s|
    ensures forall j :: 0 <= j < p ==> CompareTasks(t, s[j]) > 0
    ensures p < |s| ==> CompareTasks(t, s[p]) <= 0
  {
    if s == [] || CompareTasks(t, s[0]) <= 0 then 0 else 1 + InsertPos(s[1..], t)
  }

  /** The insertion point is the only index with all earlier tasks due
      strictly before `t` and the task there (if any) due no earlier. */
  lemma InsertPosUnique(s: seq<Task>, t: Task, p: nat)
    requires p <= |s|
    requires forall j :: 0 <= j < p ==> CompareTasks(t, s[j]) > 0
    requires p < |s| ==> CompareTasks(t, s[p]) <= 0
    ensures InsertPos(s, t) == p
  {
  }

  /** `s` with `t` inserted at `InsertPos(s, t)`. */
  function InsertByDate(s: seq<Task>, t: Task): (r: seq<Task>)
    ensures |r| == |s| + 1 && r[InsertPos(s, t)] == t
  {
    var p := InsertPos(s, t);
    s[..p] + [t] + s[p..]
  }

  /** The order the sort leaves the tasks of `s` in: each task, front to
      back, inserted into the result of sorting the tasks before it. */
  function SortByDate(s: seq<Task>): (r: seq<Task>)
    ensures |r| == |s|
  {
    if s == [] then [] else InsertByDate(SortByDate(s[..|s| - 1]), s[|s| - 1])
  }

  /** One step of the sort: the first `k + 1` tasks sort to the first `k`
      sorted with task `k` inserted. */
  lemma SortByDateStep(s: seq<Task>, k: nat)
    requires k < |s|
    ensures SortByDate(s[..k + 1]) == InsertByDate(SortByDate(s[..k]), s[k])
  {
    assert s[..k + 1][..k] == s[..k];
  }

  /** Non-decreasing by due date, every pair compared. */
  ghost predicate SortedByDate(s: seq<Task>)
  {
    forall i, j :: 0 <= i < j < |s| ==> CompareTasks(s[i], s[j]) <= 0
  }

  /** The tasks of `s` due on date `d`, in order. */
  function DueOn(s: seq<Task>, d: Date): (r: seq<Task>)
  {
    if s == [] then []
    else DueOn(s[..|s| - 1], d) + (if Due(s[|s| - 1]) == d then [s[|s| - 1]] else [])
  }

  /** `s` back to front. */
  function Reversed(s: seq<Task>): (r: seq<Task>)
  {
    if s == [] then [] else [s[|s| - 1]] + Reversed(s[..|s| - 1])
  }

  /** Inserting keeps every task and adds exactly one occurrence of `t`. */
  lemma InsertByDatePermutes(s: seq<Task>, t: Task)
    ensures |InsertByDate(s, t)| == |s| + 1
    ensures multiset(InsertByDate(s, t)) == multiset(s) + multiset{t}
  {
    var p := InsertPos(s, t);
    assert s == s[..p] + s[p..];
  }

  /** Inserting into a sorted sequence keeps it sorted. */
  lemma InsertByDateSorted(s: seq<Task>, t: Task)
    requires SortedByDate(s)
    ensures SortedByDate(InsertByDate(s, t))
  {
    var p := InsertPos(s, t);
    var r := InsertByDate(s, t);
    assert forall k :: 0 <= k < p ==> r[k] == s[k];
    assert forall k :: p < k < |r| ==> r[k] == s[k - 1];
    forall i, j | 0 <= i < j < |r| ensures CompareTasks(r[i], r[j]) <= 0 {
      if j == p {
        assert CompareTasks(t, r[i]) > 0;
      } else if i == p {
        assert CompareTasks(t, s[p]) <= 0;
        assert j - 1 == p || CompareTasks(s[p], s[j - 1]) <= 0;
      }
    }
  }

  /** The sort returns a permutation of its input. */
  lemma {:induction false} SortByDatePermutes(s: seq<Task>)
    ensures |SortByDate(s)| == |s|
    ensures multiset(SortByDate(s)) == multiset(s)
  {
    if s != [] {
      var init, last := s[..|s| - 1], s[|s| - 1];
      assert s == init + [last];
      assert multiset(s) == multiset(init) + multiset{last};
      SortByDatePermutes(init);
      InsertByDatePermutes(SortByDate(init), last);
    }
  }

  /** The sort returns its input in non-decreasing due-date order. */
  lemma {:induction false} SortByDateSorted(s: seq<Task>)
    ensures SortedByDate(SortByDate(s))
  {
    if s != [] {
      SortByDateSorted(s[..|s| - 1]);
      InsertByDateSorted(SortByDate(s[..|s| - 1]), s[|s| - 1]);
    }
  }

  lemma {:induction false} DueOnAppend(a: seq<Task>, b: seq<Task>, d: Date)
    ensures DueOn(a + b, d) == DueOn(a, d) + DueOn(b, d)
    decreases |b|
  {
    if b == [] {
      assert a + b == a;
    } else {
      DueOnAppend(a, b[..|b| - 1], d);
      assert (a + b)[..|a + b| - 1] == a + b[..|b| - 1];
    }
  }

  lemma InsertByDateSplit(s: seq<Task>, t: Task, d: Date)
    ensures var p := InsertPos(s, t);
      DueOn(InsertByDate(s, t), d) == DueOn(s[..p], d) + DueOn([t], d) + DueOn(s[p..], d) &&
      DueOn(s, d) == DueOn(s[..p], d) + DueOn(s[p..], d)
  {
    var p := InsertPos(s, t);
    var before, after := s[..p], s[p..];
    assert InsertByDate(s, t) == (before + [t]) + after;
    DueOnAppend(before + [t], after, d);
    DueOnAppend(before, [t], d);
    assert before + after == s;
    DueOnAppend(before, after, d);
  }

  /** No task before the insertion point shares `t`'s date, so `t` becomes
      the first of the tasks due on its date. */
  lemma InsertByDateDueOn(s: seq<Task>, t: Task, d: Date)
    ensures DueOn(InsertByDate(s, t), d) == if Due(t) == d then [t] + DueOn(s, d) else DueOn(s, d)
  {
    var p := InsertPos(s, t);
    var before, after := s[..p], s[p..];
    InsertByDateSplit(s, t, d);
    assert [t][..0] == [];
    if Due(t) == d {
      NoneDueOn(before, t);
      assert DueOn([t], d) == [t];
      assert DueOn(s, d) == DueOn(after, d);
    } else {
      assert DueOn([t], d) == [];
      assert DueOn(InsertByDate(s, t), d) == DueOn(before, d) + DueOn(after, d);
    }
  }

  lemma {:induction false} NoneDueOn(s: seq<Task>, t: Task)
    requires forall j :: 0 <= j < |s| ==> CompareTasks(t, s[j]) > 0
    ensures DueOn(s, Due(t)) == []
  {
    if s != [] {
      NoneDueOn(s[..|s| - 1], t);
    }
  }

  /** Tasks that share a due date come out in the reverse of their original
      relative order: the sort is not stable. */
  lemma {:induction false} SortByDateReversesTies(s: seq<Task>, d: Date)
    ensures DueOn(SortByDate(s), d) == Reversed(DueOn(s, d))
  {
    if s != [] {
      var init, last := s[..|s| - 1], s[|s| - 1];
      SortByDateReversesTies(init, d);
      InsertByDateDueOn(SortByDate(init), last, d);
      assert SortByDate(s) == InsertByDate(SortByDate(init), last);
      if Due(last) == d {
        var ds := DueOn(init, d) + [last];
        assert DueOn(s, d) == ds;
        assert ds[..|ds| - 1] == DueOn(init, d);
        assert Reversed(ds) == [last] + Reversed(DueOn(init, d));
      } else {
        assert DueOn(s, d) == DueOn(init, d);
      }
    }
  }

  /** Lists of zero or one task are left as they are. */
  lemma SortByDateShort(s: seq<Task>)
    requires |s| <= 1
    ensures SortByDate(s) == s
  {
    if |s| == 1 {
      assert s[..0] == [];
      assert InsertPos([], s[0]) == 0;
      assert InsertByDate([], s[0]) == [s[0]];
    }
  }

  /** Three tasks A (1/1/2025), B (5/6/2024) and C (5/6/2024), in that order,
      sort to C, B, A: B and C tie, and C, inserted later, goes first. */
  lemma SortExample(a: Task, b: Task, c: Task)
    requires Due(a) == Date(2025, 1, 1)
    requires Due(b) == Date(2024, 6, 5) && Due(c) == Date(2024, 6, 5)
    ensures SortByDate([a, b, c]) == [c, b, a]
  {
    assert [a, b, c][..2] == [a, b];
    assert [a, b][..1] == [a];
    SortByDateShort([a]);
    assert InsertPos([a], b) == 0;
    assert InsertPos([b, a], c) == 0;
  }
}
