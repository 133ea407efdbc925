/**
 * Facts about sequences without repeated elements, used both for the chains
 * of list nodes and for the tasks of the task list.
 */
module Sequences {

  /** No element occurs twice in `s`. */
  ghost predicate Distinct<T>(s: seq<T>)
  {
    forall i, j :: 0 <= i < j < |s| ==> s[i] != s[j]
  }

  /** Index of the first occurrence of `x` in `s`. */
  ghost function FirstIndex<T>(s: seq<T>, x: T): (i: nat)
    requires x in s
    ensures i < |s| && s[i] == x
    ensures forall j :: 0 <= j < i ==> s[j] != x
  {
    if s[0] == x then 0 else 1 + FirstIndex(s[1..], x)
  }

  lemma FirstIndexAt<T>(s: seq<T>, x: T, k: nat)
    requires k < |s| && s[k] == x && x !in s[..k]
    ensures FirstIndex(s, x) == k
  {
    assert forall j :: 0 <= j < k ==> s[..k][j] == s[j];
  }

  /** In a sequence without repeats, each element's first index is its
      only index. */
  lemma FirstIndexOfDistinct<T>(s: seq<T>, k: nat)
    requires Distinct(s) && k < |s|
    ensures FirstIndex(s, s[k]) == k
  {
    forall j | 0 <= j < k
      ensures s[..k][j] != s[k]
    {
      assert s[..k][j] == s[j];
    }
    FirstIndexAt(s, s[k], k);
  }

  /** Cutting position `k` out of a sequence without repeats removes exactly
      the element there, and leaves a sequence without repeats. */
  lemma DistinctCut<T>(s: seq<T>, k: nat)
    requires Distinct(s) && k < |s|
    ensures Distinct(s[..k] + s[k + 1..])
    ensures forall x :: x in s[..k] + s[k + 1..] <==> x in s && x != s[k]
  {
    var short := s[..k] + s[k + 1..];
    assert forall j :: 0 <= j < k ==> short[j] == s[j];
    assert forall j :: k <= j < |short| ==> short[j] == s[j + 1];
    forall a, b | 0 <= a < b < |short| ensures short[a] != short[b] {
      var a', b' := if a < k then a else a + 1, if b < k then b else b + 1;
      assert short[a] == s[a'] && short[b] == s[b'];
    }
    forall x ensures x in short <==> x in s && x != s[k] {
      if x in s && x != s[k] {
        var i :| 0 <= i < |s| && s[i] == x;
        assert short[if i < k then i else i - 1] == x;
      }
    }
  }

  /** A sequence has no repeats exactly when no element has multiplicity
      above one. */
  lemma {:induction false} DistinctIffSingle<T>(s: seq<T>)
    ensures Distinct(s) <==> forall x :: multiset(s)[x] <= 1
  {
    if s != [] {
      var init, y := s[..|s| - 1], s[|s| - 1];
      assert s == init + [y];
      DistinctIffSingle(init);
      assert forall x :: multiset(s)[x] == multiset(init)[x] + (if x == y then 1 else 0);
      if Distinct(s) {
        assert forall i, j :: 0 <= i < j < |init| ==> init[i] == s[i] && init[j] == s[j];
        assert y !in init by {
          forall i | 0 <= i < |init| ensures init[i] != y {
            assert init[i] == s[i];
          }
        }
      } else if forall x :: multiset(s)[x] <= 1 {
        assert multiset(init)[y] == 0;
        forall i, j | 0 <= i < j < |s| ensures s[i] != s[j] {
          if j < |init| {
            assert init[i] == s[i] && init[j] == s[j];
          } else {
            assert s[i] in init;
          }
        }
        assert false;
      }
    }
  }

  /** Rearranging a sequence without repeats leaves none. */
  lemma DistinctPermutation<T>(a: seq<T>, b: seq<T>)
    requires Distinct(a) && multiset(a) == multiset(b)
    ensures Distinct(b)
  {
    DistinctIffSingle(a);
    DistinctIffSingle(b);
  }
}
