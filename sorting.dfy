/**
 * The standard library's in-place sorts as the core uses them: `sort()`
 * ascending and `sort_by(|a, b| b.cmp(a))` descending. Only what they
 * promise matters: the result is ordered and holds the same values.
 */
module Sorting {

  /** `x` may stand before `y`: not greater when ascending, not smaller when descending. */
  predicate InOrder(x: int, y: int, descending: bool)
  {
    if descending then x >= y else x <= y
  }

  /** Every earlier value may stand before every later one. */
  ghost predicate Ordered(s: seq<int>, descending: bool)
  {
    forall p, q :: 0 <= p < q < |s| ==> InOrder(s[p], s[q], descending)
  }

  lemma OrderedTail(s: seq<int>, descending: bool)
    requires s != [] && Ordered(s, descending)
    ensures Ordered(s[1..], descending)
  {
    forall p, q | 0 <= p < q < |s| - 1
      ensures InOrder(s[1..][p], s[1..][q], descending)
    {
      assert s[1..][p] == s[p + 1] && s[1..][q] == s[q + 1];
    }
  }

  /** The first value of an ordered sequence may stand before each of its values. */
  lemma OrderedHead(s: seq<int>, x: int, descending: bool)
    requires Ordered(s, descending) && x in s
    ensures InOrder(s[0], x, descending)
  {
    var k :| 0 <= k < |s| && s[k] == x;
    if k > 0 {
      assert InOrder(s[0], s[k], descending);
    }
  }

  /**
   * Two ordered sequences holding the same values are the same sequence:
   * whichever sort is used, the sorted list is determined by its values.
   */
  lemma {:induction false} OrderedUnique(a: seq<int>, b: seq<int>, descending: bool)
    requires Ordered(a, descending) && Ordered(b, descending)
    requires multiset(a) == multiset(b)
    ensures a == b
    decreases |a|
  {
    if a != [] {
      assert |b| == |multiset(b)| == |a|;
      assert a[0] in multiset(b) && b[0] in multiset(a);
      OrderedHead(b, a[0], descending);
      OrderedHead(a, b[0], descending);
      assert InOrder(b[0], a[0], descending) && InOrder(a[0], b[0], descending);
      assert a[0] == b[0] by {
        if descending {
          assert b[0] >= a[0] >= b[0];
        } else {
          assert b[0] <= a[0] <= b[0];
        }
      }
      assert a == [a[0]] + a[1..] && b == [b[0]] + b[1..];
      assert multiset(a[1..]) == multiset(b[1..]) by {
        assert multiset(a) == multiset{a[0]} + multiset(a[1..]);
        assert multiset(b) == multiset{b[0]} + multiset(b[1..]);
        assert multiset(a[1..]) == multiset(a) - multiset{a[0]};
        assert multiset(b[1..]) == multiset(b) - multiset{b[0]};
      }
      OrderedTail(a, descending);
      OrderedTail(b, descending);
      OrderedUnique(a[1..], b[1..], descending);
    }
  }

  /** Insertion sort in place: afterwards the array is ordered and holds the same values. */
  method Sort(a: array<int>, descending: bool)
    modifies a
    ensures Ordered(a[..], descending)
    ensures multiset(a[..]) == multiset(old(a[..]))
  {
    for i := 0 to a.Length
      invariant Ordered(a[..i], descending)
      invariant multiset(a[..]) == multiset(old(a[..]))
    {
      Insert(a, i, descending);
    }
    assert a[..a.Length] == a[..];
  }

  /**
   * While `a[i]` moves back it sits at `j`: the other values of `s[..i + 1]`
   * keep their order, and it may stand before every value after it.
   */
  ghost predicate Inserting(s: seq<int>, i: nat, j: nat, descending: bool)
  {
    j <= i < |s|
    && (forall p, q :: 0 <= p < q <= i && p != j && q != j ==> InOrder(s[p], s[q], descending))
    && (forall q :: j < q <= i ==> InOrder(s[j], s[q], descending))
  }

  lemma InsertingStarts(s: seq<int>, i: nat, descending: bool)
    requires i < |s| && Ordered(s[..i], descending)
    ensures Inserting(s, i, i, descending)
  {
    assert forall p :: 0 <= p < i ==> s[..i][p] == s[p];
  }

  /** Swapping the value back one place keeps the arrangement. */
  lemma InsertingSwap(s: seq<int>, i: nat, j: nat, descending: bool)
    requires Inserting(s, i, j, descending) && j > 0 && !InOrder(s[j - 1], s[j], descending)
    ensures Inserting(s[j - 1 := s[j]][j := s[j - 1]], i, j - 1, descending)
    ensures multiset(s[j - 1 := s[j]][j := s[j - 1]]) == multiset(s)
  {
  }

  /** Once the value may stand after its left neighbour, the prefix is ordered. */
  lemma InsertingEnds(s: seq<int>, i: nat, j: nat, descending: bool)
    requires Inserting(s, i, j, descending) && (j == 0 || InOrder(s[j - 1], s[j], descending))
    ensures Ordered(s[..i + 1], descending)
  {
    forall p, q | 0 <= p < q <= i
      ensures InOrder(s[p], s[q], descending)
    {
      if q == j && p < j - 1 {
        assert InOrder(s[p], s[j - 1], descending);
      }
    }
  }

  /**
   * Moves `a[i]` back past every value it must stand before, leaving
   * `a[..i + 1]` ordered and everything after it untouched.
   */
  method Insert(a: array<int>, i: nat, descending: bool)
    requires i < a.Length && Ordered(a[..i], descending)
    modifies a
    ensures Ordered(a[..i + 1], descending)
    ensures multiset(a[..]) == multiset(old(a[..]))
    ensures a[i + 1..] == old(a[i + 1..])
  {
    InsertingStarts(a[..], i, descending);
    var j: nat := i;
    while j > 0 && !InOrder(a[j - 1], a[j], descending)
      invariant Inserting(a[..], i, j, descending)
      invariant multiset(a[..]) == multiset(old(a[..]))
      invariant a[i + 1..] == old(a[i + 1..])
      decreases j
    {
      ghost var s := a[..];
      InsertingSwap(s, i, j, descending);
      a[j - 1], a[j] := a[j], a[j - 1];
      assert a[..] == s[j - 1 := s[j]][j := s[j - 1]];
      j := j - 1;
    }
    InsertingEnds(a[..], i, j, descending);
  }
}
