/**
 * The two location lists of 2024/day_1: each two-number line adds one
 * number to each list; after sorting, the lists are compared pair by pair
 * (total distance) and by how often each left number occurs on the right
 * (similarity).
 */
module LocationLists {
  import opened Sorting

  /** The first numbers of the lines holding exactly two numbers, in order. */
  function Lefts(lines: seq<seq<int>>): (r: seq<int>)
    decreases |lines|
  {
    if lines == [] then []
    else
      var line := lines[|lines| - 1];
      Lefts(lines[..|lines| - 1]) + (if |line| == 2 then [line[0]] else [])
  }

  /** The second numbers of the lines holding exactly two numbers, in order. */
  function Rights(lines: seq<seq<int>>): (r: seq<int>)
    decreases |lines|
  {
    if lines == [] then []
    else
      var line := lines[|lines| - 1];
      Rights(lines[..|lines| - 1]) + (if |line| == 2 then [line[1]] else [])
  }

  /** Both lists take one number from the same lines, so they are equally long. */
  lemma {:induction false} ListsSameLength(lines: seq<seq<int>>)
    ensures |Lefts(lines)| == |Rights(lines)|
    decreases |lines|
  {
    if lines != [] {
      ListsSameLength(lines[..|lines| - 1]);
    }
  }

  /**
   * The line loop of `main`, each line given as the numbers its
   * whitespace-separated tokens parse to: only two-number lines push.
   */
  method BuildLists(lines: seq<seq<int>>) returns (left: seq<int>, right: seq<int>)
    ensures left == Lefts(lines) && right == Rights(lines)
    ensures |left| == |right|
  {
    left, right := [], [];
    for i := 0 to |lines|
      invariant left == Lefts(lines[..i]) && right == Rights(lines[..i])
    {
      assert lines[..i + 1][..i] == lines[..i];
      var numbers := lines[i];
      if |numbers| == 2 {
        left := left + [numbers[0]];
        right := right + [numbers[1]];
      }
    }
    assert lines[..|lines|] == lines;
    ListsSameLength(lines);
  }

  function Abs(x: int): nat
  {
    if x < 0 then -x else x
  }

  /** Σ |left[i] − right[i]| over the first `|left|` pairs. */
  function Distance(left: seq<int>, right: seq<int>): nat
    requires |left| == |right|
    decreases |left|
  {
    if left == [] then 0
    else Distance(left[..|left| - 1], right[..|right| - 1]) + Abs(left[|left| - 1] - right[|right| - 1])
  }

  /** Paired lists are zero apart exactly when they are the same list. */
  lemma {:induction false} DistanceZero(left: seq<int>, right: seq<int>)
    requires |left| == |right|
    ensures Distance(left, right) == 0 <==> left == right
    decreases |left|
  {
    if left != [] {
      var n := |left| - 1;
      DistanceZero(left[..n], right[..n]);
      assert left == left[..n] + [left[n]] && right == right[..n] + [right[n]];
    }
  }

  /**
   * The sorted lists are zero apart exactly when the two input lists hold
   * the same numbers, each as often.
   */
  lemma SortedDistanceZero(left: seq<int>, right: seq<int>)
    requires |left| == |right|
    requires Ordered(left, false) && Ordered(right, false)
    ensures Distance(left, right) == 0 <==> multiset(left) == multiset(right)
  {
    DistanceZero(left, right);
    if multiset(left) == multiset(right) {
      OrderedUnique(left, right, false);
    }
  }

  /** `right.iter().filter(|&x| x == &value).count()`. */
  function Count(right: seq<int>, value: int): nat
    decreases |right|
  {
    if right == [] then 0
    else Count(right[..|right| - 1], value) + (if right[|right| - 1] == value then 1 else 0)
  }

  /** The count is the number of times `value` occurs. */
  lemma {:induction false} CountIsMultiplicity(right: seq<int>, value: int)
    ensures Count(right, value) == multiset(right)[value]
    decreases |right|
  {
    if right != [] {
      var n := |right| - 1;
      CountIsMultiplicity(right[..n], value);
      assert right == right[..n] + [right[n]];
    }
  }

  /** Σ left[i] × (occurrences of left[i] in `right`). */
  function Similarity(left: seq<int>, right: seq<int>): int
    decreases |left|
  {
    if left == [] then 0
    else Similarity(left[..|left| - 1], right) + left[|left| - 1] * Count(right, left[|left| - 1])
  }

  lemma {:induction false} SimilarityAppend(a: seq<int>, b: seq<int>, right: seq<int>)
    ensures Similarity(a + b, right) == Similarity(a, right) + Similarity(b, right)
    decreases |b|
  {
    if b == [] {
      assert a + b == a;
    } else {
      var n := |b| - 1;
      assert (a + b)[..|a + b| - 1] == a + b[..n];
      SimilarityAppend(a, b[..n], right);
    }
  }

  /** Reordering the right list does not change any count. */
  lemma {:induction false} SimilarityRightOrder(left: seq<int>, right: seq<int>, right2: seq<int>)
    requires multiset(right) == multiset(right2)
    ensures Similarity(left, right) == Similarity(left, right2)
    decreases |left|
  {
    if left != [] {
      var n := |left| - 1;
      SimilarityRightOrder(left[..n], right, right2);
      CountIsMultiplicity(right, left[n]);
      CountIsMultiplicity(right2, left[n]);
    }
  }

  /** Reordering the left list does not change the sum. */
  lemma {:induction false} SimilarityLeftOrder(left: seq<int>, left2: seq<int>, right: seq<int>)
    requires multiset(left) == multiset(left2)
    ensures Similarity(left, right) == Similarity(left2, right)
    decreases |left|
  {
    if left == [] {
      assert |left2| == |multiset(left2)| == 0;
    } else {
      var n := |left| - 1;
      var x := left[n];
      assert left == left[..n] + [x];
      assert x in multiset(left2);
      var k :| 0 <= k < |left2| && left2[k] == x;
      var rest := left2[..k] + left2[k + 1..];
      assert left2 == left2[..k] + [x] + left2[k + 1..];
      assert multiset(left[..n]) == multiset(rest) by {
        assert multiset(left) == multiset(left[..n]) + multiset{x};
        assert multiset(left2) == multiset(left2[..k]) + multiset{x} + multiset(left2[k + 1..]);
        assert multiset(rest) == multiset(left2[..k]) + multiset(left2[k + 1..]);
        assert multiset(left[..n]) == multiset(left) - multiset{x};
        assert multiset(rest) == multiset(left2) - multiset{x};
      }
      SimilarityLeftOrder(left[..n], rest, right);
      SimilarityAppend(left2[..k] + [x], left2[k + 1..], right);
      SimilarityAppend(left2[..k], [x], right);
      SimilarityAppend(left2[..k], left2[k + 1..], right);
      assert [x][..0] == [];
    }
  }

  /**
   * The similarity score does not depend on the sorting: it is the same on
   * any reordering of either list.
   */
  lemma SimilarityIgnoresOrder(left: seq<int>, right: seq<int>, left2: seq<int>, right2: seq<int>)
    requires multiset(left) == multiset(left2) && multiset(right) == multiset(right2)
    ensures Similarity(left, right) == Similarity(left2, right2)
  {
    SimilarityLeftOrder(left, left2, right);
    SimilarityRightOrder(left2, right, right2);
  }

  /** The index loop of `main` over the sorted lists. */
  method Compare(left: seq<int>, right: seq<int>) returns (sumOfDifferences: nat, similaritySum: int)
    requires |left| == |right|
    ensures sumOfDifferences == Distance(left, right)
    ensures similaritySum == Similarity(left, right)
  {
    sumOfDifferences, similaritySum := 0, 0;
    for i := 0 to |left|
      invariant sumOfDifferences == Distance(left[..i], right[..i])
      invariant similaritySum == Similarity(left[..i], right)
    {
      assert left[..i + 1][..i] == left[..i] && right[..i + 1][..i] == right[..i];
      var leftValue := left[i];
      sumOfDifferences := sumOfDifferences + Abs(left[i] - right[i]);
      similaritySum := similaritySum + leftValue * Count(right, leftValue);
    }
    assert left[..|left|] == left && right[..|right|] == right;
  }

  /**
   * `main` after reading: build both lists, sort each in place, compare.
   * The sorted lists are returned beside the two sums so that the contract
   * can name them; they are the unique ordered rearrangements of the lists.
   */
  method Solve(lines: seq<seq<int>>) returns (sortedLeft: seq<int>, sortedRight: seq<int>, sumOfDifferences: nat, similaritySum: int)
    ensures Ordered(sortedLeft, false) && multiset(sortedLeft) == multiset(Lefts(lines))
    ensures Ordered(sortedRight, false) && multiset(sortedRight) == multiset(Rights(lines))
    ensures |sortedLeft| == |sortedRight|
    ensures sumOfDifferences == Distance(sortedLeft, sortedRight)
    ensures similaritySum == Similarity(Lefts(lines), Rights(lines))
  {
    var left, right := BuildLists(lines);
    var leftList := new int[|left|](i requires 0 <= i < |left| => left[i]);
    var rightList := new int[|right|](i requires 0 <= i < |right| => right[i]);
    assert leftList[..] == left && rightList[..] == right;
    Sort(leftList, false);
    Sort(rightList, false);
    sortedLeft, sortedRight := leftList[..], rightList[..];
    assert |sortedLeft| == |multiset(sortedLeft)| == |left|;
    assert |sortedRight| == |multiset(sortedRight)| == |right|;
    sumOfDifferences, similaritySum := Compare(sortedLeft, sortedRight);
    SimilarityIgnoresOrder(sortedLeft, sortedRight, left, right);
  }
}
