/**
 * The calibration-equation solver of 2024/day_7: `subdivide` peels the last
 * operand off a target value, dividing when it divides and subtracting
 * otherwise. Operands are combined left to right with `+` and `*`.
 */
module EquationSolver {
  import opened Wrappers

  /** `prev` with `k` added to each value. */
  function Sums(prev: set<nat>, k: nat): (r: set<nat>)
    ensures forall x :: x in r <==> x >= k && x - k in prev
  {
    var r := set u | u in prev :: u + k;
    assert forall u :: u in prev ==> u + k in r;
    r
  }

  /** `prev` with each value multiplied by `k`. */
  function Products(prev: set<nat>, k: nat): (r: set<nat>)
    ensures k == 0 ==> (forall x :: x in r <==> x == 0 && prev != {})
    ensures k > 0 ==> (forall x :: x in r <==> x % k == 0 && x / k in prev)
  {
    var r := set u | u in prev :: u * k;
    ProductsMembers(prev, k, r);
    r
  }

  lemma ProductsMembers(prev: set<nat>, k: nat, r: set<nat>)
    requires r == set u | u in prev :: u * k
    ensures k == 0 ==> (forall x :: x in r <==> x == 0 && prev != {})
    ensures k > 0 ==> (forall x :: x in r <==> x % k == 0 && x / k in prev)
  {
    if k == 0 {
      if prev != {} {
        var u :| u in prev;
        assert u * k in r;
      }
    } else {
      forall x ensures x in r <==> x % k == 0 && x / k in prev {
        if x in r {
          var u :| u in prev && u * k == x;
          MulDiv(u, k);
        }
        if x % k == 0 && x / k in prev {
          DivMul(x, k);
          assert (x / k) * k in r;
        }
      }
    }
  }

  lemma {:induction false} MulAtLeast(a: nat, k: nat)
    requires a >= 1
    ensures a * k >= k
    decreases a
  {
    if a > 1 {
      MulAtLeast(a - 1, k);
      assert a * k == (a - 1) * k + k;
    }
  }

  /** A multiple of `k` is its quotient by `k` times `k`. */
  lemma DivMul(x: nat, k: nat)
    requires k > 0 && x % k == 0
    ensures (x / k) * k == x
  {
  }

  /** Dividing a multiple of `k` by `k` gives the other factor back. */
  lemma MulDiv(u: nat, k: nat)
    requires k > 0
    ensures (u * k) / k == u && (u * k) % k == 0
  {
    var q, r := (u * k) / k, (u * k) % k;
    assert q * k + r == u * k;
    if u > q {
      MulAtLeast(u - q, k);
    }
  }

  /**
   * Every value the operands reach when each gap gets `+` or `*` and the
   * expression is evaluated left to right (what the puzzle asks for).
   */
  function Values(operands: seq<nat>): (vs: set<nat>)
    ensures operands != [] ==> vs != {}
    decreases |operands|
  {
    if operands == [] then {}
    else if |operands| == 1 then {operands[0]}
    else
      var k := operands[|operands| - 1];
      var prev := Values(operands[..|operands| - 1]);
      var v :| v in prev;
      assert v + k in Sums(prev, k);
      Sums(prev, k) + Products(prev, k)
  }

  /**
   * `subdivide((result, factors))` as written. `None` stands for the panic of
   * `result % k` with a zero last operand.
   */
  function Subdivide(result: nat, factors: seq<nat>): (r: Option<bool>)
    ensures factors == [] ==> r == Some(false)
    ensures |factors| == 1 ==> r == Some(result == factors[0])
    ensures |factors| >= 2 && result == factors[|factors| - 1] ==> r == Some(true)
    ensures |factors| >= 2 && result < factors[|factors| - 1] ==> r == Some(false)
    ensures r.None? ==> |factors| >= 2 && 0 in factors[1..]
    decreases |factors|
  {
    if |factors| == 0 then Some(false)
    else if |factors| == 1 then Some(result == factors[0])
    else
      var k := factors[|factors| - 1];
      var prefix := factors[..|factors| - 1];
      if result == k then Some(true)
      else if result < k then Some(false)
      else if k == 0 then None
      else
        var r := if result % k == 0 then Subdivide(result / k, prefix) else Subdivide(result - k, prefix);
        assert r.None? ==> 0 in prefix[1..] ==> 0 in factors[1..] by {
          assert prefix[1..] <= factors[1..];
        }
        r
  }

  /**
   * When the last operand divides the target, the answer is that of the
   * quotient alone: subtraction is never tried.
   */
  lemma DivisionTakesPrecedence(result: nat, factors: seq<nat>)
    requires |factors| >= 2
    requires var k := factors[|factors| - 1]; 0 < k < result && result % k == 0
    ensures Subdivide(result, factors) == Subdivide(result / factors[|factors| - 1], factors[..|factors| - 1])
  {
  }

  /**
   * The target equals the last operand: `subdivide` answers true whatever the
   * other operands are, yet 5 is not reachable from 3 and 5 (3+5 = 8, 3×5 = 15).
   */
  lemma SubdivideAcceptsUnreachable()
    ensures Subdivide(5, [3, 5]) == Some(true)
    ensures 5 !in Values([3, 5])
  {
    assert [3, 5][..1] == [3];
    assert Values([3, 5]) == {8, 15};
  }

  /**
   * 10 = 2 + 3 + 5, but 5 divides 10 so `subdivide` only looks for 2 in
   * [2, 3] and answers false.
   */
  lemma SubdivideMissesSum()
    ensures Subdivide(10, [2, 3, 5]) == Some(false)
    ensures 10 in Values([2, 3, 5])
  {
    assert [2, 3, 5][..2] == [2, 3];
    assert [2, 3][..1] == [2];
    assert Values([2, 3]) == {5, 6};
    assert 10 == 5 + 5;
  }

  /**
   * The solver `subdivide` evidently means to be: a target is solvable when
   * the last operand can be removed by subtraction or by division and the
   * rest is solvable, trying both.
   */
  function Solvable(result: nat, factors: seq<nat>): bool
    decreases |factors|
  {
    if |factors| == 0 then false
    else if |factors| == 1 then result == factors[0]
    else
      var k := factors[|factors| - 1];
      var prefix := factors[..|factors| - 1];
      (if k == 0 then result == 0 else result % k == 0 && Solvable(result / k, prefix))
      || (result >= k && Solvable(result - k, prefix))
  }

  /** The corrected solver decides exactly reachability with `+` and `*`. */
  lemma {:induction false} SolvableIffReachable(result: nat, factors: seq<nat>)
    ensures Solvable(result, factors) <==> result in Values(factors)
    decreases |factors|
  {
    if |factors| >= 2 {
      var k := factors[|factors| - 1];
      var prefix := factors[..|factors| - 1];
      var prev := Values(prefix);
      assert Values(factors) == Sums(prev, k) + Products(prev, k);
      if result >= k {
        SolvableIffReachable(result - k, prefix);
      }
      if k > 0 && result % k == 0 {
        SolvableIffReachable(result / k, prefix);
      }
      SolvableLast(result, factors, prev);
    }
  }

  /** The last-operand step of the corrected solver, given what holds of the shorter prefix. */
  lemma SolvableLast(result: nat, factors: seq<nat>, prev: set<nat>)
    requires |factors| >= 2
    requires var k, prefix := factors[|factors| - 1], factors[..|factors| - 1];
      && prev != {}
      && (result >= k ==> (Solvable(result - k, prefix) <==> result - k in prev))
      && (k > 0 && result % k == 0 ==> (Solvable(result / k, prefix) <==> result / k in prev))
    ensures Solvable(result, factors) <==> result in Sums(prev, factors[|factors| - 1]) + Products(prev, factors[|factors| - 1])
  {
  }
}
