/**
 * The corrupted-memory scan of 2024/day_3: `mul(x,y)` instructions add
 * x·y; with `do()` and `don't()` switching later multiplications on and off,
 * the switch carried from line to line.
 */
module MulToggle {

  /** `Expression`: one recognised instruction; the operands are digit strings, so never negative. */
  datatype Expression = Mul(x: nat, y: nat) | Do | Dont

  /** `State`. */
  datatype State = On | Off

  /** `multiply_and_sum`: Σ x·y over the pairs. */
  function MultiplyAndSum(pairs: seq<(nat, nat)>): nat
    decreases |pairs|
  {
    if pairs == [] then 0
    else MultiplyAndSum(pairs[..|pairs| - 1]) + pairs[|pairs| - 1].0 * pairs[|pairs| - 1].1
  }

  /** The sum over two runs of pairs is the sum of their sums. */
  lemma {:induction false} MultiplyAndSumAppend(a: seq<(nat, nat)>, b: seq<(nat, nat)>)
    ensures MultiplyAndSum(a + b) == MultiplyAndSum(a) + MultiplyAndSum(b)
    decreases |b|
  {
    if b == [] {
      assert a + b == a;
    } else {
      var init := b[..|b| - 1];
      assert (a + b)[..|a + b| - 1] == a + init;
      MultiplyAndSumAppend(a, init);
    }
  }

  /**
   * The operand pairs of the `mul` instructions, in order: what
   * `extract_multiplication_values` finds in a line, since its pattern is
   * the `mul` alternative of the pattern of `find_expressions` and neither
   * `do()` nor `don't()` can overlap a `mul` match.
   */
  function MulPairs(exprs: seq<Expression>): (r: seq<(nat, nat)>)
    ensures |r| <= |exprs|
    decreases |exprs|
  {
    if exprs == [] then []
    else
      var init := MulPairs(exprs[..|exprs| - 1]);
      match exprs[|exprs| - 1]
      case Mul(x, y) => init + [(x, y)]
      case _ => init
  }

  lemma {:induction false} MulPairsAppend(a: seq<Expression>, b: seq<Expression>)
    ensures MulPairs(a + b) == MulPairs(a) + MulPairs(b)
    decreases |b|
  {
    if b == [] {
      assert a + b == a;
    } else {
      var init := b[..|b| - 1];
      assert (a + b)[..|a + b| - 1] == a + init;
      MulPairsAppend(a, init);
    }
  }

  /**
   * The part 2 fold from switch `state`: the gated sum and the final switch.
   * A `Mul` adds its product only while the switch is on; `Do` and `Dont`
   * set the switch and add nothing.
   */
  function Switched(exprs: seq<Expression>, state: State): (nat, State)
    decreases |exprs|
  {
    if exprs == [] then (0, state)
    else
      var (sum, now) := Switched(exprs[..|exprs| - 1], state);
      match exprs[|exprs| - 1]
      case Mul(x, y) => (if now == On then sum + x * y else sum, now)
      case Do => (sum, On)
      case Dont => (sum, Off)
  }

  /**
   * The fold over two runs carries the switch from the first into the
   * second: the lines of the input behave as one stream.
   */
  lemma {:induction false} SwitchedAppend(a: seq<Expression>, b: seq<Expression>, state: State)
    ensures var (first, mid) := Switched(a, state);
      var (second, last) := Switched(b, mid);
      Switched(a + b, state) == (first + second, last)
    decreases |b|
  {
    if b == [] {
      assert a + b == a;
    } else {
      var init := b[..|b| - 1];
      assert (a + b)[..|a + b| - 1] == a + init;
      SwitchedAppend(a, init, state);
    }
  }

  /** The gated sum never exceeds the ungated one. */
  lemma {:induction false} SwitchedAtMostSum(exprs: seq<Expression>, state: State)
    ensures Switched(exprs, state).0 <= MultiplyAndSum(MulPairs(exprs))
    decreases |exprs|
  {
    if exprs != [] {
      var init := exprs[..|exprs| - 1];
      SwitchedAtMostSum(init, state);
      if exprs[|exprs| - 1].Mul? {
        var (x, y) := (exprs[|exprs| - 1].x, exprs[|exprs| - 1].y);
        assert MulPairs(exprs) == MulPairs(init) + [(x, y)];
        assert (MulPairs(init) + [(x, y)])[..|MulPairs(init)|] == MulPairs(init);
      }
    }
  }

  /** Without `don't()` the switch stays on and the gated sum is the plain sum. */
  lemma {:induction false} SwitchedWithoutDont(exprs: seq<Expression>)
    requires forall i :: 0 <= i < |exprs| ==> exprs[i] != Dont
    ensures Switched(exprs, On) == (MultiplyAndSum(MulPairs(exprs)), On)
    decreases |exprs|
  {
    if exprs != [] {
      var init := exprs[..|exprs| - 1];
      SwitchedWithoutDont(init);
      if exprs[|exprs| - 1].Mul? {
        var (x, y) := (exprs[|exprs| - 1].x, exprs[|exprs| - 1].y);
        assert MulPairs(exprs) == MulPairs(init) + [(x, y)];
        assert (MulPairs(init) + [(x, y)])[..|MulPairs(init)|] == MulPairs(init);
      }
    }
  }

  /** The instructions of all lines, one after another. */
  function Flatten(lines: seq<seq<Expression>>): seq<Expression>
    decreases |lines|
  {
    if lines == [] then [] else Flatten(lines[..|lines| - 1]) + lines[|lines| - 1]
  }

  /**
   * The loop of `main` over the lines of the memory, each given as its
   * recognised instructions: the part 1 sum adds `multiply_and_sum` of each
   * line; the part 2 sum adds the products the switch lets through, the
   * switch starting on and carried across lines.
   */
  method Scan(lines: seq<seq<Expression>>) returns (sum: nat, sumWithState: nat)
    ensures sum == MultiplyAndSum(MulPairs(Flatten(lines)))
    ensures sumWithState == Switched(Flatten(lines), On).0
  {
    sum, sumWithState := 0, 0;
    var state := On;
    for i := 0 to |lines|
      invariant sum == MultiplyAndSum(MulPairs(Flatten(lines[..i])))
      invariant (sumWithState, state) == Switched(Flatten(lines[..i]), On)
    {
      var expressions := lines[i];
      ghost var done := Flatten(lines[..i]);
      assert lines[..i + 1][..i] == lines[..i];
      assert Flatten(lines[..i + 1]) == done + expressions;
      var pairs := MulPairs(expressions);
      MulPairsAppend(done, expressions);
      MultiplyAndSumAppend(MulPairs(done), pairs);
      sum := sum + MultiplyAndSum(pairs);
      SwitchedAppend(done, expressions, On);
      sumWithState, state := ScanLine(expressions, sumWithState, state);
    }
    assert lines[..|lines|] == lines;
  }

  /** The `for expr in expressions` loop of one line, from the switch left by the line before. */
  method ScanLine(expressions: seq<Expression>, sum: nat, state: State) returns (newSum: nat, newState: State)
    ensures (newSum, newState) == (sum + Switched(expressions, state).0, Switched(expressions, state).1)
  {
    newSum, newState := sum, state;
    for j := 0 to |expressions|
      invariant (newSum, newState) == (sum + Switched(expressions[..j], state).0, Switched(expressions[..j], state).1)
    {
      assert expressions[..j + 1][..j] == expressions[..j];
      match expressions[j]
      case Mul(x, y) =>
        if newState == On {
          newSum := newSum + x * y;
        }
      case Do =>
        newState := On;
      case Dont =>
        newState := Off;
    }
    assert expressions[..|expressions|] == expressions;
  }
}
