/**
 * Reactor report safety of 2024/day_2: a report is safe when every adjacent
 * pair of levels moves in the report's direction by 1 to 3; `check_safety`
 * counts violations and tolerates one by removing a level.
 */
module ReportSafety {
  import opened Wrappers

  function Abs(a: int): nat
  {
    if a < 0 then -a else a
  }

  /** `signum`: the sign of `a`. */
  function Signum(a: int): (r: int)
    ensures -1 <= r <= 1
    ensures r == 1 <==> a > 0
    ensures r == 0 <==> a == 0
    ensures r == -1 <==> a < 0
  {
    if a < 0 then -1 else if a == 0 then 0 else 1
  }

  /**
   * `compare_number_safety(a, b, d)`: the step from `a` to `b` is 1 to 3 levels
   * in the direction `d` (1 when the levels fall, -1 when they rise); never
   * true for `d = 0`.
   */
  function CompareNumberSafety(a: int, b: int, d: int): (r: bool)
    ensures r <==> (d == 1 && 1 <= a - b <= 3) || (d == -1 && 1 <= b - a <= 3)
  {
    var diff := Abs(a - b);
    var sign := Signum(a - b);
    diff >= 1 && diff <= 3 && sign == d
  }

  /** Every adjacent pair of `numbers` is a safe step in direction `d`. */
  ghost predicate AllSafe(numbers: seq<int>, d: int)
  {
    forall i :: 0 <= i < |numbers| - 1 ==> CompareNumberSafety(numbers[i], numbers[i + 1], d)
  }

  /** `Vec::remove(i)`: the list without its element at `i`. */
  function Remove(numbers: seq<int>, i: nat): (r: seq<int>)
    requires i < |numbers|
    ensures |r| == |numbers| - 1
    ensures forall j :: 0 <= j < i ==> r[j] == numbers[j]
    ensures forall j :: i <= j < |r| ==> r[j] == numbers[j + 1]
  {
    numbers[..i] + numbers[i + 1..]
  }

  /** The `for i in 0..numbers.len() - 1` scan from `from`: the first unsafe pair. */
  function FirstUnsafe(numbers: seq<int>, d: int, from: nat): (r: Option<nat>)
    ensures r.Some? ==> from <= r.value < |numbers| - 1
    ensures r.Some? ==> !CompareNumberSafety(numbers[r.value], numbers[r.value + 1], d)
    ensures r.Some? ==> forall j :: from <= j < r.value ==> CompareNumberSafety(numbers[j], numbers[j + 1], d)
    ensures r.None? ==> forall j :: from <= j < |numbers| - 1 ==> CompareNumberSafety(numbers[j], numbers[j + 1], d)
    decreases |numbers| - from
  {
    if from + 1 >= |numbers| then None
    else if !CompareNumberSafety(numbers[from], numbers[from + 1], d) then Some(from)
    else FirstUnsafe(numbers, d, from + 1)
  }

  /**
   * `check_safety(numbers, direction, safety_level)`: at the first unsafe pair
   * the level rises by one; at pair 0 dropping the first level is tried first,
   * then the second level of the pair is dropped. The level never falls, an
   * input level above 1 comes back unchanged, a level of at most 1 comes back
   * unchanged exactly when every pair is safe, and at most 2 otherwise.
   */
  function CheckSafety(numbers: seq<int>, direction: int, level: nat): (r: nat)
    requires |numbers| >= 1
    ensures r >= level
    ensures level > 1 ==> r == level
    ensures level <= 1 ==> r <= 2 && (r == level <==> AllSafe(numbers, direction))
    decreases |numbers|
  {
    if level > 1 then level
    else match FirstUnsafe(numbers, direction, 0)
      case None => level
      case Some(i) =>
        var raised := level + 1;
        if i == 0 && CheckSafety(Remove(numbers, i), direction, raised) == raised then raised
        else CheckSafety(Remove(numbers, i + 1), direction, raised)
  }

  /**
   * A level of at most 1 from `check_safety` means the report is safe as it
   * stands, or safe in the same direction once one level is removed.
   */
  lemma CheckSafetySound(numbers: seq<int>, direction: int)
    requires |numbers| >= 1
    requires CheckSafety(numbers, direction, 0) <= 1
    ensures AllSafe(numbers, direction) ||
      exists j :: 0 <= j < |numbers| && AllSafe(Remove(numbers, j), direction)
  {
    if !AllSafe(numbers, direction) {
      var i := FirstUnsafe(numbers, direction, 0).value;
      if i == 0 && CheckSafety(Remove(numbers, 0), direction, 1) == 1 {
        assert AllSafe(Remove(numbers, 0), direction);
      } else {
        assert AllSafe(Remove(numbers, i + 1), direction);
      }
    }
  }

  /**
   * The decision in `main` for one line: an empty line is skipped (`None`);
   * otherwise the direction is fixed from the first two levels and the report
   * is safe when `check_safety` from level 0 returns at most 1.
   */
  function ReportSafe(numbers: seq<int>): (r: Option<bool>)
    requires |numbers| != 1
    ensures r.None? <==> numbers == []
    ensures r == Some(true) && |numbers| >= 2 ==>
      var d := Signum(numbers[0] - numbers[1]);
      AllSafe(numbers, d) || exists j :: 0 <= j < |numbers| && AllSafe(Remove(numbers, j), d)
    ensures |numbers| >= 2 && AllSafe(numbers, Signum(numbers[0] - numbers[1])) ==> r == Some(true)
  {
    if |numbers| == 0 then None
    else
      var direction := Signum(numbers[0] - numbers[1]);
      var level := CheckSafety(numbers, direction, 0);
      if level <= 1 then
        CheckSafetySound(numbers, direction);
        Some(true)
      else Some(false)
  }

  /**
   * The direction stays the one of the first two levels even when the first
   * level is dropped: 9 1 2 is judged unsafe, yet 1 2 rises safely.
   */
  lemma DirectionFixedTooEarly()
    ensures ReportSafe([9, 1, 2]) == Some(false)
    ensures AllSafe(Remove([9, 1, 2], 0), -1)
  {
    var n := [9, 1, 2];
    assert Signum(n[0] - n[1]) == 1;
    assert FirstUnsafe(n, 1, 0) == Some(0);
    // Dropping the 9 leaves a rising pair, which fails in the falling direction ...
    assert Remove(n, 0) == [1, 2];
    assert FirstUnsafe([1, 2], 1, 0) == Some(0);
    assert CheckSafety([1, 2], 1, 1) == 2;
    // ... so the 1 is dropped instead, and 9 2 falls too steeply.
    assert Remove(n, 1) == [9, 2];
    assert FirstUnsafe([9, 2], 1, 0) == Some(0);
    assert CheckSafety([9, 2], 1, 1) == 2;
    assert CompareNumberSafety(1, 2, -1);
  }

  /**
   * Past the first pair only the second level of the unsafe pair is dropped:
   * 1 2 4 3 4 is judged unsafe, yet dropping the 4 at offset 2 leaves 1 2 3 4.
   */
  lemma OnlyLaterLevelDropped()
    ensures ReportSafe([1, 2, 4, 3, 4]) == Some(false)
    ensures AllSafe(Remove([1, 2, 4, 3, 4], 2), -1)
  {
    var n := [1, 2, 4, 3, 4];
    assert Remove(n, 2) == [1, 2, 3, 4];
    assert Remove(n, 3) == [1, 2, 4, 4];
    assert FirstUnsafe(n, -1, 0) == Some(2);
    assert FirstUnsafe([1, 2, 4, 4], -1, 0) == Some(2);
  }

  /** A report the problem-dampener rule accepts: safe in some direction, as it is or with one level removed. */
  ghost predicate Tolerable(numbers: seq<int>)
  {
    exists d :: d in {1, -1} &&
      (AllSafe(numbers, d) || exists j :: 0 <= j < |numbers| && AllSafe(Remove(numbers, j), d))
  }

  /** Safe as it stands in one of the two directions. */
  function SafeEitherWay(numbers: seq<int>): (r: bool)
    ensures r <==> AllSafe(numbers, 1) || AllSafe(numbers, -1)
  {
    FirstUnsafe(numbers, 1, 0).None? || FirstUnsafe(numbers, -1, 0).None?
  }

  /** Whether removing one of the levels at `from` or later leaves a report safe in one direction. */
  function SomeRemovalSafe(numbers: seq<int>, from: nat): (r: bool)
    ensures r <==> exists j :: from <= j < |numbers| && SafeEitherWay(Remove(numbers, j))
    decreases |numbers| - from
  {
    if from >= |numbers| then false
    else SafeEitherWay(Remove(numbers, from)) || SomeRemovalSafe(numbers, from + 1)
  }

  /**
   * The decision `main` evidently means to make: a non-empty report is safe
   * when it is safe as it stands or after removing any one level, with the
   * direction taken from what remains.
   */
  function ReportSafeCorrected(numbers: seq<int>): (r: Option<bool>)
    ensures r.None? <==> numbers == []
    ensures r.Some? ==> (r.value <==> Tolerable(numbers))
  {
    if numbers == [] then None
    else
      var ok := SafeEitherWay(numbers) || SomeRemovalSafe(numbers, 0);
      assert ok ==> Tolerable(numbers) by {
        if SafeEitherWay(numbers) {
          if AllSafe(numbers, 1) { assert 1 in {1, -1}; } else { assert -1 in {1, -1}; }
        } else if ok {
          var j :| 0 <= j < |numbers| && SafeEitherWay(Remove(numbers, j));
          if AllSafe(Remove(numbers, j), 1) { assert 1 in {1, -1}; } else { assert -1 in {1, -1}; }
        }
      }
      assert Tolerable(numbers) ==> ok by {
        if Tolerable(numbers) {
          var d :| d in {1, -1} &&
            (AllSafe(numbers, d) || exists j :: 0 <= j < |numbers| && AllSafe(Remove(numbers, j), d));
          if !AllSafe(numbers, d) {
            var j :| 0 <= j < |numbers| && AllSafe(Remove(numbers, j), d);
            assert SafeEitherWay(Remove(numbers, j));
          }
        }
      }
      Some(ok)
  }
}
