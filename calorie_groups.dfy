/**
 * The calorie counting of 2022/day_1: numbers on consecutive lines belong
 * to one elf, a blank line closes the elf's group; the groups are sorted
 * from largest to smallest and the largest and the sum of the three
 * largest are reported.
 */
module CalorieGroups {
  import opened Wrappers
  import opened Sorting

  /** An input line: blank, or the number it parses to. */
  datatype Line = Blank | Calories(amount: int)

  /**
   * The state of the line loop after `lines`: the groups pushed so far and
   * the running sum of the open group.
   */
  function Grouped(lines: seq<Line>): (seq<int>, int)
    decreases |lines|
  {
    if lines == [] then ([], 0)
    else
      var (pushed, current) := Grouped(lines[..|lines| - 1]);
      match lines[|lines| - 1]
      case Blank => (pushed + [current], 0)
      case Calories(cal) => (pushed, current + cal)
  }

  /** All groups: those closed by blank lines, then the last running sum. */
  function Groups(lines: seq<Line>): seq<int>
  {
    Grouped(lines).0 + [Grouped(lines).1]
  }

  function Blanks(lines: seq<Line>): nat
    decreases |lines|
  {
    if lines == [] then 0 else Blanks(lines[..|lines| - 1]) + (if lines[|lines| - 1] == Blank then 1 else 0)
  }

  function Sum(s: seq<int>): int
    decreases |s|
  {
    if s == [] then 0 else Sum(s[..|s| - 1]) + s[|s| - 1]
  }

  function TotalCalories(lines: seq<Line>): int
    decreases |lines|
  {
    if lines == [] then 0
    else TotalCalories(lines[..|lines| - 1]) + (match lines[|lines| - 1] case Blank => 0 case Calories(cal) => cal)
  }

  /**
   * There is one group per blank line plus one, and the groups together
   * hold every number of the input.
   */
  lemma {:induction false} GroupsCover(lines: seq<Line>)
    ensures |Groups(lines)| == Blanks(lines) + 1
    ensures Sum(Groups(lines)) == TotalCalories(lines)
    decreases |lines|
  {
    if lines != [] {
      var init := lines[..|lines| - 1];
      GroupsCover(init);
      var (pushed, current) := Grouped(init);
      assert Groups(init) == pushed + [current];
      assert (pushed + [current])[..|pushed|] == pushed;
      match lines[|lines| - 1]
      case Blank =>
        assert Groups(lines) == pushed + [current] + [0];
        assert (pushed + [current] + [0])[..|pushed| + 1] == pushed + [current];
      case Calories(cal) =>
        assert Groups(lines) == pushed + [current + cal];
        assert (pushed + [current + cal])[..|pushed|] == pushed;
    }
  }

  /** A blank line right after a blank line closes an empty group. */
  lemma BlankAfterBlank(lines: seq<Line>)
    ensures Groups(lines + [Blank, Blank]) == Grouped(lines).0 + [Grouped(lines).1, 0, 0]
  {
    var once, twice := lines + [Blank], lines + [Blank, Blank];
    assert once[..|lines|] == lines;
    var (pushed, current) := Grouped(lines);
    assert Grouped(once) == (pushed + [current], 0);
    assert twice[..|once|] == once && twice[|twice| - 1] == Blank;
    assert Grouped(twice) == (pushed + [current] + [0], 0);
  }

  /** The line loop of `main` and the push after it. */
  method Group(lines: seq<Line>) returns (vecCaloriesPerElf: seq<int>)
    ensures vecCaloriesPerElf == Groups(lines)
  {
    vecCaloriesPerElf := [];
    var currentElfCalories := 0;
    for k := 0 to |lines|
      invariant (vecCaloriesPerElf, currentElfCalories) == Grouped(lines[..k])
    {
      assert lines[..k + 1][..k] == lines[..k];
      match lines[k]
      case Blank =>
        vecCaloriesPerElf := vecCaloriesPerElf + [currentElfCalories];
        currentElfCalories := 0;
      case Calories(cal) =>
        currentElfCalories := currentElfCalories + cal;
    }
    assert lines[..|lines|] == lines;
    vecCaloriesPerElf := vecCaloriesPerElf + [currentElfCalories];
  }

  /** The first value of a descending sequence is at least every value in it. */
  lemma FirstIsMaximum(s: seq<int>, g: int)
    requires Ordered(s, true) && g in multiset(s)
    ensures s[0] >= g
  {
    OrderedHead(s, g, true);
  }

  /** No three values of a descending sequence add up to more than its first three. */
  lemma TopThreeLargest(s: seq<int>, p: nat, q: nat, r: nat)
    requires Ordered(s, true) && p < q < r < |s|
    ensures s[p] + s[q] + s[r] <= s[0] + s[1] + s[2]
  {
    if p > 0 {
      assert s[0] >= s[p];
    }
    if q > 1 {
      assert s[1] >= s[q];
    }
    if r > 2 {
      assert s[2] >= s[r];
    }
  }

  /**
   * `main` after reading: group, sort descending, take the first value and
   * the sum of the first three; the top three is `None` where `unwrap`
   * panics on fewer than three groups. The sorted groups are returned so
   * that the contract can name them.
   */
  method Report(lines: seq<Line>) returns (sorted: seq<int>, maxValue: int, topThreeCalories: Option<int>)
    ensures Ordered(sorted, true) && multiset(sorted) == multiset(Groups(lines))
    ensures |sorted| == Blanks(lines) + 1
    ensures maxValue == sorted[0] && maxValue in Groups(lines)
    ensures forall g :: g in Groups(lines) ==> g <= maxValue
    ensures topThreeCalories.None? <==> |sorted| < 3
    ensures topThreeCalories.Some? ==> topThreeCalories.value == sorted[0] + sorted[1] + sorted[2]
  {
    var groups := Group(lines);
    GroupsCover(lines);
    var a := new int[|groups|](i requires 0 <= i < |groups| => groups[i]);
    assert a[..] == groups;
    Sort(a, true);
    sorted := a[..];
    assert |sorted| == |multiset(sorted)| == |groups|;
    maxValue := a[0];
    assert maxValue in multiset(groups);
    forall g | g in groups
      ensures g <= maxValue
    {
      FirstIsMaximum(sorted, g);
    }
    if a.Length < 3 {
      return sorted, maxValue, None;
    }
    topThreeCalories := Some(maxValue + a[1] + a[2]);
  }
}
