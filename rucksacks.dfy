/**
 * The rucksack priorities of 2022/day_3: part 1 finds the item shared by
 * the two halves of each line, part 2 the item shared by each group of
 * three consecutive lines, and each adds that item's priority.
 */
module Rucksacks {
  import opened Wrappers

  /**
   * `get_priority`: lower-case letters count 1 to 26, everything at or
   * below code 96 is counted from code 38, which puts `A` … `Z` at 27 to 52.
   */
  function Priority(c: char): (r: int)
    ensures 'a' <= c <= 'z' ==> r == c as int - 'a' as int + 1
    ensures 'A' <= c <= 'Z' ==> r == c as int - 'A' as int + 27
  {
    var val := c as int;
    if val > 96 then val - 96 else val - 38
  }

  predicate IsLetter(c: char)
  {
    'a' <= c <= 'z' || 'A' <= c <= 'Z'
  }

  /** Letters get priorities 1 to 52, no two letters the same. */
  lemma PriorityOfLetters(c: char, d: char)
    requires IsLetter(c) && IsLetter(d)
    ensures 1 <= Priority(c) <= 52
    ensures Priority(c) == Priority(d) ==> c == d
  {
  }

  /** `c` occurs in every one of `others`. */
  predicate InAll(c: char, others: seq<string>)
  {
    forall k :: 0 <= k < |others| ==> c in others[k]
  }

  /** The first character of `items` that every one of `others` contains. */
  function FirstCommon(items: string, others: seq<string>): Option<char>
    decreases |items|
  {
    if items == [] then None
    else if InAll(items[0], others) then Some(items[0])
    else FirstCommon(items[1..], others)
  }

  /** `items[i]` is in all `others` and no earlier character is. */
  predicate FirstCommonAt(items: string, others: seq<string>, i: nat)
  {
    i < |items| && InAll(items[i], others) && forall k :: 0 <= k < i ==> !InAll(items[k], others)
  }

  /**
   * The common item found is the first character of `items` held by all of
   * `others`, and there is none exactly when no character is.
   */
  lemma {:induction false} FirstCommonIsFirst(items: string, others: seq<string>)
    ensures FirstCommon(items, others).None? <==> forall i :: 0 <= i < |items| ==> !InAll(items[i], others)
    ensures FirstCommon(items, others).Some? ==>
      exists i: nat :: FirstCommonAt(items, others, i) && FirstCommon(items, others).value == items[i]
    decreases |items|
  {
    if items != [] && !InAll(items[0], others) {
      FirstCommonIsFirst(items[1..], others);
      assert forall i :: 1 <= i < |items| ==> items[i] == items[1..][i - 1];
      if FirstCommon(items, others).Some? {
        var i: nat :| FirstCommonAt(items[1..], others, i) && FirstCommon(items, others).value == items[1..][i];
        assert items[i + 1] == items[1..][i];
        assert FirstCommonAt(items, others, i + 1);
      }
    } else if items != [] {
      assert FirstCommonAt(items, others, 0);
    }
  }

  /**
   * The `for char in …` loop with its `break`: the first character of
   * `items` every one of `others` contains.
   */
  method FindCommon(items: string, others: seq<string>) returns (r: Option<char>)
    ensures r == FirstCommon(items, others)
  {
    for i := 0 to |items|
      invariant FirstCommon(items, others) == FirstCommon(items[i..], others)
    {
      assert items[i..][1..] == items[i + 1..];
      if InAll(items[i], others) {
        return Some(items[i]);
      }
    }
    return None;
  }

  /** What a shared item adds: its priority, or nothing. */
  function Added(common: Option<char>): int
  {
    match common
    case None => 0
    case Some(c) => Priority(c)
  }

  /** Part 1 for one line: the item shared by its first `len / 2` characters and the rest. */
  function LinePriority(line: string): int
  {
    var half := |line| / 2;
    Added(FirstCommon(line[..half], [line[half..]]))
  }

  /** The part 1 sum over the lines. */
  function HalvesSum(lines: seq<string>): int
    decreases |lines|
  {
    if lines == [] then 0 else HalvesSum(lines[..|lines| - 1]) + LinePriority(lines[|lines| - 1])
  }

  /** The part 1 line loop of `main`: at most one priority per line. */
  method SumHalves(lines: seq<string>) returns (sumOfPriorities: int)
    ensures sumOfPriorities == HalvesSum(lines)
  {
    sumOfPriorities := 0;
    for k := 0 to |lines|
      invariant sumOfPriorities == HalvesSum(lines[..k])
    {
      assert lines[..k + 1][..k] == lines[..k];
      var l := lines[k];
      var len := |l|;
      var (str1, str2) := (l[..len / 2], l[len / 2..]);
      var common := FindCommon(str1, [str2]);
      if common.Some? {
        sumOfPriorities := sumOfPriorities + Priority(common.value);
      }
    }
    assert lines[..|lines|] == lines;
  }

  /**
   * A line adds the priority of the first character of its first half that
   * its second half contains, or nothing when the halves share none.
   */
  lemma LinePriorityShared(line: string)
    ensures var half := |line| / 2;
      (exists i: nat :: FirstCommonAt(line[..half], [line[half..]], i) && LinePriority(line) == Priority(line[i])) ||
      (LinePriority(line) == 0 && forall i :: 0 <= i < half ==> line[i] !in line[half..])
  {
    var half := |line| / 2;
    FirstCommonIsFirst(line[..half], [line[half..]]);
    if FirstCommon(line[..half], [line[half..]]).None? {
      forall i | 0 <= i < half
        ensures line[i] !in line[half..]
      {
        assert line[..half][i] == line[i];
        assert !InAll(line[..half][i], [line[half..]]);
      }
    } else {
      var i: nat :| FirstCommonAt(line[..half], [line[half..]], i) && FirstCommon(line[..half], [line[half..]]).value == line[..half][i];
      assert line[..half][i] == line[i];
    }
  }

  /** Part 2 for one group: the first item of its first line held by the other two. */
  function GroupPriority(first: string, second: string, third: string): int
  {
    Added(FirstCommon(first, [second, third]))
  }

  /** The part 2 sum over the first `groups` groups of three lines. */
  function GroupsSum(lines: seq<string>, groups: nat): int
    requires 3 * groups <= |lines|
  {
    if groups == 0 then 0
    else
      var k := 3 * (groups - 1);
      GroupsSum(lines, groups - 1) + GroupPriority(lines[k], lines[k + 1], lines[k + 2])
  }

  /** A group depends only on its own three lines. */
  lemma {:induction false} GroupsSumPrefix(lines: seq<string>, more: seq<string>, groups: nat)
    requires 3 * groups <= |lines|
    ensures GroupsSum(lines + more, groups) == GroupsSum(lines, groups)
  {
    if groups > 0 {
      GroupsSumPrefix(lines, more, groups - 1);
      var k := 3 * (groups - 1);
      assert (lines + more)[k] == lines[k] && (lines + more)[k + 1] == lines[k + 1] && (lines + more)[k + 2] == lines[k + 2];
    }
  }

  /** Lines after the last full group of three add nothing. */
  lemma TrailingLinesIgnored(lines: seq<string>, rest: seq<string>)
    requires |lines| % 3 == 0 && |rest| < 3
    ensures GroupsSum(lines + rest, |lines + rest| / 3) == GroupsSum(lines, |lines| / 3)
  {
    assert |lines + rest| / 3 == |lines| / 3;
    GroupsSumPrefix(lines, rest, |lines| / 3);
  }

  /**
   * The part 2 line loop of `main`: lines are pushed into a buffer; once it
   * holds three, their common item is scored and the buffer cleared.
   */
  method SumGroups(lines: seq<string>) returns (sumOfPrioritiesP2: int)
    ensures sumOfPrioritiesP2 == GroupsSum(lines, |lines| / 3)
  {
    sumOfPrioritiesP2 := 0;
    var resultVec: seq<string> := [];
    for k := 0 to |lines|
      invariant resultVec == lines[k - k % 3..k]
      invariant sumOfPrioritiesP2 == GroupsSum(lines, k / 3)
    {
      var l := lines[k];
      if |resultVec| != 3 {
        resultVec := resultVec + [l];
      }
      if |resultVec| == 3 {
        var common := FindCommon(resultVec[0], [resultVec[1], resultVec[2]]);
        if common.Some? {
          sumOfPrioritiesP2 := sumOfPrioritiesP2 + Priority(common.value);
        }
        resultVec := [];
      }
    }
  }
}
