/**
 * The calibration values of 2023/day-1: spelled-out digits `one` … `nine`
 * are rewritten to digits, leftmost first, and a line's value is its first
 * digit followed by its last. The regular expressions of the source are
 * modelled as a leftmost search for the literal words and a search for the
 * first ASCII digit.
 */
module DigitWords {
  import opened Wrappers

  /** The `numbers` table of `match_number`. */
  const Words: seq<string> := ["zero", "one", "two", "three", "four", "five", "six", "seven", "eight", "nine"]

  lemma WordsDistinct()
    ensures forall i, j :: 0 <= i < j < 10 ==> Words[i] != Words[j]
  {
    assert forall i :: 0 <= i < 10 ==> |Words[i]| >= 3;
    assert Words[1][0] == 'o' && Words[2][0..2] == "tw" && Words[3][0..2] == "th";
  }

  /** The words `one` … `nine` the rewriting looks for are at least three letters long. */
  lemma WordLengths()
    ensures forall j :: 1 <= j <= 9 ==> |Words[j]| >= 3
  {
  }

  /** `match_number`: the table position of the first word equal to `input`, scanning from `from`. */
  function MatchFrom(input: string, from: nat): (r: Option<nat>)
    requires from <= 10
    ensures r.Some? ==> from <= r.value < 10 && Words[r.value] == input
    ensures r.None? ==> forall i :: from <= i < 10 ==> Words[i] != input
    decreases 10 - from
  {
    if from == 10 then None
    else if input == Words[from] then Some(from)
    else MatchFrom(input, from + 1)
  }

  /**
   * `match_number`: `Some(i)` exactly for the i-th word of `zero` … `nine`,
   * `None` for anything else.
   */
  function MatchNumber(input: string): (r: Option<nat>)
    ensures forall i :: 0 <= i < 10 ==> (r == Some(i) <==> Words[i] == input)
    ensures r.None? <==> input !in Words
  {
    WordsDistinct();
    MatchFrom(input, 0)
  }

  predicate IsDigit(c: char)
  {
    '0' <= c <= '9'
  }

  function DigitValue(c: char): nat
    requires IsDigit(c)
  {
    c as nat - '0' as nat
  }

  /** `extract_first_number`: the value of the first ASCII digit, if any. */
  function ExtractFirstNumber(s: string): Option<nat>
    decreases |s|
  {
    if s == [] then None
    else if IsDigit(s[0]) then Some(DigitValue(s[0]))
    else ExtractFirstNumber(s[1..])
  }

  /**
   * The number found is the value of a digit with no digit before it, and
   * there is none exactly when the line holds no digit.
   */
  lemma {:induction false} FirstNumberIsFirstDigit(s: string)
    ensures ExtractFirstNumber(s).None? <==> forall i :: 0 <= i < |s| ==> !IsDigit(s[i])
    ensures ExtractFirstNumber(s).Some? ==> exists i: nat :: FirstDigitAt(s, i) && ExtractFirstNumber(s).value == DigitValue(s[i])
    decreases |s|
  {
    if s != [] && !IsDigit(s[0]) {
      FirstNumberIsFirstDigit(s[1..]);
      assert forall i :: 1 <= i < |s| ==> s[i] == s[1..][i - 1];
      if ExtractFirstNumber(s).Some? {
        var i: nat :| FirstDigitAt(s[1..], i) && ExtractFirstNumber(s).value == DigitValue(s[1..][i]);
        assert s[i + 1] == s[1..][i];
        assert FirstDigitAt(s, i + 1);
      }
    } else if s != [] {
      assert FirstDigitAt(s, 0);
    }
  }

  /** `s[i]` is a digit and no digit comes before it. */
  predicate FirstDigitAt(s: string, i: nat)
  {
    i < |s| && IsDigit(s[i]) && forall k :: 0 <= k < i ==> !IsDigit(s[k])
  }

  /** The value of the last ASCII digit. */
  function LastDigit(s: string): Option<nat>
    decreases |s|
  {
    if s == [] then None
    else if IsDigit(s[|s| - 1]) then Some(DigitValue(s[|s| - 1]))
    else LastDigit(s[..|s| - 1])
  }

  /** `chars().rev().collect()`. */
  function Reverse(s: string): (r: string)
    ensures |r| == |s|
    decreases |s|
  {
    if s == [] then [] else [s[|s| - 1]] + Reverse(s[..|s| - 1])
  }

  /** The first digit of the reversed line is the last digit of the line. */
  lemma {:induction false} FirstOfReverseIsLast(s: string)
    ensures ExtractFirstNumber(Reverse(s)) == LastDigit(s)
    decreases |s|
  {
    if s != [] {
      var r := Reverse(s);
      FirstOfReverseIsLast(s[..|s| - 1]);
      assert r[0] == s[|s| - 1] && r[1..] == Reverse(s[..|s| - 1]);
    }
  }

  /** Word `w` occurs in `s` at offset `i`. */
  predicate OccursAt(s: string, i: nat, w: string)
  {
    i + |w| <= |s| && s[i..i + |w|] == w
  }

  /** The first of the words `from` … `nine` occurring at offset `i`. */
  function WordAt(s: string, i: nat, from: nat): (r: Option<nat>)
    requires 1 <= from <= 10
    ensures r.Some? ==> from <= r.value <= 9 && OccursAt(s, i, Words[r.value])
    ensures r.None? ==> forall j :: from <= j <= 9 ==> !OccursAt(s, i, Words[j])
    decreases 10 - from
  {
    if from == 10 then None
    else if OccursAt(s, i, Words[from]) then Some(from)
    else WordAt(s, i, from + 1)
  }

  /**
   * The match of `one|two|…|nine` found by the search from offset `from`:
   * the leftmost offset holding one of the words, and that word's value.
   */
  function Leftmost(s: string, from: nat): Option<(nat, nat)>
    decreases |s| - from
  {
    if from >= |s| then None
    else match WordAt(s, from, 1)
      case Some(j) => Some((from, j))
      case None => Leftmost(s, from + 1)
  }

  /**
   * The match is an occurrence of one of `one` … `nine` and none of them
   * occurs earlier; there is no match exactly when none of them occurs.
   */
  lemma {:induction false} LeftmostIsFirst(s: string, from: nat)
    ensures Leftmost(s, from).Some? ==> var (i, j) := Leftmost(s, from).value;
      from <= i && 1 <= j <= 9 && OccursAt(s, i, Words[j]) &&
      forall p, w :: from <= p < i && 1 <= w <= 9 ==> !OccursAt(s, p, Words[w])
    ensures Leftmost(s, from).None? ==> forall p, w :: from <= p && 1 <= w <= 9 ==> !OccursAt(s, p, Words[w])
    decreases |s| - from
  {
    if from >= |s| {
      WordLengths();
    } else if WordAt(s, from, 1).None? {
      LeftmostIsFirst(s, from + 1);
      var r := Leftmost(s, from + 1);
      assert Leftmost(s, from) == r;
      forall p, w | from <= p && 1 <= w <= 9 && (r.None? || p < r.value.0)
        ensures !OccursAt(s, p, Words[w])
      {
        if p == from {
          assert !OccursAt(s, from, Words[w]);
        }
      }
    }
  }

  /** The character of a digit value. */
  function DigitChar(d: nat): (c: char)
    requires d <= 9
    ensures IsDigit(c) && DigitValue(c) == d
  {
    (48 + d) as char
  }

  /** The leftmost word replaced by its digit. */
  function ReplaceLeftmost(s: string, i: nat, j: nat): (r: string)
    requires 1 <= j <= 9 && OccursAt(s, i, Words[j])
    ensures |r| <= |s| - 2
  {
    WordLengths();
    s[..i] + [DigitChar(j)] + s[i + |Words[j]|..]
  }

  /**
   * What `replace_substring_with_number` returns: the leftmost word replaced
   * by its digit, again and again until no word is left.
   */
  function Rewritten(s: string): string
    decreases |s|
  {
    LeftmostIsFirst(s, 0);
    match Leftmost(s, 0)
    case None => s
    case Some((i, j)) => Rewritten(ReplaceLeftmost(s, i, j))
  }

  /**
   * The rewritten line holds none of `one` … `nine`, is no longer than the
   * line, and is the line itself when it held none of them.
   */
  lemma {:induction false} RewrittenWordFree(s: string)
    ensures forall p, j :: 1 <= j <= 9 ==> !OccursAt(Rewritten(s), p, Words[j])
    ensures |Rewritten(s)| <= |s|
    ensures Leftmost(s, 0).None? ==> Rewritten(s) == s
    decreases |s|
  {
    LeftmostIsFirst(s, 0);
    match Leftmost(s, 0)
    case None =>
    case Some((i, j)) => RewrittenWordFree(ReplaceLeftmost(s, i, j));
  }

  /** A word occurring at an offset starts with the letter found there. */
  lemma OccursAtStart(s: string, i: nat, w: string)
    requires w != [] && OccursAt(s, i, w)
    ensures s[i] == w[0]
  {
    assert s[i..i + |w|][0] == s[i];
  }

  /** Of two overlapping words only the earlier is rewritten: `eightwo` becomes `8wo`. */
  lemma EarlierWordWins()
    ensures Rewritten("eightwo") == "8wo"
  {
    var s := "eightwo";
    WordLengths();
    forall j | 1 <= j <= 9 && j != 8
      ensures !OccursAt(s, 0, Words[j])
    {
      if OccursAt(s, 0, Words[j]) {
        OccursAtStart(s, 0, Words[j]);
      }
    }
    assert s[0..5] == Words[8];
    assert WordAt(s, 0, 1) == Some(8);
    assert Leftmost(s, 0) == Some((0, 8));
    var t := ReplaceLeftmost(s, 0, 8);
    assert t == "8wo";
    forall j | 1 <= j <= 9
      ensures !OccursAt(t, 0, Words[j])
    {
      if OccursAt(t, 0, Words[j]) {
        OccursAtStart(t, 0, Words[j]);
      }
    }
    assert WordAt(t, 0, 1) == None;
    assert WordAt(t, 1, 1) == None;
    assert WordAt(t, 2, 1) == None;
    assert Leftmost(t, 3) == None;
    assert Leftmost(t, 2) == None;
    assert Leftmost(t, 1) == None;
    assert Leftmost(t, 0) == None;
  }

  /** The words are spelled with letters only. */
  lemma WordsHaveNoDigit()
    ensures forall j, c :: 1 <= j <= 9 && 0 <= c < |Words[j]| ==> !IsDigit(Words[j][c])
  {
  }

  /** Replacing a word moves a digit outside it to a known place. */
  lemma ReplaceKeepsDigit(s: string, i: nat, j: nat, k: nat) returns (k2: nat)
    requires 1 <= j <= 9 && OccursAt(s, i, Words[j])
    requires k < |s| && IsDigit(s[k])
    ensures k2 < |ReplaceLeftmost(s, i, j)| && ReplaceLeftmost(s, i, j)[k2] == s[k]
  {
    var w := Words[j];
    if i <= k < i + |w| {
      assert s[i..i + |w|][k - i] == s[k];
      WordsHaveNoDigit();
      assert false;
    }
    k2 := if k < i then k else k - |w| + 1;
  }

  /**
   * A digit already in the line is never overwritten, so a line holding a
   * digit still holds one once rewritten.
   */
  lemma {:induction false} DigitKept(s: string, k: nat)
    requires k < |s| && IsDigit(s[k])
    ensures !NoDigit(Rewritten(s))
    decreases |s|
  {
    LeftmostIsFirst(s, 0);
    match Leftmost(s, 0)
    case None =>
      assert Rewritten(s) == s;
    case Some((i, j)) =>
      var k2 := ReplaceKeepsDigit(s, i, j, k);
      DigitKept(ReplaceLeftmost(s, i, j), k2);
  }

  /** `zero` is not one of the words rewritten. */
  lemma ZeroStays()
    ensures Rewritten("zero") == "zero"
  {
    var s := "zero";
    WordLengths();
    forall j | 1 <= j <= 9
      ensures !OccursAt(s, 0, Words[j])
    {
      if OccursAt(s, 0, Words[j]) {
        OccursAtStart(s, 0, Words[j]);
      }
    }
    forall j | 1 <= j <= 9
      ensures !OccursAt(s, 1, Words[j])
    {
      if OccursAt(s, 1, Words[j]) {
        OccursAtStart(s, 1, Words[j]);
      }
    }
    assert WordAt(s, 0, 1) == None;
    assert WordAt(s, 1, 1) == None;
    assert WordAt(s, 2, 1) == None;
    assert WordAt(s, 3, 1) == None;
    assert Leftmost(s, 4) == None;
    assert Leftmost(s, 3) == None;
    assert Leftmost(s, 2) == None;
    assert Leftmost(s, 1) == None;
    assert Leftmost(s, 0) == None;
  }

  /** One turn of the rewriting: the leftmost word goes, the rest is rewritten alike. */
  lemma RewriteStep(s: string, i: nat, j: nat)
    requires Leftmost(s, 0) == Some((i, j))
    ensures 1 <= j <= 9 && OccursAt(s, i, Words[j])
    ensures Rewritten(s) == Rewritten(ReplaceLeftmost(s, i, j))
  {
    LeftmostIsFirst(s, 0);
  }

  /**
   * The body of that loop: the matched word is looked up with
   * `match_number` and its range replaced by the digit.
   */
  method ReplaceMatch(s: string, start: nat, j: nat) returns (r: string)
    requires 1 <= j <= 9 && OccursAt(s, start, Words[j])
    ensures r == ReplaceLeftmost(s, start, j)
  {
    var end := start + |Words[j]|;
    var number := MatchNumber(s[start..end]);
    assert number == Some(j);
    r := s[..start] + [DigitChar(number.value)] + s[end..];
  }

  /** `replace_substring_with_number`: the `while let` loop over the leftmost match. */
  method ReplaceSubstringWithNumber(input: string) returns (r: string)
    ensures r == Rewritten(input)
  {
    r := input;
    var found := Leftmost(r, 0);
    while found.Some?
      invariant found == Leftmost(r, 0)
      invariant Rewritten(r) == Rewritten(input)
      decreases |r|
    {
      var (start, j) := found.value;
      RewriteStep(r, start, j);
      r := ReplaceMatch(r, start, j);
      found := Leftmost(r, 0);
    }
  }

  /**
   * The value of one line: the first digit of the rewritten line and the
   * first digit of its reversal, read as a two-digit number; `None` where
   * the source panics on a line without digits.
   */
  function LineValue(line: string): Option<nat>
  {
    var modified := Rewritten(line);
    match (ExtractFirstNumber(modified), ExtractFirstNumber(Reverse(modified)))
    case (Some(fw), Some(rev)) => Some(10 * fw + rev)
    case _ => None
  }

  /** A line with a digit has a last digit. */
  lemma {:induction false} LastDigitFound(s: string, i: nat)
    requires i < |s| && IsDigit(s[i])
    ensures LastDigit(s).Some?
    decreases |s|
  {
    if !IsDigit(s[|s| - 1]) {
      assert s[..|s| - 1][i] == s[i];
      LastDigitFound(s[..|s| - 1], i);
    }
  }

  /**
   * A line's value is ten times the first digit of the rewritten line plus
   * its last digit, and there is none exactly when the rewritten line holds
   * no digit.
   */
  lemma LineValueDigits(line: string)
    ensures LineValue(line).None? <==> NoDigit(Rewritten(line))
    ensures LineValue(line).Some? ==> (ExtractFirstNumber(Rewritten(line)).Some? && LastDigit(Rewritten(line)).Some? &&
      LineValue(line).value == 10 * ExtractFirstNumber(Rewritten(line)).value + LastDigit(Rewritten(line)).value)
  {
    var m := Rewritten(line);
    FirstOfReverseIsLast(m);
    FirstNumberIsFirstDigit(m);
    var (fw, rev) := (ExtractFirstNumber(m), ExtractFirstNumber(Reverse(m)));
    assert LineValue(line) == if fw.Some? && rev.Some? then Some(10 * fw.value + rev.value) else None;
    if fw.Some? {
      var i: nat :| FirstDigitAt(m, i) && fw.value == DigitValue(m[i]);
      LastDigitFound(m, i);
      assert !NoDigit(m);
    }
  }

  /** The line holds no ASCII digit. */
  predicate NoDigit(s: string)
  {
    forall i :: 0 <= i < |s| ==> !IsDigit(s[i])
  }

  /** The body of the line loop of `main`: rewrite, then read the digit from each end. */
  method CalibrationValue(line: string) returns (r: Option<nat>)
    ensures r == LineValue(line)
  {
    var lineModified := ReplaceSubstringWithNumber(line);
    var numberFw := ExtractFirstNumber(lineModified);
    var reversed := Reverse(lineModified);
    var numberRev := ExtractFirstNumber(reversed);
    if numberFw.None? || numberRev.None? {
      return None;
    }
    return Some(10 * numberFw.value + numberRev.value);
  }

  /** The sum of the values of all lines, `None` once a line has no digit. */
  function Total(lines: seq<string>): Option<nat>
    decreases |lines|
  {
    if lines == [] then Some(0)
    else match (Total(lines[..|lines| - 1]), LineValue(lines[|lines| - 1]))
      case (Some(sum), Some(v)) => Some(sum + v)
      case _ => None
  }

  /** The total exists exactly when every line has a value. */
  lemma {:induction false} TotalDefined(lines: seq<string>)
    ensures Total(lines).Some? <==> forall k :: 0 <= k < |lines| ==> LineValue(lines[k]).Some?
    decreases |lines|
  {
    if lines != [] {
      var init := lines[..|lines| - 1];
      TotalDefined(init);
      assert forall k :: 0 <= k < |init| ==> init[k] == lines[k];
    }
  }

  /** The total over one more line adds that line's value, or fails with it. */
  lemma TotalExtend(lines: seq<string>, k: nat)
    requires k < |lines|
    ensures Total(lines[..k + 1]) ==
      if Total(lines[..k]).Some? && LineValue(lines[k]).Some? then Some(Total(lines[..k]).value + LineValue(lines[k]).value) else None
  {
    assert lines[..k + 1][..k] == lines[..k];
  }

  /** The line loop of `main`, which stops at the first line without a digit. */
  method Calibrate(lines: seq<string>) returns (r: Option<nat>)
    ensures r == Total(lines)
  {
    var sum := 0;
    for k := 0 to |lines|
      invariant Total(lines[..k]) == Some(sum)
    {
      TotalExtend(lines, k);
      var value := CalibrationValue(lines[k]);
      if value.None? {
        TotalDefined(lines);
        return None;
      }
      sum := sum + value.value;
    }
    assert lines[..|lines|] == lines;
    return Some(sum);
  }
}
