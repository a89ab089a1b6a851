/**
 * The strategy guide of 2022/day_2: each round names the opponent's shape
 * (`A`, `B`, `C`) and a second column (`X`, `Y`, `Z`) read in part 1 as the
 * shape to play and in part 2 as the outcome to reach. The scoring tables of
 * the source are proved against the rules of the game stated separately.
 */
module RockPaperScissors {
  import opened Wrappers

  datatype Shape = Rock | Paper | Scissors
  datatype Outcome = Lose | Draw | Win

  /** The rules: each shape beats exactly one other. */
  function Beats(s: Shape): Shape
  {
    match s
    case Rock => Scissors
    case Paper => Rock
    case Scissors => Paper
  }

  /** The outcome for the player of `own` against `opponent`. */
  function Play(opponent: Shape, own: Shape): Outcome
  {
    if own == opponent then Draw
    else if Beats(own) == opponent then Win
    else Lose
  }

  /** Points for the shape played. */
  function ShapePoints(s: Shape): int
  {
    match s
    case Rock => 1
    case Paper => 2
    case Scissors => 3
  }

  /** Points for the outcome of a round. */
  function OutcomePoints(o: Outcome): int
  {
    match o
    case Lose => 0
    case Draw => 3
    case Win => 6
  }

  /** The opponent's column as the source reads it: anything but `A` or `B` is scissors. */
  function OpponentShape(opponent: string): Shape
  {
    if opponent == "A" then Rock else if opponent == "B" then Paper else Scissors
  }

  /** The second column read as a shape: anything but `X` or `Y` is scissors. */
  function OwnShape(own: string): Shape
  {
    if own == "X" then Rock else if own == "Y" then Paper else Scissors
  }

  /** The second column read as an outcome: anything but `X` or `Y` is a win. */
  function DesiredOutcome(column: string): Outcome
  {
    if column == "X" then Lose else if column == "Y" then Draw else Win
  }

  /** `get_hand_score_p1`: the points of the shape in the second column. */
  function HandScoreP1(own: string): (r: int)
    ensures r == ShapePoints(OwnShape(own))
    ensures r == 1 <==> own == "X"
    ensures r == 2 <==> own == "Y"
    ensures 1 <= r <= 3
  {
    if own == "X" then 1
    else if own == "Y" then 2
    else 3
  }

  /**
   * `get_result_score_p1`: the points of the outcome of playing the second
   * column against the first; 3 exactly for `A X`, `B Y` and any other
   * opponent letter with `Z`.
   */
  function ResultScoreP1(opponent: string, own: string): (r: int)
    ensures r == OutcomePoints(Play(OpponentShape(opponent), OwnShape(own)))
    ensures r == 0 || r == 3 || r == 6
    ensures r == 3 <==> OpponentShape(opponent) == OwnShape(own)
  {
    if opponent == "A" then
      if own == "X" then 3
      else if own == "Y" then 6
      else 0
    else if opponent == "B" then
      if own == "X" then 0
      else if own == "Y" then 3
      else 6
    else
      if own == "X" then 6
      else if own == "Y" then 0
      else 3
  }

  /** `get_result_score_p2`: the points of the outcome the second column asks for. */
  function ResultScoreP2(column: string): (r: int)
    ensures r == OutcomePoints(DesiredOutcome(column))
    ensures r == 0 <==> column == "X"
    ensures r == 3 <==> column == "Y"
  {
    if column == "X" then 0
    else if column == "Y" then 3
    else 6
  }

  /** The shape worth the points `p`. */
  function ShapeOfPoints(p: int): Shape
  {
    if p == 1 then Rock else if p == 2 then Paper else Scissors
  }

  /**
   * `get_hand_score_p2`: the points of the shape that reaches the outcome the
   * second column asks for against the opponent's shape.
   */
  function HandScoreP2(opponent: string, column: string): (r: int)
    ensures 1 <= r <= 3
    ensures ShapePoints(ShapeOfPoints(r)) == r
    ensures Play(OpponentShape(opponent), ShapeOfPoints(r)) == DesiredOutcome(column)
  {
    if opponent == "A" then
      if column == "X" then 3
      else if column == "Y" then 1
      else 2
    else if opponent == "B" then
      if column == "X" then 1
      else if column == "Y" then 2
      else 3
    else
      if column == "X" then 2
      else if column == "Y" then 3
      else 1
  }

  /** The letter `X`, `Y` or `Z` that part 1 would read as the shape worth `p` points. */
  function Letter(p: int): string
  {
    if p == 1 then "X" else if p == 2 then "Y" else "Z"
  }

  /**
   * The tables agree: the hand part 2 picks, written back as its part 1
   * letter and scored with the part 1 result table, earns exactly what the
   * part 2 result table awards.
   */
  lemma TablesAgree(opponent: string, column: string)
    ensures ResultScoreP1(opponent, Letter(HandScoreP2(opponent, column))) == ResultScoreP2(column)
  {
    var p := HandScoreP2(opponent, column);
    assert OwnShape(Letter(p)) == ShapeOfPoints(p);
  }

  /** The first two fields of `l.split(" ")`, `None` when there is no space. */
  function Fields(line: string): (r: Option<(string, string)>)
    ensures r.None? <==> ' ' !in line
  {
    match IndexOf(line, ' ')
    case None => None
    case Some(i) =>
      var rest := line[i + 1..];
      match IndexOf(rest, ' ')
      case None => Some((line[..i], rest))
      case Some(j) => Some((line[..i], rest[..j]))
  }

  /** The position of the first `c` in `s`. */
  function IndexOf(s: string, c: char): (r: Option<nat>)
    ensures r.None? <==> c !in s
    ensures r.Some? ==> r.value < |s| && s[r.value] == c && c !in s[..r.value]
    decreases |s|
  {
    if s == [] then None
    else if s[0] == c then Some(0)
    else match IndexOf(s[1..], c)
      case None => None
      case Some(i) =>
        assert s[..i + 1] == [s[0]] + s[1..][..i];
        Some(i + 1)
  }

  /** The points of one round under both readings; `None` where `result_vec[1]` panics. */
  function RoundScores(line: string): Option<(int, int)>
  {
    match Fields(line)
    case None => None
    case Some((opponent, column)) =>
      Some((HandScoreP1(column) + ResultScoreP1(opponent, column),
            ResultScoreP2(column) + HandScoreP2(opponent, column)))
  }

  /** A round scores between 1 and 9 points under either reading. */
  lemma RoundScoreBounds(line: string)
    requires RoundScores(line).Some?
    ensures 1 <= RoundScores(line).value.0 <= 9 && 1 <= RoundScores(line).value.1 <= 9
  {
  }

  /** The totals after one more line: an empty line adds nothing, a line without a space fails. */
  function AddScores(totals: Option<(int, int)>, line: string): Option<(int, int)>
  {
    match totals
    case None => None
    case Some((one, two)) =>
      if line == [] then totals
      else match RoundScores(line)
        case None => None
        case Some((p1, p2)) => Some((one + p1, two + p2))
  }

  /** The totals of both parts over the non-empty lines; `None` if one has no space. */
  function Totals(lines: seq<string>): Option<(int, int)>
    decreases |lines|
  {
    if lines == [] then Some((0, 0))
    else AddScores(Totals(lines[..|lines| - 1]), lines[|lines| - 1])
  }

  /** The number of non-empty lines. */
  function Rounds(lines: seq<string>): nat
    decreases |lines|
  {
    if lines == [] then 0
    else Rounds(lines[..|lines| - 1]) + (if lines[|lines| - 1] == [] then 0 else 1)
  }

  /** Each part's total is between one and nine points per round. */
  lemma {:induction false} TotalsBounds(lines: seq<string>)
    requires Totals(lines).Some?
    ensures Rounds(lines) <= Totals(lines).value.0 <= 9 * Rounds(lines)
    ensures Rounds(lines) <= Totals(lines).value.1 <= 9 * Rounds(lines)
    decreases |lines|
  {
    if lines != [] {
      TotalsBounds(lines[..|lines| - 1]);
      if lines[|lines| - 1] != [] {
        RoundScoreBounds(lines[|lines| - 1]);
      }
    }
  }

  /** One more line: skipped when empty, otherwise its round scores are added, or the totals fail. */
  lemma TotalsExtend(lines: seq<string>, k: nat)
    requires k < |lines|
    ensures Totals(lines[..k + 1]) == AddScores(Totals(lines[..k]), lines[k])
  {
    assert lines[..k + 1][..k] == lines[..k];
  }

  /**
   * The body of the line loop for a non-empty line: split it, then add the
   * part 1 and part 2 points to the running totals; `None` where
   * `result_vec[1]` panics.
   */
  method AddRound(line: string, scorePartOne: int, scorePartTwo: int) returns (r: Option<(int, int)>)
    requires line != []
    ensures r.None? <==> ' ' !in line
    ensures r == AddScores(Some((scorePartOne, scorePartTwo)), line)
  {
    var fields := Fields(line);
    if fields.None? {
      return None;
    }
    var (opponent, column) := fields.value;
    var one, two := scorePartOne, scorePartTwo;
    one := one + HandScoreP1(column);
    one := one + ResultScoreP1(opponent, column);
    two := two + ResultScoreP2(column);
    two := two + HandScoreP2(opponent, column);
    return Some((one, two));
  }

  /** The line loop of `main`: empty lines are skipped, the others scored both ways. */
  method Score(lines: seq<string>) returns (r: Option<(int, int)>)
    ensures r == Totals(lines)
  {
    var scorePartOne, scorePartTwo := 0, 0;
    for k := 0 to |lines|
      invariant Totals(lines[..k]) == Some((scorePartOne, scorePartTwo))
    {
      TotalsExtend(lines, k);
      var l := lines[k];
      if l != [] {
        var added := AddRound(l, scorePartOne, scorePartTwo);
        if added.None? {
          TotalsFail(lines, k);
          return None;
        }
        scorePartOne, scorePartTwo := added.value.0, added.value.1;
      }
    }
    assert lines[..|lines|] == lines;
    return Some((scorePartOne, scorePartTwo));
  }

  /** A non-empty line without a space makes the totals fail. */
  lemma {:induction false} TotalsFail(lines: seq<string>, k: nat)
    requires k < |lines| && lines[k] != [] && ' ' !in lines[k]
    ensures Totals(lines).None?
    decreases |lines|
  {
    if k < |lines| - 1 {
      assert lines[..|lines| - 1][k] == lines[k];
      TotalsFail(lines[..|lines| - 1], k);
    }
  }
}
