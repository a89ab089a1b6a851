/**
 * The patrolling guard of 2024/day_6: a grid of cells, each an obstacle or
 * not, possibly holding the guard and remembering the directions in which
 * the guard entered it; `move_guard` performs one step of the patrol.
 */
module GuardWalk {
  import opened Wrappers

  datatype Direction = Up | Right | Down | Left

  datatype Guard = Guard(direction: Direction)

  /** A cell: an obstacle or not, the guard if it stands here, the directions it was entered in. */
  datatype Cell = Cell(isObstacle: bool, guard: Option<Guard>, crossed: set<Direction>)

  /** `Cell::default()`. */
  const EmptyCell := Cell(false, None, {})

  /** `Guard::to_char`. */
  function GuardChar(d: Direction): char
  {
    match d
    case Up => '^'
    case Right => '>'
    case Down => 'V'
    case Left => '<'
  }

  /** `get_guard_direction`: the direction a guard glyph shows, `None` for every other character. */
  function GetGuardDirection(c: char): (r: Option<Direction>)
    ensures r.Some? <==> c in {'^', '>', 'V', '<'}
    ensures r.Some? ==> GuardChar(r.value) == c
  {
    match c
    case '^' => Some(Up)
    case '>' => Some(Right)
    case 'V' => Some(Down)
    case '<' => Some(Left)
    case _ => None
  }

  /** Every guard glyph reads back as the direction it shows. */
  lemma GuardGlyphRoundTrip(d: Direction)
    ensures GetGuardDirection(GuardChar(d)) == Some(d)
  {
  }

  /** `Cell::new`: an obstacle exactly for `#`, no guard, nothing crossed. */
  function NewCell(value: char): (cell: Cell)
    ensures cell.isObstacle <==> value == '#'
    ensures cell.guard.None? && cell.crossed == {}
  {
    Cell(value == '#', None, {})
  }

  /** `Cell::cross`: the direction is remembered; nothing else changes and nothing is forgotten. */
  function Cross(cell: Cell, d: Direction): (r: Cell)
    ensures d in r.crossed && cell.crossed <= r.crossed
    ensures forall e :: e in r.crossed && e != d ==> e in cell.crossed
    ensures r.isObstacle == cell.isObstacle && r.guard == cell.guard
  {
    cell.(crossed := cell.crossed + {d})
  }

  /**
   * `Cell::get_char`: `#` for an obstacle, then the guard glyph, then `+`,
   * `-`, `|` or `.` by the axes it was crossed along.
   */
  function GetChar(cell: Cell): (c: char)
    ensures cell.isObstacle ==> c == '#'
    ensures !cell.isObstacle && cell.guard.Some? ==> c == GuardChar(cell.guard.value.direction)
    ensures c == '.' <==> !cell.isObstacle && cell.guard.None? && cell.crossed == {}
    ensures !cell.isObstacle && cell.guard.None? && cell.crossed != {} ==>
      (c == '+' <==> (Left in cell.crossed || Right in cell.crossed) && (Up in cell.crossed || Down in cell.crossed))
  {
    if cell.isObstacle then '#'
    else if cell.guard.Some? then GuardChar(cell.guard.value.direction)
    else
      var horizontal := Left in cell.crossed || Right in cell.crossed;
      var vertical := Up in cell.crossed || Down in cell.crossed;
      assert cell.crossed != {} ==> horizontal || vertical by {
        if cell.crossed != {} {
          var e :| e in cell.crossed;
          if e == Up || e == Down { assert vertical; } else { assert horizontal; }
        }
      }
      match (horizontal, vertical)
      case (true, true) => '+'
      case (true, false) => '-'
      case (false, true) => '|'
      case (false, false) => '.'
  }

  /** `change_direction`: a quarter turn to the right. */
  function TurnRight(d: Direction): (r: Direction)
    ensures r != d
  {
    match d
    case Up => Right
    case Right => Down
    case Down => Left
    case Left => Up
  }

  /** Four quarter turns restore the direction, and no fewer do. */
  lemma FourTurnsRestore(d: Direction)
    ensures TurnRight(TurnRight(TurnRight(TurnRight(d)))) == d
    ensures TurnRight(TurnRight(d)) != d && TurnRight(TurnRight(TurnRight(d))) != d
  {
  }

  /** The cell one step from (row, col) in direction `d`; a step above row 0 or left of column 0 gives -1. */
  function Ahead(row: nat, col: nat, d: Direction): (int, int)
  {
    match d
    case Up => (row - 1, col)
    case Right => (row, col + 1)
    case Down => (row + 1, col)
    case Left => (row, col - 1)
  }

  /** The number of cells in `row` that were ever crossed. */
  function VisitedInRow(row: seq<Cell>): (n: nat)
    ensures n <= |row|
    decreases |row|
  {
    if row == [] then 0
    else VisitedInRow(row[..|row| - 1]) + (if row[|row| - 1].crossed != {} then 1 else 0)
  }

  /** `get_total_visited_cells`: the cells that were ever crossed. */
  function VisitedCells(cells: seq<seq<Cell>>): nat
    decreases |cells|
  {
    if cells == [] then 0
    else VisitedCells(cells[..|cells| - 1]) + VisitedInRow(cells[|cells| - 1])
  }

  /** Every cell of `b` has crossed at least the directions of the same cell of `a`. */
  ghost predicate CrossedGrows(a: seq<seq<Cell>>, b: seq<seq<Cell>>)
  {
    |a| == |b| &&
    forall r :: 0 <= r < |a| ==>
      |a[r]| == |b[r]| && forall c :: 0 <= c < |a[r]| ==> a[r][c].crossed <= b[r][c].crossed
  }

  lemma {:induction false} VisitedInRowGrows(a: seq<Cell>, b: seq<Cell>)
    requires |a| == |b| && forall c :: 0 <= c < |a| ==> a[c].crossed <= b[c].crossed
    ensures VisitedInRow(a) <= VisitedInRow(b)
    decreases |a|
  {
    if a != [] {
      VisitedInRowGrows(a[..|a| - 1], b[..|b| - 1]);
    }
  }

  /** When crossings only accumulate, the count of visited cells never falls. */
  lemma {:induction false} VisitedCellsGrow(a: seq<seq<Cell>>, b: seq<seq<Cell>>)
    requires CrossedGrows(a, b)
    ensures VisitedCells(a) <= VisitedCells(b)
    decreases |a|
  {
    if a != [] {
      VisitedInRowGrows(a[|a| - 1], b[|b| - 1]);
      VisitedCellsGrow(a[..|a| - 1], b[..|b| - 1]);
    }
  }

  /** The cell `Map::new` stores for character `ch`: `Cell::new`, with the guard when `ch` is a guard glyph. */
  function InitialCell(ch: char): (cell: Cell)
    ensures cell.isObstacle <==> ch == '#'
    ensures cell.crossed == {}
    ensures cell.guard.Some? <==> GetGuardDirection(ch).Some?
    ensures cell.guard.Some? ==> GuardChar(cell.guard.value.direction) == ch
  {
    match GetGuardDirection(ch)
    case Some(d) => NewCell(ch).(guard := Some(Guard(d)))
    case None => NewCell(ch)
  }

  /** Row `line` as `Map::new` leaves it: its characters' cells, then default cells up to `width`. */
  function InitialRow(line: string, width: nat, upTo: nat): (row: seq<Cell>)
    requires |line| <= width
    ensures |row| == width
    ensures forall c :: 0 <= c < width ==> row[c] == (if c < upTo && c < |line| then InitialCell(line[c]) else EmptyCell)
  {
    seq(width, c requires 0 <= c < width => if c < upTo && c < |line| then InitialCell(line[c]) else EmptyCell)
  }

  /** (r, c) comes before (row, col) in row-major order. */
  predicate Before(r: nat, c: nat, row: nat, col: nat)
  {
    r < row || (r == row && c < col)
  }

  /** A guard glyph sits at (r, c). */
  ghost predicate GlyphAt(lines: seq<string>, r: nat, c: nat)
  {
    r < |lines| && c < |lines[r]| && GetGuardDirection(lines[r][c]).Some?
  }

  /**
   * What `Map::new` records of the glyphs before (row, col): the position and
   * direction of the last one in row-major order, or none and `Up`.
   */
  ghost predicate GuardSeen(lines: seq<string>, row: nat, col: nat, pos: Option<(nat, nat)>, dir: Direction)
  {
    match pos
    case None =>
      dir == Up && forall r: nat, c: nat :: Before(r, c, row, col) ==> !GlyphAt(lines, r, c)
    case Some(p) =>
      && Before(p.0, p.1, row, col) && GlyphAt(lines, p.0, p.1)
      && GetGuardDirection(lines[p.0][p.1]) == Some(dir)
      && forall r: nat, c: nat :: Before(r, c, row, col) && Before(p.0, p.1, r, c) ==> !GlyphAt(lines, r, c)
  }

  /**
   * The inner loop of `Map::new` for one row: each character's cell is
   * written in turn, and a guard glyph replaces the remembered guard.
   */
  method FillRow(lines: seq<string>, row: nat, cells: seq<Cell>, position: Option<(nat, nat)>, direction: Direction)
    returns (filled: seq<Cell>, pos: Option<(nat, nat)>, dir: Direction)
    requires row < |lines| && |lines[row]| <= |cells|
    requires cells == InitialRow(lines[row], |cells|, 0)
    requires GuardSeen(lines, row, 0, position, direction)
    ensures filled == InitialRow(lines[row], |cells|, |cells|)
    ensures GuardSeen(lines, row + 1, 0, pos, dir)
  {
    var line := lines[row];
    filled, pos, dir := cells, position, direction;
    var col := 0;
    while col < |line|
      invariant col <= |line|
      invariant filled == InitialRow(line, |cells|, col)
      invariant GuardSeen(lines, row, col, pos, dir)
    {
      var ch := line[col];
      var cell := NewCell(ch);
      var glyph := GetGuardDirection(ch);
      if glyph.Some? {
        cell := cell.(guard := Some(Guard(glyph.value)));
        pos := Some((row, col));
        dir := glyph.value;
      }
      filled := filled[col := cell];
      col := col + 1;
    }
    assert GuardSeen(lines, row + 1, 0, pos, dir) by {
      assert forall c: nat :: Before(row, c, row + 1, 0) && c >= |line| ==> !GlyphAt(lines, row, c);
    }
  }

  class Map {
    var width: nat
    var height: nat
    var cells: seq<seq<Cell>>
    var guardPosition: Option<(nat, nat)>
    var guardDirection: Direction
    var completed: bool

    /** The grid is height × width, and a guard, if any, stands inside it on a cell that is not an obstacle. */
    ghost predicate Valid()
      reads this
    {
      && |cells| == height
      && (forall r :: 0 <= r < height ==> |cells[r]| == width)
      && (guardPosition.Some? ==>
        var p := guardPosition.value;
        p.0 < height && p.1 < width && !cells[p.0][p.1].isObstacle)
    }

    /** `get_total_visited_cells`. */
    function TotalVisitedCells(): nat
      reads this
    {
      VisitedCells(cells)
    }

    /**
     * `Map::new`: the grid is as tall as the input and as wide as its first
     * line; each character becomes its cell, cells past the end of a shorter
     * line stay default, the last guard glyph in row-major order places the
     * guard (facing `Up` when there is none), and no cell has been crossed,
     * the start cell included.
     */
    constructor(lines: seq<string>)
      requires forall r :: 0 <= r < |lines| ==> |lines[r]| <= |lines[0]|
      ensures Valid() && !completed
      ensures height == |lines| && width == (if lines == [] then 0 else |lines[0]|)
      ensures forall r, c :: 0 <= r < height && 0 <= c < width ==>
        cells[r][c] == (if c < |lines[r]| then InitialCell(lines[r][c]) else EmptyCell)
      ensures GuardSeen(lines, |lines|, 0, guardPosition, guardDirection)
    {
      var w: nat := if lines == [] then 0 else |lines[0]|;
      var grid: seq<seq<Cell>> := seq(|lines|, _ => seq(w, _ => EmptyCell));
      var position: Option<(nat, nat)> := None;
      var direction := Up;
      var row := 0;
      while row < |lines|
        invariant row <= |lines| && |grid| == |lines|
        invariant forall r :: 0 <= r < |lines| ==> |grid[r]| == w
        invariant forall r :: 0 <= r < row ==> grid[r] == InitialRow(lines[r], w, w)
        invariant forall r :: row <= r < |lines| ==> grid[r] == InitialRow(lines[r], w, 0)
        invariant GuardSeen(lines, row, 0, position, direction)
      {
        var filled;
        filled, position, direction := FillRow(lines, row, grid[row], position, direction);
        grid := grid[row := filled];
        row := row + 1;
      }
      width := w;
      height := |lines|;
      cells := grid;
      guardPosition := position;
      guardDirection := direction;
      completed := false;
    }

    /** `change_direction`. */
    method ChangeDirection()
      modifies this`guardDirection
      ensures guardDirection == TurnRight(old(guardDirection))
    {
      guardDirection := match guardDirection
        case Up => Right
        case Right => Down
        case Down => Left
        case Left => Up;
    }

    /**
     * `move_guard`: with no guard nothing happens; a step off the grid sets
     * `completed` and changes nothing else; facing an obstacle the guard turns
     * right without moving; otherwise it moves one cell, leaving the old cell,
     * standing on the new one and marking it crossed in its direction. The
     * guard stays on the grid and off obstacles, and crossings only accumulate.
     */
    method MoveGuard()
      requires Valid()
      modifies this`cells, this`guardPosition, this`guardDirection, this`completed
      ensures Valid()
      ensures old(guardPosition).None? ==>
        cells == old(cells) && guardPosition == old(guardPosition) &&
        guardDirection == old(guardDirection) && completed == old(completed)
      ensures old(guardPosition).Some? ==>
        var p := old(guardPosition).value;
        var next := Ahead(p.0, p.1, old(guardDirection));
        if !(0 <= next.0 < height && 0 <= next.1 < width) then
          completed && cells == old(cells) && guardPosition == old(guardPosition) && guardDirection == old(guardDirection)
        else if old(cells)[next.0][next.1].isObstacle then
          guardDirection == TurnRight(old(guardDirection)) &&
          cells == old(cells) && guardPosition == old(guardPosition) && completed == old(completed)
        else
          var d := old(guardDirection);
          var vacated := old(cells)[p.0 := old(cells)[p.0][p.1 := old(cells)[p.0][p.1].(guard := None)]];
          && guardPosition == Some((next.0 as nat, next.1 as nat))
          && cells == vacated[next.0 := vacated[next.0][next.1 := Cross(vacated[next.0][next.1].(guard := Some(Guard(d))), d)]]
          && guardDirection == d && completed == old(completed)
      ensures CrossedGrows(old(cells), cells)
      ensures TotalVisitedCells() >= old(TotalVisitedCells())
    {
      if guardPosition.Some? {
        var (row, col) := guardPosition.value;
        var next := Ahead(row, col, guardDirection);
        var (newRow, newCol) := next;
        if newCol < 0 || newCol >= width || newRow < 0 || newRow >= height {
          completed := true;
          return;
        }
        if cells[newRow][newCol].isObstacle {
          ChangeDirection();
          return;
        }
        cells := cells[row := cells[row][col := cells[row][col].(guard := None)]];
        var entered := cells[newRow][newCol].(guard := Some(Guard(guardDirection)));
        entered := Cross(entered, guardDirection);
        cells := cells[newRow := cells[newRow][newCol := entered]];
        guardPosition := Some((newRow, newCol));
      }
      VisitedCellsGrow(old(cells), cells);
    }
  }
}
