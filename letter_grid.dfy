/**
 * The word search of 2024/day_4: `XMAS` along any of the eight directions
 * from an `X`, and the X-shaped pair of `MAS` diagonals counted from each of
 * its `M` corners.
 */
module LetterGrid {

  /** `DIRECTIONS`: the eight (dy, dx) steps. */
  const Directions: seq<(int, int)> := [(-1, -1), (-1, 0), (-1, 1), (0, -1), (0, 1), (1, -1), (1, 0), (1, 1)]

  /** `CROSS_DIRECTIONS`: the four diagonal steps from an `M` towards its `A`. */
  const CrossDirections: seq<(int, int)> := [(-1, -1), (-1, 1), (1, -1), (1, 1)]

  /** Every row of the grid is `width` characters long and there are `height` rows. */
  ghost predicate Shaped(grid: seq<seq<char>>, width: nat, height: nat)
  {
    |grid| == height && forall r :: 0 <= r < height ==> |grid[r]| == width
  }

  /** The number of `true` flags, counted from the front as the `for` loops do. */
  function CountTrue(flags: seq<bool>): (n: nat)
    ensures n <= |flags|
    decreases |flags|
  {
    if flags == [] then 0
    else CountTrue(flags[..|flags| - 1]) + (if flags[|flags| - 1] then 1 else 0)
  }

  /** The offsets of the `true` flags. */
  function TrueAt(flags: seq<bool>): set<nat>
  {
    set i: nat | i < |flags| && flags[i]
  }

  /** The count is the number of offsets holding `true`. */
  lemma {:induction false} CountTrueIsCard(flags: seq<bool>)
    ensures CountTrue(flags) == |TrueAt(flags)|
    decreases |flags|
  {
    if flags != [] {
      var init := flags[..|flags| - 1];
      CountTrueIsCard(init);
      assert TrueAt(flags) == TrueAt(init) + (if flags[|flags| - 1] then {|flags| - 1} else {});
    }
  }

  /** `is_in_bounds`. */
  predicate InBounds(row: int, col: int, width: nat, height: nat)
  {
    0 <= row < height && 0 <= col < width
  }

  /** `check_letter`: on the grid and holding `desired`; never true off the grid. */
  predicate CheckLetter(grid: seq<seq<char>>, width: nat, height: nat, row: int, col: int, desired: char)
    requires Shaped(grid, width, height)
  {
    InBounds(row, col, width, height) && grid[row][col] == desired
  }

  /** `M`, `A`, `S` at one, two and three steps of direction `k` from (row, col). */
  predicate XmasAlong(grid: seq<seq<char>>, width: nat, height: nat, row: int, col: int, k: nat)
    requires Shaped(grid, width, height) && k < 8
  {
    var (dy, dx) := Directions[k];
    CheckLetter(grid, width, height, row + dy, col + dx, 'M')
    && CheckLetter(grid, width, height, row + 2 * dy, col + 2 * dx, 'A')
    && CheckLetter(grid, width, height, row + 3 * dy, col + 3 * dx, 'S')
  }

  /** Whether each of the eight directions spells `MAS` from (row, col). */
  ghost function XmasFlags(grid: seq<seq<char>>, width: nat, height: nat, row: int, col: int): (f: seq<bool>)
    requires Shaped(grid, width, height)
    ensures |f| == 8 && forall k :: 0 <= k < 8 ==> f[k] == XmasAlong(grid, width, height, row, col, k)
  {
    seq(8, k requires 0 <= k < 8 && Shaped(grid, width, height) => XmasAlong(grid, width, height, row, col, k))
  }

  /**
   * One step of `check_cross_mas_from_position` from (row, col) along
   * diagonal `k`: `A` one step away, `S` two steps away, and the corners
   * (row, col + 2dx) and (row + 2dy, col) holding `M` and `S`, or, when the
   * first is not `M`, `S` and `M`.
   */
  predicate CrossAlong(grid: seq<seq<char>>, width: nat, height: nat, row: int, col: int, k: nat)
    requires Shaped(grid, width, height) && k < 4
  {
    var (dy, dx) := CrossDirections[k];
    CheckLetter(grid, width, height, row + dy, col + dx, 'A')
    && CheckLetter(grid, width, height, row + 2 * dy, col + 2 * dx, 'S')
    && if CheckLetter(grid, width, height, row, col + 2 * dx, 'M') then CheckLetter(grid, width, height, row + 2 * dy, col, 'S')
       else CheckLetter(grid, width, height, row, col + 2 * dx, 'S') && CheckLetter(grid, width, height, row + 2 * dy, col, 'M')
  }

  /** Whether each of the four diagonals completes a crossed `MAS` from (row, col). */
  ghost function CrossFlags(grid: seq<seq<char>>, width: nat, height: nat, row: int, col: int): (f: seq<bool>)
    requires Shaped(grid, width, height)
    ensures |f| == 4 && forall k :: 0 <= k < 4 ==> f[k] == CrossAlong(grid, width, height, row, col, k)
  {
    seq(4, k requires 0 <= k < 4 && Shaped(grid, width, height) => CrossAlong(grid, width, height, row, col, k))
  }

  /** What the cell (row, col) adds: its `XMAS` count from an `X`, or its crossed count from an `M`. */
  ghost function HitsAt(grid: seq<seq<char>>, width: nat, height: nat, row: nat, col: nat, cross: bool): nat
    requires Shaped(grid, width, height) && row < height && col < width
  {
    if cross then (if grid[row][col] == 'M' then CountTrue(CrossFlags(grid, width, height, row, col)) else 0)
    else if grid[row][col] == 'X' then CountTrue(XmasFlags(grid, width, height, row, col)) else 0
  }

  /** What the cells before (row, col) in row-major order add. */
  ghost function Total(grid: seq<seq<char>>, width: nat, height: nat, cross: bool, row: nat, col: nat): nat
    requires Shaped(grid, width, height)
    requires row <= height && col <= width && (col > 0 ==> row < height)
    decreases row, col
  {
    if col > 0 then Total(grid, width, height, cross, row, col - 1) + HitsAt(grid, width, height, row, col - 1, cross)
    else if row > 0 then Total(grid, width, height, cross, row - 1, width)
    else 0
  }

  /** Each cell adds at most 8 `XMAS` hits or 4 crossed hits. */
  lemma {:induction false} TotalBound(grid: seq<seq<char>>, width: nat, height: nat, cross: bool, row: nat, col: nat)
    requires Shaped(grid, width, height)
    requires row <= height && col <= width && (col > 0 ==> row < height)
    ensures Total(grid, width, height, cross, row, col) <= (row * width + col) * (if cross then 4 else 8)
    decreases row, col
  {
    if col > 0 {
      TotalBound(grid, width, height, cross, row, col - 1);
    } else if row > 0 {
      TotalBound(grid, width, height, cross, row - 1, width);
      assert (row - 1) * width + width == row * width;
    }
  }

  /** An `A` at (r, c) whose two diagonals each read `MAS` one way or the other. */
  predicate CrossedMas(grid: seq<seq<char>>, width: nat, height: nat, r: int, c: int)
    requires Shaped(grid, width, height)
  {
    CheckLetter(grid, width, height, r, c, 'A')
    && ((CheckLetter(grid, width, height, r - 1, c - 1, 'M') && CheckLetter(grid, width, height, r + 1, c + 1, 'S'))
        || (CheckLetter(grid, width, height, r - 1, c - 1, 'S') && CheckLetter(grid, width, height, r + 1, c + 1, 'M')))
    && ((CheckLetter(grid, width, height, r - 1, c + 1, 'M') && CheckLetter(grid, width, height, r + 1, c - 1, 'S'))
        || (CheckLetter(grid, width, height, r - 1, c + 1, 'S') && CheckLetter(grid, width, height, r + 1, c - 1, 'M')))
  }

  /** The diagonals `k` along which an `M` one step back from (r, c) scores a crossed hit. */
  function HitsInto(grid: seq<seq<char>>, width: nat, height: nat, r: int, c: int): set<nat>
    requires Shaped(grid, width, height)
  {
    set k: nat | k < 4
      && CheckLetter(grid, width, height, r - CrossDirections[k].0, c - CrossDirections[k].1, 'M')
      && CrossAlong(grid, width, height, r - CrossDirections[k].0, c - CrossDirections[k].1, k)
  }

  /**
   * Why `main` halves the crossed count: every crossed hit lands on the `A`
   * of a crossed `MAS`, and each crossed `MAS` is hit exactly twice, once
   * from each of its two `M` corners.
   */
  lemma CrossMasCountedTwice(grid: seq<seq<char>>, width: nat, height: nat, r: int, c: int)
    requires Shaped(grid, width, height)
    ensures |HitsInto(grid, width, height, r, c)| == if CrossedMas(grid, width, height, r, c) then 2 else 0
  {
    var s := HitsInto(grid, width, height, r, c);
    if CrossedMas(grid, width, height, r, c) {
      var a: nat := if CheckLetter(grid, width, height, r + 1, c + 1, 'M') then 0 else 3;
      var b: nat := if CheckLetter(grid, width, height, r + 1, c - 1, 'M') then 1 else 2;
      assert s == {a, b};
    } else {
      assert s == {};
    }
  }

  class LetterGrid {
    var grid: seq<seq<char>>
    var width: nat
    var height: nat
    var xmasHits: nat
    var crossMasHits: nat

    ghost predicate Valid()
      reads this
    {
      Shaped(grid, width, height)
    }

    /**
     * `LetterGrid::new`: as wide as the first line; each cell holds the
     * character of its line, or a space past the end of a shorter line.
     * A line longer than the first would index past its row.
     */
    constructor(lines: seq<string>)
      requires forall r :: 0 <= r < |lines| ==> |lines[r]| <= |lines[0]|
      ensures Valid()
      ensures height == |lines| && width == (if lines == [] then 0 else |lines[0]|)
      ensures forall r, c :: 0 <= r < height && 0 <= c < width ==>
        grid[r][c] == if c < |lines[r]| then lines[r][c] else ' '
      ensures xmasHits == 0 && crossMasHits == 0
    {
      var w := if lines == [] then 0 else |lines[0]|;
      var g := seq(|lines|, _ => seq(w, _ => ' '));
      for row := 0 to |lines|
        invariant Shaped(g, w, |lines|)
        invariant forall r, c :: 0 <= r < |lines| && 0 <= c < w ==>
          g[r][c] == if r < row && c < |lines[r]| then lines[r][c] else ' '
      {
        for col := 0 to |lines[row]|
          invariant Shaped(g, w, |lines|)
          invariant forall r, c :: 0 <= r < |lines| && 0 <= c < w ==>
            g[r][c] == if (r < row && c < |lines[r]|) || (r == row && c < col) then lines[r][c] else ' '
        {
          g := g[row := g[row][col := lines[row][col]]];
        }
      }
      grid := g;
      width := w;
      height := |lines|;
      xmasHits := 0;
      crossMasHits := 0;
    }

    /** `check_xmas_from_position`: one hit per direction spelling `MAS` after (row, col). */
    method CheckXmasFromPosition(row: nat, col: nat)
      requires Valid()
      modifies this`xmasHits
      ensures xmasHits == old(xmasHits) + CountTrue(XmasFlags(grid, width, height, row, col))
    {
      ghost var flags := XmasFlags(grid, width, height, row, col);
      for k := 0 to 8
        invariant xmasHits == old(xmasHits) + CountTrue(flags[..k])
      {
        assert flags[..k + 1][..k] == flags[..k];
        var hit := XmasAlongFrom(row, col, k);
        if hit {
          xmasHits := xmasHits + 1;
        }
      }
      assert flags[..8] == flags;
    }

    /**
     * One round of the direction loop of `check_xmas_from_position`: `M`,
     * `A` and `S` are checked in turn one, two and three steps along
     * direction `k`, giving up at the first letter that does not match.
     */
    method XmasAlongFrom(row: nat, col: nat, k: nat) returns (hit: bool)
      requires Valid() && k < 8
      ensures hit == XmasAlong(grid, width, height, row, col, k)
    {
      var (dy, dx) := Directions[k];
      var mRow, mCol := row + dy, col + dx;
      var aRow, aCol := mRow + dy, mCol + dx;
      var sRow, sCol := aRow + dy, aCol + dx;
      if !CheckLetter(grid, width, height, mRow, mCol, 'M') {
        return false;
      }
      if !CheckLetter(grid, width, height, aRow, aCol, 'A') {
        return false;
      }
      if !CheckLetter(grid, width, height, sRow, sCol, 'S') {
        return false;
      }
      return true;
    }

    /** `find_xmas_patterns`: every `X` cell adds its `XMAS` count. */
    method FindXmasPatterns()
      requires Valid()
      modifies this`xmasHits
      ensures xmasHits == old(xmasHits) + Total(grid, width, height, false, height, 0)
    {
      for row := 0 to height
        invariant xmasHits == old(xmasHits) + Total(grid, width, height, false, row, 0)
      {
        for col := 0 to width
          invariant xmasHits == old(xmasHits) + Total(grid, width, height, false, row, col)
        {
          if grid[row][col] == 'X' {
            CheckXmasFromPosition(row, col);
          }
        }
      }
    }

    /** `check_cross_mas_from_position`: one hit per diagonal completing a crossed `MAS`. */
    method CheckCrossMasFromPosition(row: nat, col: nat)
      requires Valid()
      modifies this`crossMasHits
      ensures crossMasHits == old(crossMasHits) + CountTrue(CrossFlags(grid, width, height, row, col))
    {
      var g, w, h := grid, width, height;
      ghost var flags := CrossFlags(g, w, h, row, col);
      for k := 0 to 4
        invariant crossMasHits == old(crossMasHits) + CountTrue(flags[..k])
      {
        assert flags[..k + 1][..k] == flags[..k];
        var (dy, dx) := CrossDirections[k];
        var aRow, aCol := row + dy, col + dx;
        var msRow, msCol := row + 2 * dy, col + 2 * dx;
        assert flags[k] <==>
          CheckLetter(g, w, h, aRow, aCol, 'A') && CheckLetter(g, w, h, msRow, msCol, 'S') &&
          if CheckLetter(g, w, h, row, msCol, 'M') then CheckLetter(g, w, h, msRow, col, 'S')
          else CheckLetter(g, w, h, row, msCol, 'S') && CheckLetter(g, w, h, msRow, col, 'M');
        if !CheckLetter(g, w, h, aRow, aCol, 'A') {
          continue;
        }
        if !CheckLetter(g, w, h, msRow, msCol, 'S') {
          continue;
        }
        if CheckLetter(g, w, h, row, msCol, 'M') {
          if !CheckLetter(g, w, h, msRow, col, 'S') {
            continue;
          }
          crossMasHits := crossMasHits + 1;
        } else if CheckLetter(g, w, h, row, msCol, 'S') {
          if !CheckLetter(g, w, h, msRow, col, 'M') {
            continue;
          }
          crossMasHits := crossMasHits + 1;
        }
      }
      assert flags[..4] == flags;
    }

    /** `find_cross_mas_patterns`: every `M` cell adds its crossed count. */
    method FindCrossMasPatterns()
      requires Valid()
      modifies this`crossMasHits
      ensures crossMasHits == old(crossMasHits) + Total(grid, width, height, true, height, 0)
    {
      for row := 0 to height
        invariant crossMasHits == old(crossMasHits) + Total(grid, width, height, true, row, 0)
      {
        for col := 0 to width
          invariant crossMasHits == old(crossMasHits) + Total(grid, width, height, true, row, col)
        {
          if grid[row][col] == 'M' {
            CheckCrossMasFromPosition(row, col);
          }
        }
      }
    }
  }
}
