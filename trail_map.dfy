/**
 * The hiking-trail search of 2024/day_10: a grid of heights 0..9, a depth-
 * first search with an explicit stack from each trailhead (a height-0 cell)
 * that climbs one level per step and records the height-9 cells it reaches.
 * Positions are (x, y): column first, then row.
 */
module TrailMap {
  /** A cell: its height and whether the current search has popped it. */
  datatype Cell = Cell(height: nat, visited: bool)

  type Pos = (nat, nat)

  /** `Cell::visit`. */
  function Visit(c: Cell): (r: Cell)
    ensures r.visited && r.height == c.height
  {
    c.(visited := true)
  }

  /** `Cell::reset`. */
  function Unvisit(c: Cell): (r: Cell)
    ensures !r.visited && r.height == c.height
  {
    c.(visited := false)
  }

  /** The heights of the grid, with the visited flags forgotten. */
  ghost function Heights(cells: seq<seq<Cell>>): (t: seq<seq<nat>>)
    ensures |t| == |cells|
    ensures forall y :: 0 <= y < |t| ==> |t[y]| == |cells[y]|
    ensures forall y, x :: 0 <= y < |t| && 0 <= x < |t[y]| ==> t[y][x] == cells[y][x].height
  {
    seq(|cells|, y requires 0 <= y < |cells| => seq(|cells[y]|, x requires 0 <= x < |cells[y]| => cells[y][x].height))
  }

  predicate InGrid<T>(grid: seq<seq<T>>, p: Pos)
  {
    p.1 < |grid| && p.0 < |grid[p.1]|
  }

  ghost predicate Visited(cells: seq<seq<Cell>>, p: Pos)
  {
    InGrid(cells, p) && cells[p.1][p.0].visited
  }

  /** p and q are orthogonal neighbours. */
  predicate Adjacent(p: Pos, q: Pos)
  {
    (p.0 == q.0 && (p.1 + 1 == q.1 || q.1 + 1 == p.1)) ||
    (p.1 == q.1 && (p.0 + 1 == q.0 || q.0 + 1 == p.0))
  }

  /** One step of a hiking trail: to an orthogonal neighbour exactly one level higher. */
  ghost predicate Step(terrain: seq<seq<nat>>, p: Pos, q: Pos)
  {
    InGrid(terrain, p) && InGrid(terrain, q) && Adjacent(p, q) &&
    terrain[q.1][q.0] == terrain[p.1][p.0] + 1
  }

  /** `path` is a hiking trail: it starts inside the grid and every move is a `Step`. */
  ghost predicate Trail(terrain: seq<seq<nat>>, path: seq<Pos>)
    decreases |path|
  {
    |path| >= 1 && InGrid(terrain, path[0]) &&
    (|path| == 1 || (Trail(terrain, path[..|path| - 1]) && Step(terrain, path[|path| - 2], path[|path| - 1])))
  }

  /** A hiking trail leads from `s` to `q`. */
  ghost predicate Reaches(terrain: seq<seq<nat>>, s: Pos, q: Pos)
  {
    exists path {:trigger Trail(terrain, path)} :: Trail(terrain, path) && path[0] == s && path[|path| - 1] == q
  }

  lemma ReachesStart(terrain: seq<seq<nat>>, s: Pos)
    requires InGrid(terrain, s)
    ensures Reaches(terrain, s, s)
  {
    assert Trail(terrain, [s]);
  }

  /** A trail to `p` extends by one step to `q`. */
  lemma ReachesStep(terrain: seq<seq<nat>>, s: Pos, p: Pos, q: Pos)
    requires Reaches(terrain, s, p) && Step(terrain, p, q)
    ensures Reaches(terrain, s, q)
  {
    var path :| Trail(terrain, path) && path[0] == s && path[|path| - 1] == p;
    var longer := path + [q];
    assert longer[..|longer| - 1] == path;
    assert Trail(terrain, longer);
  }

  /** Along a trail the height rises by one per move. */
  lemma {:induction false} TrailClimbs(terrain: seq<seq<nat>>, path: seq<Pos>)
    requires Trail(terrain, path)
    ensures InGrid(terrain, path[|path| - 1])
    ensures terrain[path[|path| - 1].1][path[|path| - 1].0] == terrain[path[0].1][path[0].0] + |path| - 1
    decreases |path|
  {
    if |path| > 1 {
      TrailClimbs(terrain, path[..|path| - 1]);
    }
  }

  /**
   * A set of visited cells that holds the start and every step out of its own
   * cells holds every cell a trail from the start reaches.
   */
  lemma {:induction false} ClosedHoldsTrail(terrain: seq<seq<nat>>, cells: seq<seq<Cell>>, path: seq<Pos>)
    requires Trail(terrain, path) && Visited(cells, path[0])
    requires forall p, q :: Visited(cells, p) && Step(terrain, p, q) ==> Visited(cells, q)
    ensures Visited(cells, path[|path| - 1])
    decreases |path|
  {
    if |path| > 1 {
      ClosedHoldsTrail(terrain, cells, path[..|path| - 1]);
    }
  }

  lemma ClosedHoldsReachable(terrain: seq<seq<nat>>, cells: seq<seq<Cell>>, s: Pos)
    requires Visited(cells, s)
    requires forall p, q :: Visited(cells, p) && Step(terrain, p, q) ==> Visited(cells, q)
    ensures forall q :: Reaches(terrain, s, q) ==> Visited(cells, q)
  {
    forall q | Reaches(terrain, s, q)
      ensures Visited(cells, q)
    {
      var path :| Trail(terrain, path) && path[0] == s && path[|path| - 1] == q;
      ClosedHoldsTrail(terrain, cells, path);
    }
  }

  /** The four neighbour offsets (dx, dy) in the order `get_viable_neighbours` tries them. */
  const Directions: seq<(int, int)> := [(0, 1), (1, 0), (0, -1), (-1, 0)]

  /** The grid is `height` rows of `width` cells. */
  predicate Rectangular(cells: seq<seq<Cell>>, width: nat, height: nat)
  {
    |cells| == height && forall y :: 0 <= y < height ==> |cells[y]| == width
  }

  /** The neighbour of (x, y) at offset `d` if it is viable: inside, one level higher, not visited. */
  function Viable(cells: seq<seq<Cell>>, width: nat, height: nat, x: nat, y: nat, d: (int, int)): (r: seq<Pos>)
    requires Rectangular(cells, width, height) && x < width && y < height
  {
    var nx, ny := x + d.0, y + d.1;
    if nx < 0 || nx >= width || ny < 0 || ny >= height then []
    else if cells[ny][nx].height != cells[y][x].height + 1 then []
    else if cells[ny][nx].visited then []
    else [(nx, ny)]
  }

  /** A cell the check at offset `k` lets through is an unvisited step up from (x, y). */
  lemma ViableIsStep(cells: seq<seq<Cell>>, width: nat, height: nat, x: nat, y: nat, k: nat, q: Pos)
    requires Rectangular(cells, width, height) && x < width && y < height && k < 4
    requires q in Viable(cells, width, height, x, y, Directions[k])
    ensures Step(Heights(cells), (x, y), q) && !Visited(cells, q)
  {
    var t := Heights(cells);
    assert t[y][x] == cells[y][x].height && t[q.1][q.0] == cells[q.1][q.0].height;
  }

  /** The viable neighbours over the first `k` offsets. */
  function ViableUpTo(cells: seq<seq<Cell>>, width: nat, height: nat, x: nat, y: nat, k: nat): (r: seq<Pos>)
    requires Rectangular(cells, width, height) && x < width && y < height && k <= |Directions|
    ensures |r| <= k
  {
    if k == 0 then []
    else ViableUpTo(cells, width, height, x, y, k - 1) + Viable(cells, width, height, x, y, Directions[k - 1])
  }

  /** What `get_viable_neighbours(x, y)` returns: at most four cells. */
  function ViableNeighbours(cells: seq<seq<Cell>>, width: nat, height: nat, x: nat, y: nat): (r: seq<Pos>)
    requires Rectangular(cells, width, height) && x < width && y < height
    ensures |r| <= 4
  {
    ViableUpTo(cells, width, height, x, y, 4)
  }

  /**
   * The viable neighbours are exactly the unvisited cells one `Step` away:
   * inside the grid, orthogonally adjacent, one level higher.
   */
  lemma ViableNeighboursExact(cells: seq<seq<Cell>>, width: nat, height: nat, x: nat, y: nat)
    requires Rectangular(cells, width, height) && x < width && y < height
    ensures forall q :: q in ViableNeighbours(cells, width, height, x, y) <==> Step(Heights(cells), (x, y), q) && !Visited(cells, q)
  {
    var v0 := Viable(cells, width, height, x, y, Directions[0]);
    var v1 := Viable(cells, width, height, x, y, Directions[1]);
    var v2 := Viable(cells, width, height, x, y, Directions[2]);
    var v3 := Viable(cells, width, height, x, y, Directions[3]);
    assert ViableUpTo(cells, width, height, x, y, 1) == v0;
    assert ViableUpTo(cells, width, height, x, y, 2) == v0 + v1;
    assert ViableUpTo(cells, width, height, x, y, 3) == v0 + v1 + v2;
    assert ViableNeighbours(cells, width, height, x, y) == v0 + v1 + v2 + v3;
    var t := Heights(cells);
    forall q
      ensures q in v0 + v1 + v2 + v3 <==> Step(t, (x, y), q) && !Visited(cells, q)
    {
      if q in v0 + v1 + v2 + v3 {
        var k: nat := if q in v0 then 0 else if q in v1 then 1 else if q in v2 then 2 else 3;
        ViableIsStep(cells, width, height, x, y, k, q);
      }
      if Step(t, (x, y), q) && !Visited(cells, q) {
        if q.0 == x && q.1 == y + 1 {
          assert q in v0;
        } else if q.0 == x + 1 {
          assert q in v1;
        } else if q.0 == x {
          assert q in v2;
        } else {
          assert q in v3;
        }
      }
    }
  }

  /** No position occurs twice in `s`. */
  ghost predicate Distinct(s: seq<Pos>)
  {
    forall i, j :: 0 <= i < j < |s| ==> s[i] != s[j]
  }

  /** Which of the four offsets, in `Directions` order, leads from (x, y) to `q`. */
  function Towards(x: nat, y: nat, q: Pos): nat
  {
    if q == (x, y + 1) then 0 else if q == (x + 1, y) then 1 else if q.1 + 1 == y then 2 else 3
  }

  /**
   * Each offset yields at most one neighbour, so the viable neighbours over
   * the first `k` offsets are all different.
   */
  lemma {:induction false} ViableUpToDistinct(cells: seq<seq<Cell>>, width: nat, height: nat, x: nat, y: nat, k: nat)
    requires Rectangular(cells, width, height) && x < width && y < height && k <= |Directions|
    ensures forall q :: q in ViableUpTo(cells, width, height, x, y, k) ==> Towards(x, y, q) < k
    ensures Distinct(ViableUpTo(cells, width, height, x, y, k))
    decreases k
  {
    if k > 0 {
      ViableUpToDistinct(cells, width, height, x, y, k - 1);
      var prev := ViableUpTo(cells, width, height, x, y, k - 1);
      var w := Viable(cells, width, height, x, y, Directions[k - 1]);
      assert forall q :: q in w ==> Towards(x, y, q) == k - 1;
      var r := prev + w;
      assert |w| <= 1;
      forall i, j | 0 <= i < j < |r|
        ensures r[i] != r[j]
      {
        if j >= |prev| {
          assert r[j] == w[j - |prev|] && r[j] in w;
          assert r[i] == prev[i] && r[i] in prev;
          assert Towards(x, y, r[i]) < k - 1 == Towards(x, y, r[j]);
        } else {
          assert r[i] == prev[i] && r[j] == prev[j];
        }
      }
    }
  }

  /** No cell is returned twice by `get_viable_neighbours`. */
  lemma ViableNeighboursDistinct(cells: seq<seq<Cell>>, width: nat, height: nat, x: nat, y: nat)
    requires Rectangular(cells, width, height) && x < width && y < height
    ensures Distinct(ViableNeighbours(cells, width, height, x, y))
  {
    ViableUpToDistinct(cells, width, height, x, y, 4);
    assert ViableNeighbours(cells, width, height, x, y) == ViableUpTo(cells, width, height, x, y, 4);
  }

  /** 5^n. */
  function Pow5(n: nat): (r: nat)
    ensures r >= 1
  {
    if n == 0 then 1 else 5 * Pow5(n - 1)
  }

  /** Every entry of `stack` is a cell of the grid no higher than 9. */
  ghost predicate OnGrid(terrain: seq<seq<nat>>, stack: seq<Pos>)
  {
    forall q :: q in stack ==> InGrid(terrain, q) && terrain[q.1][q.0] <= 9
  }

  /** The termination weight of a stack of cells: 5^(9 - height) per entry. */
  ghost function Weight(terrain: seq<seq<nat>>, stack: seq<Pos>): nat
    requires OnGrid(terrain, stack)
  {
    if stack == [] then 0
    else
      var q := stack[|stack| - 1];
      assert q in stack;
      Weight(terrain, stack[..|stack| - 1]) + Pow5(9 - terrain[q.1][q.0])
  }

  lemma {:induction false} WeightAppend(terrain: seq<seq<nat>>, s: seq<Pos>, t: seq<Pos>)
    requires OnGrid(terrain, s + t)
    ensures OnGrid(terrain, s) && OnGrid(terrain, t)
    ensures Weight(terrain, s + t) == Weight(terrain, s) + Weight(terrain, t)
    decreases |t|
  {
    OnGridSplit(terrain, s, t);
    if t != [] {
      var u, init, last := s + t, t[..|t| - 1], t[|t| - 1];
      WeightLast(terrain, u);
      WeightLast(terrain, t);
      assert u[..|u| - 1] == s + init && u[|u| - 1] == last;
      WeightAppend(terrain, s, init);
      var top := Pow5(9 - terrain[last.1][last.0]);
      assert Weight(terrain, u) == Weight(terrain, s + init) + top;
      assert Weight(terrain, t) == Weight(terrain, init) + top;
    } else {
      assert s + t == s;
      assert Weight(terrain, t) == 0;
    }
  }

  lemma OnGridSplit(terrain: seq<seq<nat>>, s: seq<Pos>, t: seq<Pos>)
    requires OnGrid(terrain, s + t)
    ensures OnGrid(terrain, s) && OnGrid(terrain, t)
  {
    forall q | q in s
      ensures InGrid(terrain, q) && terrain[q.1][q.0] <= 9
    {
      assert q in s + t;
    }
    forall q | q in t
      ensures InGrid(terrain, q) && terrain[q.1][q.0] <= 9
    {
      assert q in s + t;
    }
  }

  /** The weight of a non-empty stack is that of all but its top plus the top's own. */
  lemma WeightLast(terrain: seq<seq<nat>>, u: seq<Pos>)
    requires OnGrid(terrain, u) && u != []
    ensures OnGrid(terrain, u[..|u| - 1])
    ensures var q := u[|u| - 1];
      InGrid(terrain, q) && Weight(terrain, u) == Weight(terrain, u[..|u| - 1]) + Pow5(9 - terrain[q.1][q.0])
  {
    assert u[|u| - 1] in u;
  }

  /** Entries all at height `h` weigh 5^(9 - h) each. */
  lemma {:induction false} WeightLevel(terrain: seq<seq<nat>>, t: seq<Pos>, h: nat)
    requires h <= 9
    requires forall q :: q in t ==> InGrid(terrain, q) && terrain[q.1][q.0] == h
    ensures OnGrid(terrain, t)
    ensures Weight(terrain, t) == |t| * Pow5(9 - h)
    decreases |t|
  {
    if t != [] {
      var init, last := t[..|t| - 1], t[|t| - 1];
      assert forall q :: q in init ==> q in t;
      WeightLevel(terrain, init, h);
      assert last in t;
      assert OnGrid(terrain, t);
      assert Weight(terrain, t) == Weight(terrain, init) + Pow5(9 - h);
      MulSucc(|init|, Pow5(9 - h));
    }
  }

  lemma MulSucc(n: nat, w: nat)
    ensures (n + 1) * w == n * w + w
  {
  }

  /**
   * Popping `v` and pushing at most four cells one level higher (none when
   * `v` is at height 9) makes the stack lighter.
   */
  lemma PopWeight(terrain: seq<seq<nat>>, rest: seq<Pos>, v: Pos, pushed: seq<Pos>)
    requires OnGrid(terrain, rest + [v]) && |pushed| <= 4
    requires forall q :: q in pushed ==> InGrid(terrain, q) && terrain[q.1][q.0] == terrain[v.1][v.0] + 1
    requires forall p: Pos :: InGrid(terrain, p) ==> terrain[p.1][p.0] <= 9
    ensures OnGrid(terrain, rest + pushed)
    ensures Weight(terrain, rest + pushed) < Weight(terrain, rest + [v])
  {
    WeightAppend(terrain, rest, [v]);
    assert [v][..0] == [];
    var h := terrain[v.1][v.0];
    assert Weight(terrain, [v]) == Pow5(9 - h);
    if pushed != [] {
      assert pushed[0] in pushed && terrain[pushed[0].1][pushed[0].0] <= 9;
      WeightLevel(terrain, pushed, h + 1);
      assert Pow5(9 - h) == 5 * Pow5(9 - (h + 1));
      FewerWeighLess(|pushed|, Pow5(9 - (h + 1)));
    } else {
      assert rest + pushed == rest;
    }
    assert OnGrid(terrain, rest + pushed);
    WeightAppend(terrain, rest, pushed);
  }

  /** Every cell visited during the search from `start` is reached by a trail from it. */
  ghost predicate AllReached(terrain: seq<seq<nat>>, cells: seq<seq<Cell>>, start: Pos)
  {
    forall p :: Visited(cells, p) ==> Reaches(terrain, start, p)
  }

  /** Every step out of a visited cell leads to a visited cell or to one still on the stack. */
  ghost predicate Closed(terrain: seq<seq<nat>>, cells: seq<seq<Cell>>, stack: seq<Pos>)
  {
    forall p, q :: Visited(cells, p) && Step(terrain, p, q) ==> Visited(cells, q) || q in stack
  }

  /** Every visited height-9 cell is a recorded peak. */
  ghost predicate PeaksRecorded(terrain: seq<seq<nat>>, cells: seq<seq<Cell>>, peaks: set<Pos>)
  {
    forall p: Pos :: Visited(cells, p) && InGrid(terrain, p) && terrain[p.1][p.0] == 9 ==> p in peaks
  }

  /** Each of `peaks` is a height-9 cell a trail from `start` reaches. */
  ghost predicate PeaksReached(terrain: seq<seq<nat>>, start: Pos, peaks: set<Pos>)
  {
    forall p :: p in peaks ==> Reaches(terrain, start, p) && InGrid(terrain, p) && terrain[p.1][p.0] == 9
  }

  /** Every height-9 cell a trail from `start` reaches is one of `peaks`. */
  ghost predicate AllPeaksRecorded(terrain: seq<seq<nat>>, start: Pos, peaks: set<Pos>)
  {
    forall p: Pos {:trigger Reaches(terrain, start, p)} :: Reaches(terrain, start, p) && InGrid(terrain, p) && terrain[p.1][p.0] == 9 ==> p in peaks
  }

  lemma MorePeaksRecorded(terrain: seq<seq<nat>>, start: Pos, peaks: set<Pos>, more: set<Pos>)
    requires AllPeaksRecorded(terrain, start, peaks) && peaks <= more
    ensures AllPeaksRecorded(terrain, start, more)
  {
  }

  /** No cell is visited. */
  ghost predicate NoneVisited(cells: seq<seq<Cell>>)
  {
    forall p: Pos :: !Visited(cells, p)
  }

  /** Grids of the same shape and heights have the same `Heights`. */
  lemma SameHeights(a: seq<seq<Cell>>, b: seq<seq<Cell>>)
    requires |a| == |b| && forall y :: 0 <= y < |a| ==> |a[y]| == |b[y]|
    requires forall y, x :: 0 <= y < |a| && 0 <= x < |a[y]| ==> a[y][x].height == b[y][x].height
    ensures Heights(a) == Heights(b)
  {
    assert forall y :: 0 <= y < |a| ==> Heights(a)[y] == Heights(b)[y];
  }

  /** A rectangular grid of heights 0..9 in which every trailhead of `heads` lies. */
  ghost predicate GridOk(cells: seq<seq<Cell>>, width: nat, height: nat, heads: seq<(Pos, nat)>)
  {
    && Rectangular(cells, width, height)
    && (forall y, x :: 0 <= y < height && 0 <= x < width ==> cells[y][x].height <= 9)
    && (forall t :: t in heads ==> InGrid(cells, t.0))
  }

  /** Marking (x, y) visited keeps the heights and adds exactly that cell to the visited ones. */
  lemma VisitOne(before: seq<seq<Cell>>, cells: seq<seq<Cell>>, x: nat, y: nat, width: nat, height: nat, heads: seq<(Pos, nat)>)
    requires InGrid(before, (x, y)) && GridOk(before, width, height, heads)
    requires cells == before[y := before[y][x := Visit(before[y][x])]]
    ensures Heights(cells) == Heights(before)
    ensures GridOk(cells, width, height, heads)
    ensures cells[y][x].height == before[y][x].height
    ensures forall p :: Visited(cells, p) <==> Visited(before, p) || p == (x, y)
  {
    SameHeights(cells, before);
  }

  /** Up to four entries one level higher weigh less than the one they replace. */
  lemma {:induction false} FewerWeighLess(n: nat, w: nat)
    requires n <= 4
    ensures n * w <= 4 * w
    decreases n
  {
    if n > 0 {
      FewerWeighLess(n - 1, w);
      assert n * w == (n - 1) * w + w;
    }
  }

  /**
   * One pop of the search keeps its invariants: the popped cell `v` is now
   * visited, and either it is a peak and is recorded, or every unvisited step
   * out of it has been pushed.
   */
  lemma PopStep(terrain: seq<seq<nat>>, before: seq<seq<Cell>>, cells: seq<seq<Cell>>, rest: seq<Pos>,
                v: Pos, pushed: seq<Pos>, peaks0: set<Pos>, peaks1: set<Pos>, start: Pos)
    requires forall p: Pos :: InGrid(terrain, p) ==> terrain[p.1][p.0] <= 9
    requires InGrid(terrain, v) && Reaches(terrain, start, v)
    requires forall p :: Visited(cells, p) <==> Visited(before, p) || p == v
    requires AllReached(terrain, before, start) && Closed(terrain, before, rest + [v]) && PeaksRecorded(terrain, before, peaks0)
    requires terrain[v.1][v.0] == 9 ==> peaks1 == peaks0 + {v} && pushed == []
    requires terrain[v.1][v.0] != 9 ==> peaks1 == peaks0 && forall q :: Step(terrain, v, q) && !Visited(cells, q) ==> q in pushed
    ensures AllReached(terrain, cells, start) && Closed(terrain, cells, rest + pushed) && PeaksRecorded(terrain, cells, peaks1)
  {
    forall p, q | Visited(cells, p) && Step(terrain, p, q)
      ensures Visited(cells, q) || q in rest + pushed
    {
      if p != v && !Visited(cells, q) {
        assert q in rest + [v];
        assert q != v;
      }
    }
  }

  /** Reading `ch` as a decimal digit. */
  function DigitValue(ch: char): (d: nat)
    requires '0' <= ch <= '9'
    ensures d <= 9
  {
    (ch - '0') as nat
  }

  /** The trailheads of row `y` among its first `n` cells, left to right. */
  function RowHeads(row: seq<Cell>, y: nat, n: nat): seq<(Pos, nat)>
    requires n <= |row|
  {
    if n == 0 then []
    else RowHeads(row, y, n - 1) + (if row[n - 1].height == 0 then [((n - 1, y), 0)] else [])
  }

  /** Row `y`'s trailheads are its height-0 cells, left to right. */
  lemma {:induction false} RowHeadsMembers(row: seq<Cell>, y: nat, n: nat)
    requires n <= |row|
    ensures forall t :: t in RowHeads(row, y, n) <==> t.0.1 == y && t.0.0 < n && row[t.0.0].height == 0 && t.1 == 0
    ensures forall i :: 0 <= i < |RowHeads(row, y, n)| ==> RowHeads(row, y, n)[i].0.0 < n && RowHeads(row, y, n)[i].0.1 == y
    ensures forall i, j :: 0 <= i < j < |RowHeads(row, y, n)| ==> RowHeads(row, y, n)[i].0.0 < RowHeads(row, y, n)[j].0.0
    decreases n
  {
    if n > 0 {
      RowHeadsMembers(row, y, n - 1);
    }
  }

  lemma {:induction false} RowHeadsPrefix(row: seq<Cell>, more: seq<Cell>, y: nat, n: nat)
    requires n <= |row|
    ensures RowHeads(row + more, y, n) == RowHeads(row, y, n)
    decreases n
  {
    if n > 0 {
      RowHeadsPrefix(row, more, y, n - 1);
    }
  }

  /**
   * The inner loop of `TopographicMap::new` for row `y`: one unvisited cell
   * per digit, and each height-0 cell pushed onto the trailheads as it is met.
   */
  method ParseRow(line: string, y: nat, headsIn: seq<(Pos, nat)>) returns (row: seq<Cell>, heads: seq<(Pos, nat)>)
    requires forall x :: 0 <= x < |line| ==> '0' <= line[x] <= '9'
    ensures |row| == |line|
    ensures forall i :: 0 <= i < |line| ==> row[i] == Cell(DigitValue(line[i]), false)
    ensures heads == headsIn + RowHeads(row, y, |row|)
  {
    row := [];
    heads := headsIn;
    var x := 0;
    while x < |line|
      invariant x <= |line| && |row| == x
      invariant forall i :: 0 <= i < x ==> row[i] == Cell(DigitValue(line[i]), false)
      invariant heads == headsIn + RowHeads(row, y, x)
    {
      var cell := Cell(DigitValue(line[x]), false);
      RowHeadsPrefix(row, [cell], y, x);
      row := row + [cell];
      if cell.height == 0 {
        heads := heads + [((x, y), 0)];
      }
      x := x + 1;
    }
  }

  /** The trailheads of the first `k` rows, in row-major order. */
  function Heads(cells: seq<seq<Cell>>, k: nat): seq<(Pos, nat)>
    requires k <= |cells|
  {
    if k == 0 then []
    else Heads(cells, k - 1) + RowHeads(cells[k - 1], k - 1, |cells[k - 1]|)
  }

  /** The trailheads are exactly the height-0 cells, each with score 0. */
  lemma {:induction false} HeadsMembers(cells: seq<seq<Cell>>, k: nat)
    requires k <= |cells|
    ensures forall t :: t in Heads(cells, k) <==> InGrid(cells, t.0) && t.0.1 < k && cells[t.0.1][t.0.0].height == 0 && t.1 == 0
    ensures forall i :: 0 <= i < |Heads(cells, k)| ==> Heads(cells, k)[i].0.1 < k
    decreases k
  {
    if k > 0 {
      HeadsMembers(cells, k - 1);
      RowHeadsMembers(cells[k - 1], k - 1, |cells[k - 1]|);
    }
  }

  lemma {:induction false} HeadsPrefix(cells: seq<seq<Cell>>, more: seq<seq<Cell>>, k: nat)
    requires k <= |cells|
    ensures Heads(cells + more, k) == Heads(cells, k)
    decreases k
  {
    if k > 0 {
      HeadsPrefix(cells, more, k - 1);
      assert (cells + more)[k - 1] == cells[k - 1];
    }
  }

  /** p comes strictly before q in row-major order. */
  predicate Earlier(p: Pos, q: Pos)
  {
    p.1 < q.1 || (p.1 == q.1 && p.0 < q.0)
  }

  /** The trailheads come in strict row-major order. */
  lemma {:induction false} HeadsOrdered(cells: seq<seq<Cell>>, k: nat)
    requires k <= |cells|
    ensures forall i, j :: 0 <= i < j < |Heads(cells, k)| ==> Earlier(Heads(cells, k)[i].0, Heads(cells, k)[j].0)
    decreases k
  {
    if k > 0 {
      HeadsOrdered(cells, k - 1);
      HeadsMembers(cells, k - 1);
      RowHeadsMembers(cells[k - 1], k - 1, |cells[k - 1]|);
      var a, b := Heads(cells, k - 1), RowHeads(cells[k - 1], k - 1, |cells[k - 1]|);
      var r := a + b;
      assert r == Heads(cells, k);
      forall i, j | 0 <= i < j < |r|
        ensures Earlier(r[i].0, r[j].0)
      {
        if j < |a| {
          assert r[i] == a[i] && r[j] == a[j];
        } else if i >= |a| {
          assert r[i] == b[i - |a|] && r[j] == b[j - |a|];
        } else {
          assert r[i] == a[i] && r[j] == b[j - |a|];
        }
      }
    }
  }

  /** The invariant of the `explore` loop from `start` over the stack `toVisit`. */
  ghost predicate Searching(cells: seq<seq<Cell>>, width: nat, height: nat, heads: seq<(Pos, nat)>, peaks: set<Pos>,
                            terrain: seq<seq<nat>>, start: Pos, untouched: bool, cells0: seq<seq<Cell>>,
                            peaks0: set<Pos>, toVisit: seq<Pos>, score: nat)
  {
    && GridOk(cells, width, height, heads) && Heights(cells) == terrain
    && OnGrid(terrain, toVisit)
    && (forall q :: q in toVisit ==> Reaches(terrain, start, q))
    && (forall p: Pos :: Visited(cells0, p) ==> Visited(cells, p))
    && (start in toVisit || Visited(cells, start))
    && peaks0 <= peaks
    && PeaksReached(terrain, start, peaks - peaks0)
    && score >= |peaks - peaks0|
    && (untouched ==>
      AllReached(terrain, cells, start) && Closed(terrain, cells, toVisit) && PeaksRecorded(terrain, cells, peaks))
  }

  /** Popping a height-9 cell: it is visited, recorded and scored; nothing is pushed. */
  lemma PeakPopKeeps(cells: seq<seq<Cell>>, width: nat, height: nat, heads: seq<(Pos, nat)>, peaks: set<Pos>,
                     terrain: seq<seq<nat>>, start: Pos, untouched: bool, cells0: seq<seq<Cell>>,
                     peaks0: set<Pos>, toVisit: seq<Pos>, score: nat)
    requires toVisit != [] && Searching(cells, width, height, heads, peaks, terrain, start, untouched, cells0, peaks0, toVisit, score)
    requires var v := toVisit[|toVisit| - 1]; cells[v.1][v.0].height == 9
    ensures var v := toVisit[|toVisit| - 1];
      var after := cells[v.1 := cells[v.1][v.0 := Visit(cells[v.1][v.0])]];
      var rest := toVisit[..|toVisit| - 1];
      && Searching(after, width, height, heads, peaks + {v}, terrain, start, untouched, cells0, peaks0, rest, score + 1)
      && Weight(terrain, rest) < Weight(terrain, toVisit)
  {
    var v := toVisit[|toVisit| - 1];
    var (x, y) := v;
    var after := cells[y := cells[y][x := Visit(cells[y][x])]];
    var rest := toVisit[..|toVisit| - 1];
    assert toVisit == rest + [v];
    assert v in toVisit;
    assert forall q :: q in rest ==> q in toVisit;
    VisitOne(cells, after, x, y, width, height, heads);
    CardinalityBound(peaks + {v} - peaks0, peaks - peaks0, v);
    PopWeight(terrain, rest, v, []);
    assert rest + [] == rest;
    if untouched {
      PopStep(terrain, cells, after, rest, v, [], peaks, peaks + {v}, start);
    }
  }

  /** Popping a cell below height 9: it is visited and its viable neighbours are pushed. */
  lemma ExpandPopKeeps(cells: seq<seq<Cell>>, width: nat, height: nat, heads: seq<(Pos, nat)>, peaks: set<Pos>,
                       terrain: seq<seq<nat>>, start: Pos, untouched: bool, cells0: seq<seq<Cell>>,
                       peaks0: set<Pos>, toVisit: seq<Pos>, score: nat, pushed: seq<Pos>)
    requires toVisit != [] && Searching(cells, width, height, heads, peaks, terrain, start, untouched, cells0, peaks0, toVisit, score)
    requires var v := toVisit[|toVisit| - 1]; cells[v.1][v.0].height != 9
    requires var v := toVisit[|toVisit| - 1];
      var after := cells[v.1 := cells[v.1][v.0 := Visit(cells[v.1][v.0])]];
      Rectangular(after, width, height) && v.0 < width && v.1 < height &&
      pushed == ViableNeighbours(after, width, height, v.0, v.1)
    ensures var v := toVisit[|toVisit| - 1];
      var after := cells[v.1 := cells[v.1][v.0 := Visit(cells[v.1][v.0])]];
      var rest := toVisit[..|toVisit| - 1];
      && Searching(after, width, height, heads, peaks, terrain, start, untouched, cells0, peaks0, rest + pushed, score)
      && Weight(terrain, rest + pushed) < Weight(terrain, toVisit)
  {
    var v := toVisit[|toVisit| - 1];
    var (x, y) := v;
    var after := cells[y := cells[y][x := Visit(cells[y][x])]];
    var rest := toVisit[..|toVisit| - 1];
    assert toVisit == rest + [v];
    assert v in toVisit;
    assert forall q :: q in rest ==> q in toVisit;
    VisitOne(cells, after, x, y, width, height, heads);
    ViableNeighboursExact(after, width, height, x, y);
    forall q | q in pushed
      ensures Reaches(terrain, start, q)
    {
      ReachesStep(terrain, start, v, q);
    }
    PopWeight(terrain, rest, v, pushed);
    if untouched {
      PopStep(terrain, cells, after, rest, v, pushed, peaks, peaks, start);
    }
  }

  /** The height of `q`, or 0 off the grid. */
  ghost function Level(terrain: seq<seq<nat>>, q: Pos): nat
  {
    if InGrid(terrain, q) then terrain[q.1][q.0] else 0
  }

  /** The visited height-9 cells. */
  ghost function VisitedPeaks(cells: seq<seq<Cell>>): set<Pos>
  {
    set y: nat, x: nat | y < |cells| && x < |cells[y]| && cells[y][x].visited && cells[y][x].height == 9 :: (x, y)
  }

  lemma VisitedPeaksMembers(cells: seq<seq<Cell>>)
    ensures forall p: Pos :: p in VisitedPeaks(cells) <==> Visited(cells, p) && cells[p.1][p.0].height == 9
  {
    forall p: Pos | Visited(cells, p) && cells[p.1][p.0].height == 9
      ensures p in VisitedPeaks(cells)
    {
      var (x, y) := p;
      assert (x, y) in VisitedPeaks(cells);
    }
  }

  /** The height-9 cells a trail from `start` reaches: what `explore` is meant to count. */
  ghost function ReachablePeaks(terrain: seq<seq<nat>>, start: Pos): set<Pos>
  {
    set y: nat, x: nat | y < |terrain| && x < |terrain[y]| && terrain[y][x] == 9 && Reaches(terrain, start, (x, y)) :: (x, y)
  }

  lemma ReachablePeaksMembers(terrain: seq<seq<nat>>, start: Pos)
    ensures forall p: Pos :: p in ReachablePeaks(terrain, start) <==> InGrid(terrain, p) && terrain[p.1][p.0] == 9 && Reaches(terrain, start, p)
  {
    forall p: Pos | InGrid(terrain, p) && terrain[p.1][p.0] == 9 && Reaches(terrain, start, p)
      ensures p in ReachablePeaks(terrain, start)
    {
      var (x, y) := p;
      assert (x, y) in ReachablePeaks(terrain, start);
    }
  }

  /**
   * The stack discipline of `explore` on a grid that started with nothing
   * visited: heights never fall from the bottom of the stack to its top, no
   * cell is on it twice and none of its cells is visited yet. So every pop
   * visits a new cell, and the score is the number of visited peaks.
   */
  ghost predicate Exact(terrain: seq<seq<nat>>, cells: seq<seq<Cell>>, toVisit: seq<Pos>, score: nat)
  {
    && (forall i, j :: 0 <= i < j < |toVisit| ==> toVisit[i] != toVisit[j] && Level(terrain, toVisit[i]) <= Level(terrain, toVisit[j]))
    && (forall q :: q in toVisit ==> !Visited(cells, q))
    && score == |VisitedPeaks(cells)|
  }

  /** The stack discipline holds at the start of a search on a grid with nothing visited. */
  lemma ExactStart(terrain: seq<seq<nat>>, cells: seq<seq<Cell>>, start: Pos)
    requires NoneVisited(cells)
    ensures Exact(terrain, cells, [start], 0)
  {
    VisitedPeaksMembers(cells);
    assert VisitedPeaks(cells) == {};
  }

  /** The entries below the top of the stack are not the top and stay unvisited once it is visited. */
  lemma RestUnvisited(terrain: seq<seq<nat>>, before: seq<seq<Cell>>, after: seq<seq<Cell>>, rest: seq<Pos>, v: Pos, score: nat)
    requires Exact(terrain, before, rest + [v], score)
    requires forall p :: Visited(after, p) <==> Visited(before, p) || p == v
    ensures !Visited(before, v)
    ensures forall i :: 0 <= i < |rest| ==> Level(terrain, rest[i]) <= Level(terrain, v)
    ensures forall q :: q in rest ==> !Visited(after, q)
  {
    var s := rest + [v];
    assert s[|rest|] == v;
    assert v in s;
    forall i | 0 <= i < |rest|
      ensures Level(terrain, rest[i]) <= Level(terrain, v) && rest[i] != v && !Visited(before, rest[i])
    {
      assert s[i] == rest[i] && s[i] in s;
    }
  }

  /** Popping a peak visits a new height-9 cell: the score counts it. */
  lemma PeakPopExact(terrain: seq<seq<nat>>, before: seq<seq<Cell>>, after: seq<seq<Cell>>, rest: seq<Pos>, v: Pos, score: nat)
    requires Exact(terrain, before, rest + [v], score)
    requires Heights(before) == terrain && Heights(after) == terrain
    requires forall p :: Visited(after, p) <==> Visited(before, p) || p == v
    requires InGrid(terrain, v) && terrain[v.1][v.0] == 9
    ensures Exact(terrain, after, rest, score + 1)
  {
    RestUnvisited(terrain, before, after, rest, v, score);
    VisitedPeaksMembers(before);
    VisitedPeaksMembers(after);
    assert VisitedPeaks(after) == VisitedPeaks(before) + {v};
    forall i, j | 0 <= i < j < |rest|
      ensures rest[i] != rest[j] && Level(terrain, rest[i]) <= Level(terrain, rest[j])
    {
      assert (rest + [v])[i] == rest[i] && (rest + [v])[j] == rest[j];
    }
  }

  /**
   * Popping a cell below height 9 visits a new cell that is not a peak, and
   * pushes distinct unvisited cells one level higher than every cell below
   * them: the discipline holds and the score stays.
   */
  lemma ExpandPopExact(terrain: seq<seq<nat>>, before: seq<seq<Cell>>, after: seq<seq<Cell>>, rest: seq<Pos>, v: Pos,
                       pushed: seq<Pos>, score: nat)
    requires Exact(terrain, before, rest + [v], score)
    requires Heights(before) == terrain && Heights(after) == terrain
    requires forall p :: Visited(after, p) <==> Visited(before, p) || p == v
    requires InGrid(terrain, v) && terrain[v.1][v.0] != 9
    requires forall q :: q in pushed ==> Step(terrain, v, q) && !Visited(after, q)
    requires Distinct(pushed)
    ensures Exact(terrain, after, rest + pushed, score)
  {
    RestUnvisited(terrain, before, after, rest, v, score);
    VisitedPeaksMembers(before);
    VisitedPeaksMembers(after);
    assert VisitedPeaks(after) == VisitedPeaks(before);
    var s := rest + pushed;
    forall i, j | 0 <= i < j < |s|
      ensures s[i] != s[j] && Level(terrain, s[i]) <= Level(terrain, s[j])
    {
      if j < |rest| {
        assert (rest + [v])[i] == rest[i] && (rest + [v])[j] == rest[j];
      } else {
        assert s[j] == pushed[j - |rest|] && s[j] in pushed;
        assert Level(terrain, s[j]) == Level(terrain, v) + 1;
        if i >= |rest| {
          assert s[i] == pushed[i - |rest|] && s[i] in pushed;
        }
      }
    }
  }

  /** `PeakPopExact` for the pop that `explore` performs on `cells`. */
  lemma PeakPopCounts(cells: seq<seq<Cell>>, width: nat, height: nat, heads: seq<(Pos, nat)>,
                      terrain: seq<seq<nat>>, toVisit: seq<Pos>, score: nat)
    requires toVisit != [] && GridOk(cells, width, height, heads) && Heights(cells) == terrain
    requires OnGrid(terrain, toVisit) && Exact(terrain, cells, toVisit, score)
    requires var v := toVisit[|toVisit| - 1]; cells[v.1][v.0].height == 9
    ensures var v := toVisit[|toVisit| - 1];
      var after := cells[v.1 := cells[v.1][v.0 := Visit(cells[v.1][v.0])]];
      Exact(terrain, after, toVisit[..|toVisit| - 1], score + 1)
  {
    var v := toVisit[|toVisit| - 1];
    var (x, y) := v;
    var after := cells[y := cells[y][x := Visit(cells[y][x])]];
    var rest := toVisit[..|toVisit| - 1];
    assert toVisit == rest + [v] && v in toVisit;
    VisitOne(cells, after, x, y, width, height, heads);
    PeakPopExact(terrain, cells, after, rest, v, score);
  }

  /** `ExpandPopExact` for the pop that `explore` performs on `cells`. */
  lemma ExpandPopCounts(cells: seq<seq<Cell>>, width: nat, height: nat, heads: seq<(Pos, nat)>,
                        terrain: seq<seq<nat>>, toVisit: seq<Pos>, score: nat, pushed: seq<Pos>)
    requires toVisit != [] && GridOk(cells, width, height, heads) && Heights(cells) == terrain
    requires OnGrid(terrain, toVisit) && Exact(terrain, cells, toVisit, score)
    requires var v := toVisit[|toVisit| - 1]; cells[v.1][v.0].height != 9
    requires var v := toVisit[|toVisit| - 1];
      var after := cells[v.1 := cells[v.1][v.0 := Visit(cells[v.1][v.0])]];
      Rectangular(after, width, height) && v.0 < width && v.1 < height &&
      pushed == ViableNeighbours(after, width, height, v.0, v.1)
    ensures var v := toVisit[|toVisit| - 1];
      var after := cells[v.1 := cells[v.1][v.0 := Visit(cells[v.1][v.0])]];
      Exact(terrain, after, toVisit[..|toVisit| - 1] + pushed, score)
  {
    var v := toVisit[|toVisit| - 1];
    var (x, y) := v;
    var after := cells[y := cells[y][x := Visit(cells[y][x])]];
    var rest := toVisit[..|toVisit| - 1];
    assert toVisit == rest + [v] && v in toVisit;
    VisitOne(cells, after, x, y, width, height, heads);
    ViableNeighboursExact(after, width, height, x, y);
    ViableNeighboursDistinct(after, width, height, x, y);
    ExpandPopExact(terrain, cells, after, rest, v, pushed, score);
  }

  /** When the search has closed over every reachable cell, the visited peaks are the reachable ones. */
  lemma VisitedPeaksReachable(terrain: seq<seq<nat>>, cells: seq<seq<Cell>>, start: Pos)
    requires Heights(cells) == terrain
    requires AllReached(terrain, cells, start)
    requires forall q :: Reaches(terrain, start, q) ==> Visited(cells, q)
    ensures VisitedPeaks(cells) == ReachablePeaks(terrain, start)
  {
    VisitedPeaksMembers(cells);
    ReachablePeaksMembers(terrain, start);
  }

  /** The sum over `heads` of the number of peaks a trail from each reaches. */
  ghost function TotalScore(terrain: seq<seq<nat>>, heads: seq<(Pos, nat)>): nat
  {
    if heads == [] then 0
    else TotalScore(terrain, heads[..|heads| - 1]) + |ReachablePeaks(terrain, heads[|heads| - 1].0)|
  }

  /** The first `i + 1` trailheads are the first `i` and the next one. */
  lemma PrefixGrows(heads: seq<(Pos, nat)>, i: nat)
    requires i < |heads|
    ensures forall t :: t in heads[..i + 1] ==> t in heads[..i] || t == heads[i]
  {
    forall t | t in heads[..i + 1]
      ensures t in heads[..i] || t == heads[i]
    {
      var k :| 0 <= k < i + 1 && heads[..i + 1][k] == t;
      if k < i {
        assert heads[..i][k] == t;
      }
    }
  }

  /** One more trailhead adds its own score to the total. */
  lemma TotalScoreStep(terrain: seq<seq<nat>>, heads: seq<(Pos, nat)>, i: nat)
    requires i < |heads|
    ensures TotalScore(terrain, heads[..i + 1]) == TotalScore(terrain, heads[..i]) + |ReachablePeaks(terrain, heads[i].0)|
  {
    assert heads[..i + 1][..i] == heads[..i];
  }

  class TopographicMap {
    var cells: seq<seq<Cell>>
    var width: nat
    var height: nat
    var trailheads: seq<(Pos, nat)>
    var reachablePeaks: set<Pos>

    /** A rectangular grid of heights 0..9 whose trailheads lie inside it. */
    ghost predicate Valid()
      reads this
    {
      GridOk(cells, width, height, trailheads)
    }

    /**
     * `TopographicMap::new`: one cell per digit, unvisited; the trailheads
     * are the height-0 cells in row-major order; no peak is recorded yet.
     */
    constructor(lines: seq<string>)
      requires |lines| >= 1
      requires forall y :: 0 <= y < |lines| ==> |lines[y]| == |lines[0]|
      requires forall y, x :: 0 <= y < |lines| && 0 <= x < |lines[y]| ==> '0' <= lines[y][x] <= '9'
      ensures Valid()
      ensures height == |lines| && width == |lines[0]|
      ensures forall y, x :: 0 <= y < height && 0 <= x < width ==> cells[y][x] == Cell(DigitValue(lines[y][x]), false)
      ensures trailheads == Heads(cells, height)
      ensures reachablePeaks == {}
    {
      var grid: seq<seq<Cell>> := [];
      var heads: seq<(Pos, nat)> := [];
      var y := 0;
      while y < |lines|
        invariant y <= |lines| && |grid| == y
        invariant forall j :: 0 <= j < y ==> |grid[j]| == |lines[j]|
        invariant forall j, x :: 0 <= j < y && 0 <= x < |lines[j]| ==> grid[j][x] == Cell(DigitValue(lines[j][x]), false)
        invariant heads == Heads(grid, y)
      {
        var row;
        row, heads := ParseRow(lines[y], y, heads);
        HeadsPrefix(grid, [row], y);
        grid := grid + [row];
        y := y + 1;
      }
      HeadsMembers(grid, |lines|);
      cells := grid;
      width := |lines[0]|;
      height := |lines|;
      trailheads := heads;
      reachablePeaks := {};
    }

    /** `get_viable_neighbours(x, y)`. */
    method GetViableNeighbours(x: nat, y: nat) returns (neighbours: seq<Pos>)
      requires Rectangular(cells, width, height) && x < width && y < height
      ensures neighbours == ViableNeighbours(cells, width, height, x, y)
    {
      var currentHeight := cells[y][x].height;
      neighbours := [];
      for k := 0 to |Directions|
        invariant neighbours == ViableUpTo(cells, width, height, x, y, k)
      {
        assert ViableUpTo(cells, width, height, x, y, k + 1) == neighbours + Viable(cells, width, height, x, y, Directions[k]);
        var (dx, dy) := Directions[k];
        var newX, newY := x + dx, y + dy;
        if newX < 0 || newX >= width {
          continue;
        }
        if newY < 0 || newY >= height {
          continue;
        }
        var next := cells[newY][newX];
        if next.height != currentHeight + 1 {
          continue;
        }
        if next.visited {
          continue;
        }
        neighbours := neighbours + [(newX, newY)];
      }
    }

    /** `reset`: every visited flag is cleared; the heights stay. */
    method Reset()
      requires Valid()
      modifies this`cells
      ensures Valid()
      ensures Heights(cells) == Heights(old(cells))
      ensures NoneVisited(cells)
    {
      var y := 0;
      while y < height
        invariant y <= height && Valid()
        invariant forall j, x :: 0 <= j < height && 0 <= x < width ==> cells[j][x].height == old(cells)[j][x].height
        invariant forall p: Pos :: p.1 < y ==> !Visited(cells, p)
      {
        var x := 0;
        while x < width
          invariant x <= width && Valid()
          invariant forall j, i :: 0 <= j < height && 0 <= i < width ==> cells[j][i].height == old(cells)[j][i].height
          invariant forall p: Pos :: p.1 < y || (p.1 == y && p.0 < x) ==> !Visited(cells, p)
        {
          cells := cells[y := cells[y][x := Unvisit(cells[y][x])]];
          x := x + 1;
        }
        y := y + 1;
      }
      SameHeights(cells, old(cells));
    }

    /**
     * One turn of the `explore` loop: the top of the stack is popped and
     * marked visited; a height-9 cell is recorded and scored, any other has
     * its viable neighbours pushed. The loop invariant is kept and the stack
     * gets lighter.
     */
    method ExploreStep(toVisit: seq<Pos>, score: nat, ghost terrain: seq<seq<nat>>, ghost start: Pos,
                       ghost untouched: bool, ghost cells0: seq<seq<Cell>>, ghost peaks0: set<Pos>)
      returns (next: seq<Pos>, newScore: nat)
      requires toVisit != []
      requires Searching(cells, width, height, trailheads, reachablePeaks, terrain, start, untouched, cells0, peaks0, toVisit, score)
      requires untouched ==> Exact(terrain, cells, toVisit, score)
      modifies this`cells, this`reachablePeaks
      ensures Searching(cells, width, height, trailheads, reachablePeaks, terrain, start, untouched, cells0, peaks0, next, newScore)
      ensures untouched ==> Exact(terrain, cells, next, newScore)
      ensures Weight(terrain, next) < Weight(terrain, toVisit)
    {
      var (x, y) := toVisit[|toVisit| - 1];
      var rest := toVisit[..|toVisit| - 1];
      ghost var before := cells;
      cells := cells[y := cells[y][x := Visit(cells[y][x])]];
      if cells[y][x].height == 9 {
        PeakPopKeeps(before, width, height, trailheads, reachablePeaks, terrain, start, untouched, cells0, peaks0, toVisit, score);
        if untouched {
          PeakPopCounts(before, width, height, trailheads, terrain, toVisit, score);
        }
        reachablePeaks := reachablePeaks + {(x, y)};
        return rest, score + 1;
      }
      var neighbours := GetViableNeighbours(x, y);
      ExpandPopKeeps(before, width, height, trailheads, reachablePeaks, terrain, start, untouched, cells0, peaks0, toVisit, score, neighbours);
      if untouched {
        ExpandPopCounts(before, width, height, trailheads, terrain, toVisit, score, neighbours);
      }
      return rest + neighbours, score;
    }

    /**
     * `explore(x0, y0)`: pop a cell, mark it visited; a height-9 cell adds one
     * to the score and joins the reachable peaks, any other pushes its viable
     * neighbours. Heights never change and visited flags only get set; every
     * newly recorded peak is a height-9 cell a trail from (x0, y0) reaches, and
     * the score is at least their number. Searching a grid with nothing
     * visited records every peak a trail from (x0, y0) reaches.
     */
    method Explore(x0: nat, y0: nat) returns (score: nat)
      requires Valid() && x0 < width && y0 < height
      modifies this`cells, this`reachablePeaks
      ensures Valid()
      ensures Heights(cells) == Heights(old(cells))
      ensures forall p: Pos :: Visited(old(cells), p) ==> Visited(cells, p)
      ensures Visited(cells, (x0, y0))
      ensures old(reachablePeaks) <= reachablePeaks
      ensures PeaksReached(Heights(cells), (x0, y0), reachablePeaks - old(reachablePeaks))
      ensures score >= |reachablePeaks - old(reachablePeaks)|
      ensures NoneVisited(old(cells)) ==> AllPeaksRecorded(Heights(cells), (x0, y0), reachablePeaks)
      ensures NoneVisited(old(cells)) ==> score == |ReachablePeaks(Heights(cells), (x0, y0))|
    {
      ghost var terrain := Heights(cells);
      ghost var start: Pos := (x0, y0);
      ghost var untouched := NoneVisited(cells);
      ReachesStart(terrain, start);
      assert Visited(cells, start) ==> !untouched;
      var toVisit: seq<Pos> := [(x0, y0)];
      score := 0;
      if untouched {
        ExactStart(terrain, cells, start);
      }
      while toVisit != []
        invariant Searching(cells, width, height, trailheads, reachablePeaks, terrain, start, untouched, old(cells), old(reachablePeaks), toVisit, score)
        invariant untouched ==> Exact(terrain, cells, toVisit, score)
        decreases Weight(terrain, toVisit)
      {
        toVisit, score := ExploreStep(toVisit, score, terrain, start, untouched, old(cells), old(reachablePeaks));
      }
      if untouched {
        ClosedHoldsReachable(terrain, cells, start);
        VisitedPeaksReachable(terrain, cells, start);
      }
    }

    /**
     * One iteration of the `explore_all` loop: reset the flags, then explore
     * from the trailhead. The score is the number of peaks a trail from it
     * reaches.
     */
    method ExploreHead(x: nat, y: nat) returns (score: nat)
      requires Valid() && x < width && y < height
      modifies this`cells, this`reachablePeaks
      ensures Valid()
      ensures Heights(cells) == Heights(old(cells))
      ensures old(reachablePeaks) <= reachablePeaks
      ensures AllPeaksRecorded(Heights(cells), (x, y), reachablePeaks)
      ensures score >= |reachablePeaks - old(reachablePeaks)|
      ensures score == |ReachablePeaks(Heights(cells), (x, y))|
    {
      Reset();
      score := Explore(x, y);
    }

    /**
     * `explore_all`: the trailheads are taken out of the map, and each is
     * searched after a `reset`; the scores are summed and the reachable peaks
     * accumulate across trailheads. The total is the sum, over the
     * trailheads, of the number of peaks a trail from each reaches, and every
     * such peak ends up recorded.
     */
    method ExploreAll() returns (totalScore: nat)
      requires Valid()
      modifies this`cells, this`reachablePeaks, this`trailheads
      ensures Valid() && trailheads == []
      ensures Heights(cells) == Heights(old(cells))
      ensures old(reachablePeaks) <= reachablePeaks
      ensures forall t :: t in old(trailheads) ==> AllPeaksRecorded(Heights(cells), t.0, reachablePeaks)
      ensures totalScore >= |reachablePeaks - old(reachablePeaks)|
      ensures totalScore == TotalScore(Heights(cells), old(trailheads))
    {
      var heads: seq<(Pos, nat)> := trailheads;
      trailheads := [];
      totalScore := 0;
      ghost var terrain := Heights(cells);
      for i := 0 to |heads|
        invariant Accumulated(heads, i, terrain, old(reachablePeaks), totalScore)
      {
        totalScore := ExploreNext(heads, i, terrain, old(reachablePeaks), totalScore);
      }
      assert heads[..|heads|] == heads;
    }

    /** What `explore_all` has gathered after the first `i` trailheads. */
    ghost predicate Accumulated(heads: seq<(Pos, nat)>, i: nat, terrain: seq<seq<nat>>, peaks0: set<Pos>, totalScore: nat)
      reads this
    {
      && Valid() && trailheads == [] && Heights(cells) == terrain && i <= |heads|
      && (forall t :: t in heads ==> t.0.0 < width && t.0.1 < height)
      && peaks0 <= reachablePeaks
      && (forall t :: t in heads[..i] ==> AllPeaksRecorded(terrain, t.0, reachablePeaks))
      && totalScore >= |reachablePeaks - peaks0|
      && totalScore == TotalScore(terrain, heads[..i])
    }

    /** One turn of the `explore_all` loop: the next trailhead's score is added to the total. */
    method ExploreNext(heads: seq<(Pos, nat)>, i: nat, ghost terrain: seq<seq<nat>>, ghost peaks0: set<Pos>, totalScore: nat)
      returns (newTotal: nat)
      requires i < |heads| && Accumulated(heads, i, terrain, peaks0, totalScore)
      modifies this`cells, this`reachablePeaks
      ensures Accumulated(heads, i + 1, terrain, peaks0, newTotal)
    {
      var head := heads[i].0;
      ghost var peaksBefore := reachablePeaks;
      var score := ExploreHead(head.0, head.1);
      newTotal := totalScore + score;
      GainsAdd(peaks0, peaksBefore, reachablePeaks);
      StillRecorded(terrain, heads[..i], peaksBefore, reachablePeaks);
      PrefixGrows(heads, i);
      TotalScoreStep(terrain, heads, i);
    }
  }

  /** Peaks recorded for earlier trailheads stay recorded as the set grows. */
  lemma StillRecorded(terrain: seq<seq<nat>>, starts: seq<(Pos, nat)>, peaks: set<Pos>, more: set<Pos>)
    requires forall t :: t in starts ==> AllPeaksRecorded(terrain, t.0, peaks)
    requires peaks <= more
    ensures forall t :: t in starts ==> AllPeaksRecorded(terrain, t.0, more)
  {
    forall t | t in starts
      ensures AllPeaksRecorded(terrain, t.0, more)
    {
      MorePeaksRecorded(terrain, t.0, peaks, more);
    }
  }

  /** The peaks gained over two calls are those of the first plus those of the second. */
  lemma GainsAdd(p0: set<Pos>, p1: set<Pos>, p2: set<Pos>)
    requires p0 <= p1 <= p2
    ensures |p2 - p0| == |p1 - p0| + |p2 - p1|
  {
    assert p2 - p0 == (p1 - p0) + (p2 - p1);
    assert (p1 - p0) * (p2 - p1) == {};
  }

  /** Adding one element to a set grows it by at most one. */
  lemma CardinalityBound(now: set<Pos>, before: set<Pos>, x: Pos)
    requires now <= before + {x}
    ensures |now| <= |before| + 1
  {
    var bigger := before + {x};
    assert |bigger| <= |before| + 1;
    SubsetCard(now, bigger);
  }

  lemma {:induction false} SubsetCard(a: set<Pos>, b: set<Pos>)
    requires a <= b
    ensures |a| <= |b|
    decreases b
  {
    if a != {} {
      var e :| e in a;
      SubsetCard(a - {e}, b - {e});
    }
  }
}
