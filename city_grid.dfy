/**
 * The antenna city of 2024/day_8: every pair of distinct antennas of one
 * frequency casts antinodes at the two points continuing the line through
 * them by the same distance, and with resonant harmonics at every grid point
 * of that line at whole multiples of their distance.
 */
module CityGrid {
  import opened Wrappers

  /** A grid position `Position(row, col)`. */
  type Pos = (nat, nat)

  /** A candidate point or a step between points, possibly off the grid. */
  type Point = (int, int)

  function Plus(q: Point, d: Point): Point
  {
    (q.0 + d.0, q.1 + d.1)
  }

  function Minus(q: Point, d: Point): Point
  {
    (q.0 - d.0, q.1 - d.1)
  }

  /** The vector from `a` to `b`. */
  function Delta(a: Pos, b: Pos): (d: Point)
    ensures d == (0, 0) <==> a == b
  {
    (b.0 - a.0, b.1 - a.1)
  }

  /** `is_in_bounds`: the point lies on the `height` by `width` grid. */
  predicate InBounds(q: Point, width: nat, height: nat)
  {
    0 <= q.0 < height && 0 <= q.1 < width
  }

  function ToPos(q: Point): Pos
    requires q.0 >= 0 && q.1 >= 0
  {
    (q.0 as nat, q.1 as nat)
  }

  function Elems(s: seq<Pos>): set<Pos>
  {
    set p | p in s
  }

  /** `None` for an empty list, as the `calculate_*` methods return it. */
  function NonEmpty(s: seq<Pos>): Option<seq<Pos>>
  {
    if s == [] then None else Some(s)
  }

  /** The in-bounds candidates, in their order, as grid positions. */
  function Keep(candidates: seq<Point>, width: nat, height: nat): (r: seq<Pos>)
    ensures |r| <= |candidates|
    ensures forall p: Pos :: p in r <==> (p.0, p.1) in candidates && p.0 < height && p.1 < width
    decreases |candidates|
  {
    if candidates == [] then []
    else
      var last := candidates[|candidates| - 1];
      var init := candidates[..|candidates| - 1];
      assert candidates == init + [last];
      Keep(init, width, height) + (if InBounds(last, width, height) then [ToPos(last)] else [])
  }

  /**
   * The antinodes of the pair `a`, `b`: of `a - d` and `b + d`, with `d` the
   * vector from `a` to `b`, exactly those on the grid.
   */
  function Antinodes(a: Pos, b: Pos, width: nat, height: nat): (r: seq<Pos>)
    ensures |r| <= 2
    ensures forall p: Pos :: p in r <==>
      p.0 < height && p.1 < width && ((p.0, p.1) == Minus(a, Delta(a, b)) || (p.0, p.1) == Plus(b, Delta(a, b)))
  {
    var d := Delta(a, b);
    Keep([Minus(a, d), Plus(b, d)], width, height)
  }

  function Clip(x: int): nat
  {
    if x < 0 then 0 else x
  }

  /** How many more steps `d` from `q` can stay on the grid along the axis `d` moves on. */
  function Span(q: Point, d: Point, width: nat, height: nat): nat
  {
    if d.0 > 0 then Clip(height - q.0)
    else if d.0 < 0 then Clip(q.0 + 1)
    else if d.1 > 0 then Clip(width - q.1)
    else Clip(q.1 + 1)
  }

  /** A step of a non-zero vector from an in-bounds point leaves less room. */
  lemma SpanShrinks(q: Point, d: Point, width: nat, height: nat)
    requires d != (0, 0) && InBounds(q, width, height)
    ensures Span(Plus(q, d), d, width, height) < Span(q, d, width, height)
  {
  }

  /** The point `k` steps of `d` away from `q`. */
  function At(q: Point, d: Point, k: nat): Point
  {
    (q.0 + k * d.0, q.1 + k * d.1)
  }

  lemma AtNext(q: Point, d: Point, k: nat)
    ensures At(Plus(q, d), d, k) == At(q, d, k + 1)
  {
    assert k * d.0 + d.0 == (k + 1) * d.0;
    assert k * d.1 + d.1 == (k + 1) * d.1;
  }

  /** The points `q`, `q + d`, `q + 2d`, … up to the first one off the grid. */
  function Ray(q: Point, d: Point, width: nat, height: nat): seq<Pos>
    requires d != (0, 0)
    decreases Span(q, d, width, height)
  {
    if InBounds(q, width, height) then
      SpanShrinks(q, d, width, height);
      [ToPos(q)] + Ray(Plus(q, d), d, width, height)
    else []
  }

  /**
   * The k-th point of a ray is `q + k·d` and on the grid, and `q + |r|·d`,
   * the point after the last, is off the grid.
   */
  lemma {:induction false} RayPoints(q: Point, d: Point, width: nat, height: nat)
    requires d != (0, 0)
    ensures var r := Ray(q, d, width, height);
      && (forall k :: 0 <= k < |r| ==> (r[k].0, r[k].1) == At(q, d, k) && r[k].0 < height && r[k].1 < width)
      && !InBounds(At(q, d, |r|), width, height)
    decreases Span(q, d, width, height)
  {
    var r := Ray(q, d, width, height);
    if InBounds(q, width, height) {
      SpanShrinks(q, d, width, height);
      var rest := Ray(Plus(q, d), d, width, height);
      RayPoints(Plus(q, d), d, width, height);
      assert r == [ToPos(q)] + rest;
      forall k | 1 <= k < |r|
        ensures (r[k].0, r[k].1) == At(q, d, k) && r[k].0 < height && r[k].1 < width
      {
        assert r[k] == rest[k - 1];
        AtNext(q, d, k - 1);
      }
      AtNext(q, d, |rest|);
    }
  }

  /**
   * The resonant-harmonic antinodes of the pair `a`, `b`: forwards from
   * `a + d`, then backwards from `a - d`, each ray up to its first point off
   * the grid. When `b` is on the grid it is the first of them.
   */
  function Harmonics(a: Pos, b: Pos, width: nat, height: nat): (r: seq<Pos>)
    requires a != b
    ensures b.0 < height && b.1 < width ==> r != [] && r[0] == b
  {
    var d := Delta(a, b);
    var forward := Ray(Plus(a, d), d, width, height);
    assert b.0 < height && b.1 < width ==> forward != [] && forward[0] == b by {
      assert Plus(a, d) == (b.0, b.1);
    }
    forward + Ray(Minus(a, d), (-d.0, -d.1), width, height)
  }

  /** Every resonant antinode of a pair is on the grid. */
  lemma HarmonicsInBounds(a: Pos, b: Pos, width: nat, height: nat)
    requires a != b
    ensures forall p :: p in Harmonics(a, b, width, height) ==> p.0 < height && p.1 < width
  {
    var d := Delta(a, b);
    var forward := Ray(Plus(a, d), d, width, height);
    var backward := Ray(Minus(a, d), (-d.0, -d.1), width, height);
    RayPoints(Plus(a, d), d, width, height);
    RayPoints(Minus(a, d), (-d.0, -d.1), width, height);
    var r := forward + backward;
    forall k | 0 <= k < |r|
      ensures r[k].0 < height && r[k].1 < width
    {
      if k < |forward| {
        assert r[k] == forward[k];
      } else {
        assert r[k] == backward[k - |forward|];
      }
    }
  }

  /** What one ordered pair adds: nothing for equal positions, else its antinodes (and harmonics). */
  function PairNodes(a: Pos, b: Pos, width: nat, height: nat, harmonic: bool): set<Pos>
  {
    if a == b then {}
    else Elems(Antinodes(a, b, width, height)) + (if harmonic then Elems(Harmonics(a, b, width, height)) else {})
  }

  /**
   * What the ordered pairs of `positions` before `(i, j)` in the `for pos1`,
   * `for pos2` order add.
   */
  function Swept(positions: seq<Pos>, width: nat, height: nat, harmonic: bool, i: nat, j: nat): set<Pos>
    requires i <= |positions| && j <= |positions| && (j > 0 ==> i < |positions|)
    decreases i, j
  {
    if j > 0 then Swept(positions, width, height, harmonic, i, j - 1) + PairNodes(positions[i], positions[j - 1], width, height, harmonic)
    else if i > 0 then Swept(positions, width, height, harmonic, i - 1, |positions|)
    else {}
  }

  /** All that the pairs of one frequency add. */
  function FrequencyNodes(positions: seq<Pos>, width: nat, height: nat, harmonic: bool): set<Pos>
  {
    Swept(positions, width, height, harmonic, |positions|, 0)
  }

  /** All that the frequencies in `keys` add. */
  ghost function PairsOver(antennas: map<char, seq<Pos>>, keys: set<char>, width: nat, height: nat, harmonic: bool): set<Pos>
  {
    set f, p | f in keys && f in antennas && p in FrequencyNodes(antennas[f], width, height, harmonic) :: p
  }

  /** The antinodes (or, with `harmonic`, the resonant antinodes) of every frequency. */
  ghost function AllPairs(antennas: map<char, seq<Pos>>, width: nat, height: nat, harmonic: bool): set<Pos>
  {
    PairsOver(antennas, antennas.Keys, width, height, harmonic)
  }

  lemma PairsOverAdd(antennas: map<char, seq<Pos>>, keys: set<char>, f: char, width: nat, height: nat, harmonic: bool)
    requires f in antennas
    ensures PairsOver(antennas, keys + {f}, width, height, harmonic) ==
      PairsOver(antennas, keys, width, height, harmonic) + FrequencyNodes(antennas[f], width, height, harmonic)
  {
  }

  /** Every point a pair adds is on the grid. */
  lemma {:induction false} SweptInBounds(positions: seq<Pos>, width: nat, height: nat, harmonic: bool, i: nat, j: nat)
    requires i <= |positions| && j <= |positions| && (j > 0 ==> i < |positions|)
    ensures forall p :: p in Swept(positions, width, height, harmonic, i, j) ==> p.0 < height && p.1 < width
    decreases i, j
  {
    if j > 0 {
      SweptInBounds(positions, width, height, harmonic, i, j - 1);
      var a, b := positions[i], positions[j - 1];
      if a != b && harmonic {
        HarmonicsInBounds(a, b, width, height);
      }
    } else if i > 0 {
      SweptInBounds(positions, width, height, harmonic, i - 1, |positions|);
    }
  }

  /** Without harmonics a pair adds a subset of what it adds with them. */
  lemma {:induction false} SweptHarmonicSuperset(positions: seq<Pos>, width: nat, height: nat, plain: bool, harmonic: bool, i: nat, j: nat)
    requires i <= |positions| && j <= |positions| && (j > 0 ==> i < |positions|)
    requires plain ==> harmonic
    ensures Swept(positions, width, height, plain, i, j) <= Swept(positions, width, height, harmonic, i, j)
    decreases i, j
  {
    if j > 0 {
      SweptHarmonicSuperset(positions, width, height, plain, harmonic, i, j - 1);
      var a, b := positions[i], positions[j - 1];
      UnionMono(Swept(positions, width, height, plain, i, j - 1), Swept(positions, width, height, harmonic, i, j - 1),
                PairNodes(a, b, width, height, plain), PairNodes(a, b, width, height, harmonic));
    } else if i > 0 {
      SweptHarmonicSuperset(positions, width, height, plain, harmonic, i - 1, |positions|);
    }
  }

  /** Unions of subsets are subsets of the unions. */
  lemma UnionMono(a: set<Pos>, b: set<Pos>, c: set<Pos>, d: set<Pos>)
    requires a <= b && c <= d
    ensures a + c <= b + d
  {
  }

  /** Every pair before `(i, j)` has added its points. */
  lemma {:induction false} SweptHasPair(positions: seq<Pos>, width: nat, height: nat, harmonic: bool, i: nat, j: nat, i0: nat, j0: nat)
    requires i <= |positions| && j <= |positions| && (j > 0 ==> i < |positions|)
    requires i0 < |positions| && j0 < |positions| && (i0 < i || (i0 == i && j0 < j))
    ensures PairNodes(positions[i0], positions[j0], width, height, harmonic) <= Swept(positions, width, height, harmonic, i, j)
    decreases i, j
  {
    if j > 0 {
      if !(i0 == i && j0 == j - 1) {
        SweptHasPair(positions, width, height, harmonic, i, j - 1, i0, j0);
      }
    } else {
      SweptHasPair(positions, width, height, harmonic, i - 1, |positions|, i0, j0);
    }
  }

  /** Every recorded antinode, with or without harmonics, is on the grid. */
  lemma AllPairsInBounds(antennas: map<char, seq<Pos>>, width: nat, height: nat, harmonic: bool)
    ensures forall p :: p in AllPairs(antennas, width, height, harmonic) ==> p.0 < height && p.1 < width
  {
    forall f | f in antennas {
      SweptInBounds(antennas[f], width, height, harmonic, |antennas[f]|, 0);
    }
  }

  /** `antinodes ⊆ harmonic_antinodes`. */
  lemma AntinodesAreHarmonic(antennas: map<char, seq<Pos>>, width: nat, height: nat)
    ensures AllPairs(antennas, width, height, false) <= AllPairs(antennas, width, height, true)
  {
    forall p | p in AllPairs(antennas, width, height, false)
      ensures p in AllPairs(antennas, width, height, true)
    {
      var f :| f in antennas && p in FrequencyNodes(antennas[f], width, height, false);
      SweptHarmonicSuperset(antennas[f], width, height, false, true, |antennas[f]|, 0);
      assert p in FrequencyNodes(antennas[f], width, height, true);
    }
  }

  /**
   * An on-grid antenna sharing its frequency with an antenna at another
   * position is a resonant antinode: it is the first forward point of the
   * pair that starts at the other antenna.
   */
  lemma SharedFrequencyIsHarmonic(antennas: map<char, seq<Pos>>, width: nat, height: nat, f: char, i: nat, j: nat)
    requires f in antennas && i < |antennas[f]| && j < |antennas[f]|
    requires antennas[f][i] != antennas[f][j]
    requires antennas[f][j].0 < height && antennas[f][j].1 < width
    ensures antennas[f][j] in AllPairs(antennas, width, height, true)
  {
    var ps := antennas[f];
    SweptHasPair(ps, width, height, true, |ps|, 0, i, j);
    assert ps[j] in Harmonics(ps[i], ps[j], width, height);
    assert ps[j] in FrequencyNodes(ps, width, height, true);
  }

  /** `add_antenna` on a map value: `pos` appended to the list of `c`, created if missing. */
  function Added(antennas: map<char, seq<Pos>>, c: char, pos: Pos): (r: map<char, seq<Pos>>)
    ensures r.Keys == antennas.Keys + {c}
    ensures forall f :: f in antennas && f != c ==> r[f] == antennas[f]
    ensures r[c] == (if c in antennas then antennas[c] else []) + [pos]
  {
    antennas[c := (if c in antennas then antennas[c] else []) + [pos]]
  }

  /**
   * The antenna lists after the row-major scan of `lines` has passed every
   * character before row `row`, column `col`: each character other than `.`
   * appends its position to its own list.
   */
  function Scanned(lines: seq<string>, row: nat, col: nat): map<char, seq<Pos>>
    requires row <= |lines| && (row < |lines| ==> col <= |lines[row]|) && (row == |lines| ==> col == 0)
    decreases row, col
  {
    if col > 0 then
      var c := lines[row][col - 1];
      var m := Scanned(lines, row, col - 1);
      if c != '.' then Added(m, c, (row, col - 1)) else m
    else if row > 0 then Scanned(lines, row - 1, |lines[row - 1]|)
    else map[]
  }

  /** The scan has passed position `p`. */
  predicate Passed(lines: seq<string>, row: nat, col: nat, p: Pos)
  {
    p.0 < |lines| && p.1 < |lines[p.0]| && (p.0 < row || (p.0 == row && p.1 < col))
  }

  /** The scan lists exactly the passed positions, each under the character found there. */
  lemma {:induction false} ScannedMembers(lines: seq<string>, row: nat, col: nat)
    requires row <= |lines| && (row < |lines| ==> col <= |lines[row]|) && (row == |lines| ==> col == 0)
    ensures forall c, p: Pos :: c in Scanned(lines, row, col) && p in Scanned(lines, row, col)[c] <==>
      Passed(lines, row, col, p) && lines[p.0][p.1] == c && c != '.'
    decreases row, col
  {
    if col > 0 {
      ScannedMembers(lines, row, col - 1);
    } else if row > 0 {
      ScannedMembers(lines, row - 1, |lines[row - 1]|);
    }
  }

  class CityGrid {
    var width: nat
    var height: nat
    var antennas: map<char, seq<Pos>>
    var antinodes: set<Pos>
    var harmonicAntinodes: set<Pos>

    /**
     * `CityGrid::new` on the lines of the map: the grid is as wide as the
     * first line, every character other than `.` is an antenna of that
     * frequency, and the antinodes of every frequency are recorded. On lines
     * no longer than the first, every antenna sharing its frequency with an
     * antenna elsewhere is a resonant antinode.
     */
    constructor(lines: seq<string>)
      ensures height == |lines| && width == (if lines == [] then 0 else |lines[0]|)
      ensures antennas == Scanned(lines, |lines|, 0)
      ensures antinodes == AllPairs(antennas, width, height, false)
      ensures harmonicAntinodes == AllPairs(antennas, width, height, true)
      ensures (forall r :: 0 <= r < |lines| ==> |lines[r]| <= width) ==>
        forall f, i, j :: f in antennas && 0 <= i < |antennas[f]| && 0 <= j < |antennas[f]| && antennas[f][i] != antennas[f][j] ==>
          antennas[f][j] in harmonicAntinodes
    {
      height := |lines|;
      width := if lines == [] then 0 else |lines[0]|;
      antennas := map[];
      antinodes := {};
      harmonicAntinodes := {};
      new;
      for row := 0 to |lines|
        invariant height == |lines| && width == (if lines == [] then 0 else |lines[0]|)
        invariant antennas == Scanned(lines, row, 0)
        invariant antinodes == {} && harmonicAntinodes == {}
      {
        for col := 0 to |lines[row]|
          invariant height == |lines| && width == (if lines == [] then 0 else |lines[0]|)
          invariant antennas == Scanned(lines, row, col)
          invariant antinodes == {} && harmonicAntinodes == {}
        {
          if lines[row][col] != '.' {
            AddAntenna(lines[row][col], (row, col));
          }
        }
      }
      CalculateAllAntinodes();
      if forall r :: 0 <= r < |lines| ==> |lines[r]| <= width {
        ScannedMembers(lines, |lines|, 0);
        forall f, i, j | f in antennas && 0 <= i < |antennas[f]| && 0 <= j < |antennas[f]| && antennas[f][i] != antennas[f][j]
          ensures antennas[f][j] in harmonicAntinodes
        {
          assert antennas[f][j] in antennas[f];
          SharedFrequencyIsHarmonic(antennas, width, height, f, i, j);
        }
      }
    }

    /** `add_antenna`: `pos` is appended to the list of frequency `c`. */
    method AddAntenna(c: char, pos: Pos)
      modifies this`antennas
      ensures antennas == Added(old(antennas), c, pos)
    {
      var list := if c in antennas then antennas[c] else [];
      antennas := antennas[c := list + [pos]];
    }

    /** `calculate_antinodes`: the on-grid points of `a - d` and `b + d`, `None` when there are none. */
    method CalculateAntinodes(a: Pos, b: Pos) returns (r: Option<seq<Pos>>)
      ensures r == NonEmpty(Antinodes(a, b, width, height))
    {
      var d := Delta(a, b);
      var candidates := [Minus(a, d), Plus(b, d)];
      var result := [];
      for k := 0 to 2
        invariant result == Keep(candidates[..k], width, height)
      {
        assert candidates[..k + 1][..k] == candidates[..k];
        if InBounds(candidates[k], width, height) {
          result := result + [ToPos(candidates[k])];
        }
      }
      assert candidates[..2] == candidates;
      if result == [] {
        r := None;
      } else {
        r := Some(result);
      }
    }

    /**
     * `calculate_harmonic_antinodes`: the forward ray from `a + d` then the
     * backward ray from `a - d`, `None` when both are empty. Distinct
     * positions make `d` non-zero, so both loops end.
     */
    method CalculateHarmonicAntinodes(a: Pos, b: Pos) returns (r: Option<seq<Pos>>)
      requires a != b
      ensures r == NonEmpty(Harmonics(a, b, width, height))
    {
      var d := Delta(a, b);
      var back := (-d.0, -d.1);
      var result := [];
      var forwards := Plus(a, d);
      while InBounds(forwards, width, height)
        invariant result + Ray(forwards, d, width, height) == Ray(Plus(a, d), d, width, height)
        decreases Span(forwards, d, width, height)
      {
        SpanShrinks(forwards, d, width, height);
        assert Ray(forwards, d, width, height) == [ToPos(forwards)] + Ray(Plus(forwards, d), d, width, height);
        result := result + [ToPos(forwards)];
        forwards := Plus(forwards, d);
      }
      assert Ray(forwards, d, width, height) == [];
      var backwards := Minus(a, d);
      while InBounds(backwards, width, height)
        invariant result + Ray(backwards, back, width, height) == Harmonics(a, b, width, height)
        decreases Span(backwards, back, width, height)
      {
        SpanShrinks(backwards, back, width, height);
        assert Ray(backwards, back, width, height) == [ToPos(backwards)] + Ray(Plus(backwards, back), back, width, height);
        result := result + [ToPos(backwards)];
        ghost var previous := backwards;
        backwards := Minus(backwards, d);
        assert backwards == Plus(previous, back);
      }
      assert Ray(backwards, back, width, height) == [];
      assert result == Harmonics(a, b, width, height);
      if result == [] {
        r := None;
      } else {
        r := Some(result);
      }
    }

    /**
     * `calculate_all_antinodes`: every ordered pair of distinct positions of
     * one frequency adds its antinodes to both sets and its resonant
     * antinodes to the harmonic set.
     */
    method CalculateAllAntinodes()
      modifies this`antinodes, this`harmonicAntinodes
      ensures antinodes == old(antinodes) + AllPairs(antennas, width, height, false)
      ensures harmonicAntinodes == old(harmonicAntinodes) + AllPairs(antennas, width, height, true)
    {
      var keys := antennas.Keys;
      ghost var done: set<char> := {};
      while keys != {}
        invariant keys + done == antennas.Keys && keys !! done
        invariant antinodes == old(antinodes) + PairsOver(antennas, done, width, height, false)
        invariant harmonicAntinodes == old(harmonicAntinodes) + PairsOver(antennas, done, width, height, true)
        decreases keys
      {
        var f :| f in keys;
        AddFrequency(antennas[f]);
        PairsOverAdd(antennas, done, f, width, height, false);
        PairsOverAdd(antennas, done, f, width, height, true);
        done := done + {f};
        keys := keys - {f};
      }
    }

    /** The `for pos1`, `for pos2` loops over the positions of one frequency. */
    method AddFrequency(positions: seq<Pos>)
      modifies this`antinodes, this`harmonicAntinodes
      ensures antinodes == old(antinodes) + FrequencyNodes(positions, width, height, false)
      ensures harmonicAntinodes == old(harmonicAntinodes) + FrequencyNodes(positions, width, height, true)
    {
      for i := 0 to |positions|
        invariant antinodes == old(antinodes) + Swept(positions, width, height, false, i, 0)
        invariant harmonicAntinodes == old(harmonicAntinodes) + Swept(positions, width, height, true, i, 0)
      {
        for j := 0 to |positions|
          invariant antinodes == old(antinodes) + Swept(positions, width, height, false, i, j)
          invariant harmonicAntinodes == old(harmonicAntinodes) + Swept(positions, width, height, true, i, j)
        {
          AddPair(positions[i], positions[j]);
        }
      }
    }

    /** The body of the pair loop: distinct positions add their antinodes and resonant antinodes. */
    method AddPair(a: Pos, b: Pos)
      modifies this`antinodes, this`harmonicAntinodes
      ensures antinodes == old(antinodes) + PairNodes(a, b, width, height, false)
      ensures harmonicAntinodes == old(harmonicAntinodes) + PairNodes(a, b, width, height, true)
    {
      if a != b {
        var single := CalculateAntinodes(a, b);
        if single.Some? {
          antinodes := antinodes + Elems(single.value);
          harmonicAntinodes := harmonicAntinodes + Elems(single.value);
        }
        var resonant := CalculateHarmonicAntinodes(a, b);
        if resonant.Some? {
          harmonicAntinodes := harmonicAntinodes + Elems(resonant.value);
        }
      }
    }
  }
}
