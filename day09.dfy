/** Day 9 (crates/day09/src/main.rs): a height map of digits; the low
    points (cells lower than every orthogonal neighbour), their risk
    levels, and the basins found by a flood fill from each low point. */
module Day09 {
  import opened Wrappers
  import Text
  import Sums
  import Sorting

  /** Rows of heights, top row first. */
  type Grid = seq<seq<int>>

  datatype Pos = Pos(x: nat, y: nat)

  datatype LowPoint = LowPoint(x: nat, y: nat, height: int)

  // --- Parsing -------------------------------------------------------------------

  /** One line of `parse_grid`: every character must be a decimal digit. */
  function ParseRow(line: string): (r: Result<seq<int>>)
    ensures r.Ok? <==> forall i :: 0 <= i < |line| ==> Text.ToDigit(line[i], 10).Some?
    ensures r.Ok? ==> |r.value| == |line|
    ensures r.Ok? ==> forall i :: 0 <= i < |line| ==> r.value[i] == Text.ToDigit(line[i], 10).value
  {
    if line == [] then Ok([])
    else
      var n := |line| - 1;
      var front := ParseRow(line[..n]);
      var d := Text.ToDigit(line[n], 10);
      assert forall i :: 0 <= i < n ==> line[..n][i] == line[i];
      if front.Err? || d.None? then Err else Ok(front.value + [d.value])
  }

  function ParseRows(lines: seq<string>): (r: Result<Grid>)
    ensures r.Ok? <==> forall y :: 0 <= y < |lines| ==> ParseRow(lines[y]).Ok?
    ensures r.Ok? ==> |r.value| == |lines|
    ensures r.Ok? ==> forall y :: 0 <= y < |lines| ==> r.value[y] == ParseRow(lines[y]).value
  {
    if lines == [] then Ok([])
    else
      var n := |lines| - 1;
      var front := ParseRows(lines[..n]);
      var row := ParseRow(lines[n]);
      assert forall y :: 0 <= y < n ==> lines[..n][y] == lines[y];
      if front.Err? || row.Err? then Err else Ok(front.value + [row.value])
  }

  /** `parse_grid`: the trimmed input, line by line. */
  function ParseGrid(input: string): Result<Grid> {
    ParseRows(Text.Lines(Text.Trim(input)))
  }

  /** The digits of a row of heights. */
  function RowText(heights: seq<int>): (line: string)
    requires forall i :: 0 <= i < |heights| ==> 0 <= heights[i] < 10
    ensures |line| == |heights|
  {
    seq(|heights|, i requires 0 <= i < |heights| => Text.DigitChar(heights[i]))
  }

  /** Writing heights as digits and parsing them back gives the heights. */
  lemma RowRoundTrip(heights: seq<int>)
    requires forall i :: 0 <= i < |heights| ==> 0 <= heights[i] < 10
    ensures ParseRow(RowText(heights)) == Ok(heights)
  {
    var r := ParseRow(RowText(heights));
    assert r.Ok?;
    assert r.value == heights;
  }

  // --- The grid --------------------------------------------------------------------

  /** Every row as long as the first: the puzzle's grids. The source
      indexes a neighbouring row at the column of the current cell, which
      panics on some ragged grids, though not on all, since a failed earlier
      comparison skips the lookup. */
  predicate Rectangular(grid: Grid) {
    forall y :: 0 <= y < |grid| ==> |grid[y]| == |grid[0]|
  }

  predicate InGrid(grid: Grid, p: Pos) {
    p.y < |grid| && p.x < |grid[p.y]|
  }

  function Height(grid: Grid, p: Pos): int
    requires InGrid(grid, p)
  {
    grid[p.y][p.x]
  }

  /** Orthogonal neighbours. */
  predicate Adjacent(p: Pos, q: Pos) {
    (p.x == q.x && (p.y + 1 == q.y || q.y + 1 == p.y))
    || (p.y == q.y && (p.x + 1 == q.x || q.x + 1 == p.x))
  }

  // --- Low points ------------------------------------------------------------------

  /** The test of `get_low_points`, with its four short-circuited
      comparisons. */
  predicate IsLowPoint(grid: Grid, x: nat, y: nat)
    requires Rectangular(grid) && InGrid(grid, Pos(x, y))
  {
    var h := grid[y][x];
    (y == 0 || grid[y - 1][x] > h)
    && (y == |grid| - 1 || grid[y + 1][x] > h)
    && (x == 0 || grid[y][x - 1] > h)
    && (x == |grid[y]| - 1 || grid[y][x + 1] > h)
  }

  /** A low point is strictly lower than every neighbour inside the grid. */
  lemma LowPointMeaning(grid: Grid, x: nat, y: nat)
    requires Rectangular(grid) && InGrid(grid, Pos(x, y))
    ensures IsLowPoint(grid, x, y) <==>
              forall q :: InGrid(grid, q) && Adjacent(Pos(x, y), q) ==> Height(grid, q) > grid[y][x]
  {
    if forall q :: InGrid(grid, q) && Adjacent(Pos(x, y), q) ==> Height(grid, q) > grid[y][x] {
      if y > 0 { assert InGrid(grid, Pos(x, y - 1)) && Adjacent(Pos(x, y), Pos(x, y - 1)); }
      if y < |grid| - 1 { assert InGrid(grid, Pos(x, y + 1)) && Adjacent(Pos(x, y), Pos(x, y + 1)); }
      if x > 0 { assert InGrid(grid, Pos(x - 1, y)) && Adjacent(Pos(x, y), Pos(x - 1, y)); }
      if x < |grid[y]| - 1 { assert InGrid(grid, Pos(x + 1, y)) && Adjacent(Pos(x, y), Pos(x + 1, y)); }
    }
  }

  /** The low points among the first `n` cells of row `y`, left to right. */
  function RowLows(grid: Grid, y: nat, n: nat): seq<LowPoint>
    requires Rectangular(grid) && y < |grid| && n <= |grid[y]|
  {
    if n == 0 then []
    else RowLows(grid, y, n - 1) + (if IsLowPoint(grid, n - 1, y) then [LowPoint(n - 1, y, grid[y][n - 1])] else [])
  }

  /** The low points of the first `m` rows, in row-major order. */
  function LowsAbove(grid: Grid, m: nat): seq<LowPoint>
    requires Rectangular(grid) && m <= |grid|
  {
    if m == 0 then [] else LowsAbove(grid, m - 1) + RowLows(grid, m - 1, |grid[m - 1]|)
  }

  function LowPoints(grid: Grid): seq<LowPoint>
    requires Rectangular(grid)
  {
    LowsAbove(grid, |grid|)
  }

  /** Row-major order: up to down, then left to right. */
  predicate Before(a: LowPoint, b: LowPoint) {
    a.y < b.y || (a.y == b.y && a.x < b.x)
  }

  /** The low points of row `y` before column `n`: each with its own
      height, left to right, none missing. */
  lemma {:induction false} RowLowsListed(grid: Grid, y: nat, n: nat)
    requires Rectangular(grid) && y < |grid| && n <= |grid[y]|
    ensures forall i :: 0 <= i < |RowLows(grid, y, n)| ==>
              var p := RowLows(grid, y, n)[i];
              p.y == y && p.x < n && IsLowPoint(grid, p.x, y) && p.height == grid[y][p.x]
    ensures forall i, j :: 0 <= i < j < |RowLows(grid, y, n)| ==> RowLows(grid, y, n)[i].x < RowLows(grid, y, n)[j].x
    ensures forall x: nat {:trigger IsLowPoint(grid, x, y)} :: x < n && IsLowPoint(grid, x, y) ==> LowPoint(x, y, grid[y][x]) in RowLows(grid, y, n)
  {
    if n > 0 {
      RowLowsListed(grid, y, n - 1);
    }
  }

  /** The low points of the rows above `m`: each with its own height, in
      row-major order, none missing. */
  lemma {:induction false} LowsAboveListed(grid: Grid, m: nat)
    requires Rectangular(grid) && m <= |grid|
    ensures forall i :: 0 <= i < |LowsAbove(grid, m)| ==>
              var p := LowsAbove(grid, m)[i];
              p.y < m && InGrid(grid, Pos(p.x, p.y)) && IsLowPoint(grid, p.x, p.y) && p.height == grid[p.y][p.x]
    ensures forall i, j :: 0 <= i < j < |LowsAbove(grid, m)| ==> Before(LowsAbove(grid, m)[i], LowsAbove(grid, m)[j])
    ensures forall x: nat, y: nat {:trigger IsLowPoint(grid, x, y)} :: y < m && InGrid(grid, Pos(x, y)) && IsLowPoint(grid, x, y) ==>
              LowPoint(x, y, grid[y][x]) in LowsAbove(grid, m)
  {
    if m > 0 {
      var above := LowsAbove(grid, m - 1);
      var row := RowLows(grid, m - 1, |grid[m - 1]|);
      LowsAboveListed(grid, m - 1);
      RowLowsListed(grid, m - 1, |grid[m - 1]|);
      var all := above + row;
      assert all == LowsAbove(grid, m);
      forall i | 0 <= i < |all|
        ensures all[i].y < m && InGrid(grid, Pos(all[i].x, all[i].y))
        ensures IsLowPoint(grid, all[i].x, all[i].y) && all[i].height == grid[all[i].y][all[i].x]
      {
        if i < |above| {
          assert all[i] == above[i];
        } else {
          assert all[i] == row[i - |above|];
        }
      }
      forall i, j | 0 <= i < j < |all| ensures Before(all[i], all[j]) {
        if j < |above| {
          assert all[i] == above[i] && all[j] == above[j];
        } else if i >= |above| {
          assert all[i] == row[i - |above|] && all[j] == row[j - |above|];
        } else {
          assert all[i] == above[i] && all[j] == row[j - |above|];
        }
      }
    }
  }

  /** The list of `get_low_points`: exactly the low points, each once with
      its own height, in row-major order. */
  lemma LowPointsListed(grid: Grid)
    requires Rectangular(grid)
    ensures forall i :: 0 <= i < |LowPoints(grid)| ==>
              var p := LowPoints(grid)[i];
              InGrid(grid, Pos(p.x, p.y)) && IsLowPoint(grid, p.x, p.y) && p.height == grid[p.y][p.x]
    ensures forall x: nat, y: nat {:trigger IsLowPoint(grid, x, y)} :: InGrid(grid, Pos(x, y)) && IsLowPoint(grid, x, y) ==>
              LowPoint(x, y, grid[y][x]) in LowPoints(grid)
    ensures forall i, j :: 0 <= i < j < |LowPoints(grid)| ==> Before(LowPoints(grid)[i], LowPoints(grid)[j])
  {
    LowsAboveListed(grid, |grid|);
  }

  /** `get_low_points`. */
  method GetLowPoints(grid: Grid) returns (lows: seq<LowPoint>)
    requires Rectangular(grid)
    ensures lows == LowPoints(grid)
  {
    lows := [];
    for y := 0 to |grid|
      invariant lows == LowsAbove(grid, y)
    {
      for x := 0 to |grid[y]|
        invariant lows == LowsAbove(grid, y) + RowLows(grid, y, x)
      {
        var current := grid[y][x];
        if (y == 0 || grid[y - 1][x] > current)
          && (y == |grid| - 1 || grid[y + 1][x] > current)
          && (x == 0 || grid[y][x - 1] > current)
          && (x == |grid[y]| - 1 || grid[y][x + 1] > current)
        {
          lows := lows + [LowPoint(x, y, grid[y][x])];
        }
      }
    }
  }

  // --- Part 1 ----------------------------------------------------------------------

  /** The risk levels, one more than the height, of the low points. */
  function Risks(lows: seq<LowPoint>): (r: seq<int>)
    ensures |r| == |lows|
  {
    seq(|lows|, i requires 0 <= i < |lows| => lows[i].height + 1)
  }

  /** The risk level of one cell. */
  function Risk(grid: Grid, p: Pos): int
    requires InGrid(grid, p)
  {
    Height(grid, p) + 1
  }

  /** The cells that are low points. */
  ghost function LowSet(grid: Grid): set<Pos>
    requires Rectangular(grid)
  {
    set p | p in Cells(grid) && InGrid(grid, p) && IsLowPoint(grid, p.x, p.y)
  }

  /** Part 1 adds up the risk of each low point once, whatever the order:
      the sum of the list equals the sum over the set of low points. */
  lemma RiskSumIsSetSum(grid: Grid)
    requires Rectangular(grid)
    ensures Sums.SeqSum(Risks(LowPoints(grid))) ==
              Sums.SetSum(LowSet(grid), p => if InGrid(grid, p) then Risk(grid, p) else 0)
  {
    var lows := LowPoints(grid);
    LowPointsListed(grid);
    var f := p => if InGrid(grid, p) then Risk(grid, p) else 0;
    var ps := seq(|lows|, i requires 0 <= i < |lows| => Pos(lows[i].x, lows[i].y));
    forall i, j | 0 <= i < j < |ps| ensures ps[i] != ps[j] {
      assert Before(lows[i], lows[j]);
    }
    assert Risks(lows) == seq(|ps|, i requires 0 <= i < |ps| => f(ps[i]));
    SeqSumOfDistinct(ps, f);
    forall p | p in LowSet(grid) ensures p in ps {
      assert LowPoint(p.x, p.y, grid[p.y][p.x]) in lows;
      var i :| 0 <= i < |lows| && lows[i] == LowPoint(p.x, p.y, grid[p.y][p.x]);
      assert ps[i] == p;
    }
    assert (set i | 0 <= i < |ps| :: ps[i]) == LowSet(grid);
  }

  /** A sum over a list without repeats is the sum over its set. */
  lemma {:induction false} SeqSumOfDistinct(ps: seq<Pos>, f: Pos -> int)
    requires forall i, j :: 0 <= i < j < |ps| ==> ps[i] != ps[j]
    ensures Sums.SeqSum(seq(|ps|, i requires 0 <= i < |ps| => f(ps[i]))) ==
              Sums.SetSum(set i | 0 <= i < |ps| :: ps[i], f)
  {
    if ps != [] {
      var n := |ps| - 1;
      SeqSumOfDistinct(ps[..n], f);
      var front := set i | 0 <= i < n :: ps[..n][i];
      assert (set i | 0 <= i < |ps| :: ps[i]) == front + {ps[n]} by {
        forall p | p in front ensures exists i :: 0 <= i < |ps| && ps[i] == p {
          var i :| 0 <= i < n && ps[..n][i] == p;
          assert ps[i] == p;
        }
      }
      assert ps[n] !in front;
      Sums.SetSumInsert(front, f, ps[n]);
      var s := seq(|ps|, i requires 0 <= i < |ps| => f(ps[i]));
      assert s[..n] == seq(n, i requires 0 <= i < n => f(ps[..n][i]));
    }
  }

  /** `solve_part1`: the sum of the low points' risk levels. */
  method SolvePart1(input: string) returns (r: Result<int>)
    requires ParseGrid(input).Ok? ==> Rectangular(ParseGrid(input).value)
    ensures r.Ok? <==> ParseGrid(input).Ok?
    ensures r.Ok? ==> r.value == Sums.SeqSum(Risks(LowPoints(ParseGrid(input).value)))
  {
    var grid :- ParseGrid(input);
    var lows := GetLowPoints(grid);
    return Ok(Sums.SeqSum(Risks(lows)));
  }

  // --- Basins ----------------------------------------------------------------------

  /** A cell a basin can contain: inside the grid and not of height 9. */
  predicate Open(grid: Grid, p: Pos) {
    InGrid(grid, p) && Height(grid, p) != 9
  }

  /** A walk through open cells, each step to an orthogonal neighbour. */
  ghost predicate IsWalk(grid: Grid, walk: seq<Pos>) {
    (forall i :: 0 <= i < |walk| ==> Open(grid, walk[i]))
    && forall i :: 0 < i < |walk| ==> Adjacent(walk[i - 1], walk[i])
  }

  ghost predicate Reaches(grid: Grid, start: Pos, p: Pos) {
    exists walk :: |walk| > 0 && walk[0] == start && walk[|walk| - 1] == p && IsWalk(grid, walk)
  }

  /** The cells of the grid. */
  function Cells(grid: Grid): set<Pos> {
    set y: nat, x: nat | y < |grid| && x < |grid[y]| :: Pos(x, y)
  }

  /** The basin of `start`: the open cells joined to it through open cells,
      none if `start` itself has height 9. */
  ghost function Basin(grid: Grid, start: Pos): set<Pos> {
    set p | p in Cells(grid) && Reaches(grid, start, p)
  }

  lemma CellsAreInGrid(grid: Grid, p: Pos)
    ensures p in Cells(grid) <==> InGrid(grid, p)
  {
    if InGrid(grid, p) {
      assert p == Pos(p.x, p.y);
    }
  }

  lemma ReachesStart(grid: Grid, start: Pos)
    requires Open(grid, start)
    ensures Reaches(grid, start, start)
  {
    assert IsWalk(grid, [start]);
  }

  lemma ReachesNext(grid: Grid, start: Pos, p: Pos, q: Pos)
    requires Reaches(grid, start, p) && Adjacent(p, q) && Open(grid, q)
    ensures Reaches(grid, start, q)
  {
    var walk :| |walk| > 0 && walk[0] == start && walk[|walk| - 1] == p && IsWalk(grid, walk);
    assert IsWalk(grid, walk + [q]);
  }

  /** A basin holds only open cells, holds its start exactly when the start
      is open, and holds every open neighbour of its cells. */
  lemma BasinIsComponent(grid: Grid, start: Pos)
    ensures forall p :: p in Basin(grid, start) ==> Open(grid, p)
    ensures start in Basin(grid, start) <==> Open(grid, start)
    ensures forall p, q :: p in Basin(grid, start) && Adjacent(p, q) && Open(grid, q) ==> q in Basin(grid, start)
  {
    forall p | p in Basin(grid, start) ensures Open(grid, p) {
      var walk :| |walk| > 0 && walk[0] == start && walk[|walk| - 1] == p && IsWalk(grid, walk);
    }
    if Open(grid, start) {
      ReachesStart(grid, start);
      CellsAreInGrid(grid, start);
    }
    forall p, q | p in Basin(grid, start) && Adjacent(p, q) && Open(grid, q) ensures q in Basin(grid, start) {
      ReachesNext(grid, start, p, q);
      CellsAreInGrid(grid, q);
    }
  }

  /** A set of cells that holds the start (when open) and every open
      neighbour of its members holds the whole basin. */
  lemma {:induction false} ClosedHoldsBasin(grid: Grid, start: Pos, closed: set<Pos>)
    requires Open(grid, start) ==> start in closed
    requires forall p, q :: p in closed && Adjacent(p, q) && Open(grid, q) ==> q in closed
    ensures Basin(grid, start) <= closed
  {
    forall p | p in Basin(grid, start) ensures p in closed {
      var walk :| |walk| > 0 && walk[0] == start && walk[|walk| - 1] == p && IsWalk(grid, walk);
      WalkInside(grid, walk, closed, |walk|);
    }
  }

  lemma {:induction false} WalkInside(grid: Grid, walk: seq<Pos>, closed: set<Pos>, n: nat)
    requires IsWalk(grid, walk) && 0 < n <= |walk| && walk[0] in closed
    requires forall p, q :: p in closed && Adjacent(p, q) && Open(grid, q) ==> q in closed
    ensures walk[n - 1] in closed
  {
    if n > 1 {
      WalkInside(grid, walk, closed, n - 1);
      assert Adjacent(walk[n - 2], walk[n - 1]) && Open(grid, walk[n - 1]);
    }
  }

  /** The in-grid neighbours `get_basin_size` pushes, in its order: left,
      right, up, down. */
  method PushNeighbours(grid: Grid, p: Pos, toVisit: seq<Pos>) returns (toVisit': seq<Pos>)
    requires Rectangular(grid) && InGrid(grid, p)
    ensures toVisit' == toVisit + Neighbours(grid, p)
  {
    toVisit' := toVisit;
    if p.x > 0 {
      toVisit' := toVisit' + [Pos(p.x - 1, p.y)];
    }
    if p.x < |grid[p.y]| - 1 {
      toVisit' := toVisit' + [Pos(p.x + 1, p.y)];
    }
    if p.y > 0 {
      toVisit' := toVisit' + [Pos(p.x, p.y - 1)];
    }
    if p.y < |grid| - 1 {
      toVisit' := toVisit' + [Pos(p.x, p.y + 1)];
    }
  }

  function Neighbours(grid: Grid, p: Pos): seq<Pos>
    requires Rectangular(grid) && InGrid(grid, p)
  {
    (if p.x > 0 then [Pos(p.x - 1, p.y)] else [])
    + (if p.x < |grid[p.y]| - 1 then [Pos(p.x + 1, p.y)] else [])
    + (if p.y > 0 then [Pos(p.x, p.y - 1)] else [])
    + (if p.y < |grid| - 1 then [Pos(p.x, p.y + 1)] else [])
  }

  /** The pushed cells are exactly the neighbours inside the grid. */
  lemma NeighboursAre(grid: Grid, p: Pos)
    requires Rectangular(grid) && InGrid(grid, p)
    ensures forall q :: q in Neighbours(grid, p) <==> InGrid(grid, q) && Adjacent(p, q)
  {
  }

  /** The invariant of the flood fill in `get_basin_size`: `visited` holds
      distinct open cells of the basin (`seen` is its set), every open cell
      waiting in `toVisit` belongs to the basin, and every open neighbour
      of a visited cell is visited or waiting. */
  ghost predicate Filling(grid: Grid, start: Pos, toVisit: seq<Pos>, visited: seq<Pos>, seen: set<Pos>) {
    (forall p :: p in seen <==> p in visited)
    && (forall i, j :: 0 <= i < j < |visited| ==> visited[i] != visited[j])
    && (forall p :: p in seen ==> Open(grid, p) && Reaches(grid, start, p))
    && (forall i :: 0 <= i < |toVisit| ==> InGrid(grid, toVisit[i]) && (Open(grid, toVisit[i]) ==> Reaches(grid, start, toVisit[i])))
    && (Open(grid, start) ==> start in seen || start in toVisit)
    && forall p, q :: p in seen && Adjacent(p, q) && Open(grid, q) ==> q in seen || q in toVisit
  }

  /** `get_basin_size`: the number of cells in the basin of (x, y). */
  method GetBasinSize(grid: Grid, x: nat, y: nat) returns (size: nat)
    requires Rectangular(grid) && InGrid(grid, Pos(x, y))
    ensures size == |Basin(grid, Pos(x, y))|
  {
    var start := Pos(x, y);
    var toVisit := [start];
    var visited: seq<Pos> := [];
    ghost var seen: set<Pos> := {};
    while |toVisit| > 0
      invariant Filling(grid, start, toVisit, visited, seen)
      invariant seen <= Cells(grid)
      decreases Cells(grid) - seen, |toVisit|
    {
      toVisit, visited, seen := VisitLast(grid, start, toVisit, visited, seen);
    }
    FilledBasin(grid, start, visited, seen);
    size := |visited|;
  }

  /** One turn of the loop of `get_basin_size`: pop a cell and, unless it
      is visited or of height 9, push its neighbours and visit it. */
  method VisitLast(grid: Grid, ghost start: Pos, toVisit: seq<Pos>, visited: seq<Pos>, ghost seen: set<Pos>)
    returns (toVisit': seq<Pos>, visited': seq<Pos>, ghost seen': set<Pos>)
    requires Rectangular(grid) && |toVisit| > 0
    requires Filling(grid, start, toVisit, visited, seen) && seen <= Cells(grid)
    ensures Filling(grid, start, toVisit', visited', seen') && seen' <= Cells(grid)
    ensures seen' == seen ==> |toVisit'| < |toVisit|
    ensures seen <= seen' && (seen' == seen || Cells(grid) - seen' < Cells(grid) - seen)
  {
    var p := toVisit[|toVisit| - 1];
    toVisit' := toVisit[..|toVisit| - 1];
    assert toVisit == toVisit' + [p];
    if p in visited || grid[p.y][p.x] == 9 {
      SkipKeepsFilling(grid, start, toVisit', p, visited, seen);
      return toVisit', visited, seen;
    }
    VisitKeepsFilling(grid, start, toVisit', p, visited, seen);
    toVisit' := PushNeighbours(grid, p, toVisit');
    visited' := visited + [p];
    seen' := seen + {p};
    CellsAreInGrid(grid, p);
  }

  /** A popped cell that is visited or of height 9 is dropped. */
  lemma SkipKeepsFilling(grid: Grid, start: Pos, rest: seq<Pos>, p: Pos, visited: seq<Pos>, seen: set<Pos>)
    requires Filling(grid, start, rest + [p], visited, seen)
    requires p in visited || !Open(grid, p)
    ensures Filling(grid, start, rest, visited, seen)
  {
    forall i | 0 <= i < |rest| ensures rest[i] == (rest + [p])[i] {}
  }

  /** A popped open cell not yet visited is visited, and its neighbours
      wait in its place. */
  lemma VisitKeepsFilling(grid: Grid, start: Pos, rest: seq<Pos>, p: Pos, visited: seq<Pos>, seen: set<Pos>)
    requires Rectangular(grid) && Filling(grid, start, rest + [p], visited, seen)
    requires Open(grid, p) && p !in visited
    ensures Filling(grid, start, rest + Neighbours(grid, p), visited + [p], seen + {p})
  {
    assert (rest + [p])[|rest|] == p;
    NeighboursAre(grid, p);
    var next := rest + Neighbours(grid, p);
    forall i | 0 <= i < |next| ensures InGrid(grid, next[i]) && (Open(grid, next[i]) ==> Reaches(grid, start, next[i])) {
      if i < |rest| {
        assert next[i] == (rest + [p])[i];
      } else {
        assert next[i] in Neighbours(grid, p);
        if Open(grid, next[i]) {
          ReachesNext(grid, start, p, next[i]);
        }
      }
    }
    forall q, r | q in seen + {p} && Adjacent(q, r) && Open(grid, r) ensures r in seen + {p} || r in next {
      if q == p {
        assert r in Neighbours(grid, p);
      }
    }
  }

  /** When the list of cells to visit runs out, the visited cells are the
      basin. */
  lemma FilledBasin(grid: Grid, start: Pos, visited: seq<Pos>, seen: set<Pos>)
    requires Filling(grid, start, [], visited, seen)
    ensures |visited| == |Basin(grid, start)|
  {
    ClosedHoldsBasin(grid, start, seen);
    forall p | p in seen ensures p in Basin(grid, start) {
      CellsAreInGrid(grid, p);
    }
    assert seen == Basin(grid, start);
    Sums.DistinctCard(visited, seen);
  }

  // --- Part 2 ----------------------------------------------------------------------

  /** The basin size of each low point, in the order of `get_low_points`. */
  ghost function BasinSizes(grid: Grid): (sizes: seq<int>)
    requires Rectangular(grid)
    ensures |sizes| == |LowPoints(grid)|
  {
    var lows := LowPoints(grid);
    seq(|lows|, i requires 0 <= i < |lows| => |Basin(grid, Pos(lows[i].x, lows[i].y))|)
  }

  /** The basin loop of `solve_part2`. */
  method GetBasinSizes(grid: Grid, lows: seq<LowPoint>) returns (sizes: seq<int>)
    requires Rectangular(grid) && lows == LowPoints(grid)
    ensures sizes == BasinSizes(grid)
  {
    LowPointsListed(grid);
    sizes := [];
    for i := 0 to |lows|
      invariant sizes == BasinSizes(grid)[..i]
    {
      var size := GetBasinSize(grid, lows[i].x, lows[i].y);
      sizes := sizes + [size];
    }
  }

  function Product(s: seq<int>): int {
    if s == [] then 1 else Product(s[..|s| - 1]) * s[|s| - 1]
  }

  /** `rev().take(3)` on an ascending list: its last three elements, or all
      of them when there are fewer (in the opposite order, which does not
      change their product). */
  function LargestThree(sorted: seq<int>): (top: seq<int>)
    ensures |top| == if |sorted| < 3 then |sorted| else 3
  {
    if |sorted| < 3 then sorted else sorted[|sorted| - 3..]
  }

  /** The three taken from the sorted sizes are sizes of the list, and no
      size left out exceeds any of them. */
  lemma LargestThreeAreLargest(sizes: seq<int>)
    ensures multiset(LargestThree(Sorting.Sort(sizes))) <= multiset(sizes)
    ensures forall x, y ::
              (x in multiset(sizes) - multiset(LargestThree(Sorting.Sort(sizes))) && y in LargestThree(Sorting.Sort(sizes)))
              ==> x <= y
  {
    SuffixIsLargest(Sorting.Sort(sizes), multiset(sizes));
  }

  lemma SuffixIsLargest(sorted: seq<int>, sizes: multiset<int>)
    requires Sorting.Sorted(sorted) && multiset(sorted) == sizes
    ensures multiset(LargestThree(sorted)) <= sizes
    ensures forall x, y :: (x in sizes - multiset(LargestThree(sorted)) && y in LargestThree(sorted)) ==> x <= y
  {
    var top := LargestThree(sorted);
    var k := |sorted| - |top|;
    assert sorted == sorted[..k] + top;
    assert sizes == multiset(sorted[..k]) + multiset(top);
    forall x, y | x in sizes - multiset(top) && y in top ensures x <= y {
      assert x in multiset(sorted[..k]);
      var i :| 0 <= i < k && sorted[..k][i] == x;
      var j :| 0 <= j < |top| && top[j] == y;
      assert sorted[i] == x && sorted[k + j] == y;
    }
  }

  /** `solve_part2`: the product of the three largest basin sizes. */
  method SolvePart2(input: string) returns (r: Result<int>)
    requires ParseGrid(input).Ok? ==> Rectangular(ParseGrid(input).value)
    ensures r.Ok? <==> ParseGrid(input).Ok?
    ensures r.Ok? ==> r.value == Product(LargestThree(Sorting.Sort(BasinSizes(ParseGrid(input).value))))
  {
    var grid :- ParseGrid(input);
    var lows := GetLowPoints(grid);
    var sizes := GetBasinSizes(grid, lows);
    var sorted := Sorting.Sort(sizes);
    return Ok(Product(LargestThree(sorted)));
  }
}
