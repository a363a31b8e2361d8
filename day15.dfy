/** Day 15: lowest-risk path through a cavern of risk levels.
    A cost grid is searched with an A*-style loop: a priority list of open
    cells ordered by f-score, a g-score map of the best known cost to each
    cell, and a predecessor map from which the path is read back. A second
    operation tiles the grid n by n times with a wrapping cost increment. */
module Day15 {
  import opened Wrappers
  import opened Sums
  import Text

  datatype Point = Point(x: int, y: int)

  /** An entry of the open list: a cell with the f-score it was pushed with. */
  datatype OpenPoint = OpenPoint(x: int, y: int, fScore: int)

  datatype Ordering = Less | Equal | Greater

  type Grid = seq<seq<nat>>

  // ---------------------------------------------------------------- points

  function Abs(n: int): nat { if n < 0 then -n else n }

  function ManhattanDistance(p: Point, q: Point): nat
  {
    Abs(p.x - q.x) + Abs(p.y - q.y)
  }

  /** The distance is symmetric and is zero exactly at the point itself. */
  lemma ManhattanDistanceProperties(p: Point, q: Point, r: Point)
    ensures ManhattanDistance(p, q) == ManhattanDistance(q, p)
    ensures ManhattanDistance(p, q) == 0 <==> p == q
    ensures ManhattanDistance(p, r) <= ManhattanDistance(p, q) + ManhattanDistance(q, r)
  {
  }

  predicate Adjacent(p: Point, q: Point) {
    ManhattanDistance(p, q) == 1
  }

  /** `From<Point> for OpenPoint`: f-score 0. */
  function ToOpen(p: Point): OpenPoint {
    OpenPoint(p.x, p.y, 0)
  }

  /** `From<OpenPoint> for Point`: the f-score is dropped. */
  function ToPoint(o: OpenPoint): Point {
    Point(o.x, o.y)
  }

  lemma PointConversionRoundTrip(p: Point, o: OpenPoint)
    ensures ToPoint(ToOpen(p)) == p
    ensures ToOpen(ToPoint(o)) == o.(fScore := 0)
  {
  }

  // ------------------------------------------------------ open-list order

  /** `Ord for OpenPoint`: the comparison of f-scores, reversed, so that the
      greatest entry of the max-heap is one with the smallest f-score. */
  function Compare(a: OpenPoint, b: OpenPoint): Ordering
  {
    if b.fScore < a.fScore then Less else if b.fScore == a.fScore then Equal else Greater
  }

  lemma CompareIsReversedOrder(a: OpenPoint, b: OpenPoint, c: OpenPoint)
    ensures Compare(a, b) == Greater <==> a.fScore < b.fScore
    ensures Compare(a, b) == Less <==> Compare(b, a) == Greater
    ensures Compare(a, b) == Equal <==> Compare(b, a) == Equal
    ensures Compare(a, b) != Less && Compare(b, c) != Less ==> Compare(a, c) != Less
  {
  }

  /** Entry `i` is a greatest element of the heap under `Compare`. */
  predicate IsHeapTop(open: seq<OpenPoint>, i: nat)
  {
    i < |open| && forall j :: 0 <= j < |open| ==> Compare(open[i], open[j]) != Less
  }

  /** A greatest entry under the reversed order has the smallest f-score. */
  lemma HeapTopHasMinimalFScore(open: seq<OpenPoint>, i: nat)
    requires IsHeapTop(open, i)
    ensures forall j :: 0 <= j < |open| ==> open[i].fScore <= open[j].fScore
  {
    forall j | 0 <= j < |open| ensures open[i].fScore <= open[j].fScore {
      assert Compare(open[i], open[j]) != Less;
    }
  }

  /** The first entry with the smallest f-score; it witnesses that a
      non-empty heap has a top. */
  function MinIndex(open: seq<OpenPoint>): (i: nat)
    requires open != []
    ensures IsHeapTop(open, i)
  {
    if |open| == 1 then 0
    else
      var j := MinIndex(open[1..]);
      if open[0].fScore <= open[1..][j].fScore then 0 else j + 1
  }

  // ------------------------------------------------------------------ grid

  predicate InGrid(grid: Grid, p: Point) {
    0 <= p.y < |grid| && 0 <= p.x < |grid[p.y]|
  }

  /** Every row as long as the number of rows: the puzzle's grids. The
      search reads only the first |grid| cells of each row, so longer rows
      after the first would not change it; the model leaves them out. */
  predicate Square(grid: Grid) {
    |grid| >= 1 && forall y :: 0 <= y < |grid| ==> |grid[y]| == |grid|
  }

  predicate PositiveCosts(grid: Grid) {
    forall y, x :: 0 <= y < |grid| && 0 <= x < |grid[y]| ==> grid[y][x] >= 1
  }

  function Cost(grid: Grid, p: Point): nat
    requires InGrid(grid, p)
  {
    grid[p.y][p.x]
  }

  ghost function Cells(grid: Grid): set<Point>
  {
    set y, x | 0 <= y < |grid| && 0 <= x < |grid[y]| :: Point(x, y)
  }

  lemma InCells(grid: Grid, p: Point)
    ensures p in Cells(grid) <==> InGrid(grid, p)
  {
    if InGrid(grid, p) { assert Point(p.x, p.y) in Cells(grid); }
  }

  function Start(): Point { Point(0, 0) }

  /** `destination`: x from the width of row 0, y from the number of rows. */
  function Destination(grid: Grid): Point
    requires |grid| >= 1
  {
    Point(|grid[0]| - 1, |grid| - 1)
  }

  function Heuristic(grid: Grid, p: Point): nat
    requires |grid| >= 1
  {
    ManhattanDistance(p, Destination(grid))
  }

  /** The neighbours pushed for `c`, as written: x is bounded by the number
      of rows and y by the length of row 0. */
  function Neighbours(grid: Grid, c: Point): seq<Point>
    requires |grid| >= 1
  {
    (if c.x > 0 then [Point(c.x - 1, c.y)] else [])
    + (if c.x < |grid| - 1 then [Point(c.x + 1, c.y)] else [])
    + (if c.y > 0 then [Point(c.x, c.y - 1)] else [])
    + (if c.y < |grid[0]| - 1 then [Point(c.x, c.y + 1)] else [])
  }

  /** On a square grid every generated neighbour is a 4-adjacent cell of the
      grid, and every 4-adjacent cell of the grid is generated. */
  lemma NeighboursOfSquareGrid(grid: Grid, c: Point)
    requires Square(grid) && InGrid(grid, c)
    ensures forall n :: n in Neighbours(grid, c) ==> InGrid(grid, n) && Adjacent(c, n)
    ensures forall n :: InGrid(grid, n) && Adjacent(c, n) ==> n in Neighbours(grid, c)
    ensures c !in Neighbours(grid, c)
  {
  }

  /** On a grid that is wider than it is tall, a neighbour outside the grid
      is generated: a single row of two cells sends (0,0) to (0,1). */
  lemma NonSquareGridEscapes()
    ensures var grid: Grid := [[1, 1]];
            Point(0, 1) in Neighbours(grid, Point(0, 0)) && !InGrid(grid, Point(0, 1))
  {
  }

  // ------------------------------------------------------- search state

  /** The four pieces of state `find_shortest_path` mutates: the open list
      and the predecessor, g-score and f-score maps. */
  datatype Search = Search(open: seq<OpenPoint>, cameFrom: map<Point, Point>,
                           gScore: map<Point, nat>, fScore: map<Point, int>)

  /** The cells of the open list, entry by entry. */
  function OpenCells(open: seq<OpenPoint>): (cells: seq<Point>)
    ensures |cells| == |open|
    ensures forall k :: 0 <= k < |open| ==> cells[k] == ToPoint(open[k])
  {
    seq(|open|, k requires 0 <= k < |open| => ToPoint(open[k]))
  }

  /** The scan of the open list for an entry at cell `p`. */
  predicate InOpen(open: seq<OpenPoint>, p: Point) {
    p in OpenCells(open)
  }

  /** The sum of all g-scores: the second component of the search's
      termination measure. */
  ghost function Potential(g: map<Point, nat>): nat
  {
    var f := (p: Point) => if p in g then g[p] as int else 0;
    SetSumNonNegative(g.Keys, f);
    SetSum(g.Keys, f)
  }

  lemma PotentialDecreases(g: map<Point, nat>, k: Point, v: nat)
    requires k in g && v < g[k]
    ensures Potential(g[k := v]) < Potential(g)
  {
    var g' := g[k := v];
    assert g'.Keys == g.Keys;
    SetSumUpdate(g.Keys, (p: Point) => if p in g then g[p] as int else 0,
                 (p: Point) => if p in g' then g'[p] as int else 0, k);
  }

  /** The tentative g-score of `neighbour` through `current`. */
  function Tentative(grid: Grid, current: Point, neighbour: Point, s: Search): nat
    requires InGrid(grid, neighbour) && current in s.gScore
  {
    s.gScore[current] + Cost(grid, neighbour)
  }

  /** The neighbour has no g-score yet, or the tentative one is lower. */
  predicate Improves(grid: Grid, current: Point, neighbour: Point, s: Search)
    requires InGrid(grid, neighbour) && current in s.gScore
  {
    neighbour !in s.gScore || Tentative(grid, current, neighbour, s) < s.gScore[neighbour]
  }

  /** The state after relaxing `neighbour` through `current`: when the
      tentative g-score improves, the predecessor, g-score and f-score are
      rewritten, and the cell is pushed unless the open list already has an
      entry for it (whose f-score then stays stale). */
  function Relaxed(grid: Grid, current: Point, neighbour: Point, s: Search): Search
    requires |grid| >= 1 && InGrid(grid, neighbour) && current in s.gScore
  {
    if !Improves(grid, current, neighbour, s) then s
    else
      var g := Tentative(grid, current, neighbour, s);
      var f := g + Heuristic(grid, neighbour);
      Search(if InOpen(s.open, neighbour) then s.open else s.open + [OpenPoint(neighbour.x, neighbour.y, f)],
             s.cameFrom[neighbour := current], s.gScore[neighbour := g], s.fScore[neighbour := f])
  }

  /** The body of the neighbour loop. */
  method Relax(grid: Grid, current: Point, neighbour: Point, s: Search) returns (s': Search)
    requires |grid| >= 1 && InGrid(grid, neighbour) && current in s.gScore
    ensures s' == Relaxed(grid, current, neighbour, s)
  {
    var tentative := s.gScore[current] + Cost(grid, neighbour);
    var open, cameFrom, gScore, fScore := s.open, s.cameFrom, s.gScore, s.fScore;
    if neighbour !in gScore || tentative < gScore[neighbour] {
      cameFrom := cameFrom[neighbour := current];
      gScore := gScore[neighbour := tentative];
      var f := tentative + Heuristic(grid, neighbour);
      fScore := fScore[neighbour := f];
      var k := 0;
      var found := false;
      while k < |open| && !found
        invariant 0 <= k <= |open|
        invariant found <==> neighbour in OpenCells(open)[..k]
      {
        found := open[k].x == neighbour.x && open[k].y == neighbour.y;
        assert OpenCells(open)[..k + 1] == OpenCells(open)[..k] + [ToPoint(open[k])];
        k := k + 1;
      }
      assert !found ==> OpenCells(open)[..k] == OpenCells(open);
      if !found {
        open := open + [OpenPoint(neighbour.x, neighbour.y, f)];
      }
    }
    s' := Search(open, cameFrom, gScore, fScore);
  }

  /** Relaxing only ever lowers g-scores; a predecessor is rewritten only
      together with a strictly lower (or first) g-score for the same cell,
      and then points at `current`; nothing but `neighbour` changes. */
  lemma RelaxedMonotone(grid: Grid, current: Point, neighbour: Point, s: Search)
    requires |grid| >= 1 && InGrid(grid, neighbour) && current in s.gScore
    ensures var s' := Relaxed(grid, current, neighbour, s);
            && s'.gScore.Keys == s.gScore.Keys + {neighbour}
            && s'.gScore[neighbour] <= Tentative(grid, current, neighbour, s)
            && (forall p :: p in s.gScore ==> s'.gScore[p] <= s.gScore[p])
            && (forall p :: p in s'.cameFrom && (p !in s.cameFrom || s'.cameFrom[p] != s.cameFrom[p]) ==>
                  p == neighbour && s'.cameFrom[p] == current && (p !in s.gScore || s'.gScore[p] < s.gScore[p]))
            && (forall p :: p != neighbour ==>
                  (p in s'.gScore <==> p in s.gScore) && (p in s.gScore ==> s'.gScore[p] == s.gScore[p])
                  && (p in s'.cameFrom <==> p in s.cameFrom) && (p in s.cameFrom ==> s'.cameFrom[p] == s.cameFrom[p]))
  {
  }

  /** The predecessor links the search keeps: every cell other than the
      start that has a g-score has a predecessor, 4-adjacent to it, and
      with a g-score lower by at least the cell's cost. */
  ghost predicate LinksConsistent(grid: Grid, cameFrom: map<Point, Point>, gScore: map<Point, nat>)
  {
    && Start() in gScore && gScore[Start()] == 0
    && (forall p :: p in gScore ==> InGrid(grid, p))
    && cameFrom.Keys == gScore.Keys - {Start()}
    && (forall n :: n in cameFrom ==>
          && cameFrom[n] in gScore
          && Adjacent(n, cameFrom[n])
          && gScore[cameFrom[n]] + Cost(grid, n) <= gScore[n])
  }

  /** Every open entry is at a cell with a g-score, one entry per cell. */
  ghost predicate OpenTracked(open: seq<OpenPoint>, gScore: map<Point, nat>)
  {
    && (forall k :: 0 <= k < |open| ==> ToPoint(open[k]) in gScore)
    && (forall i, j :: 0 <= i < j < |open| ==> ToPoint(open[i]) != ToPoint(open[j]))
  }

  /** Every cell with a g-score is open or already expanded. */
  ghost predicate Covered(open: seq<OpenPoint>, gScore: map<Point, nat>, expanded: set<Point>)
  {
    forall p :: p in gScore ==> InOpen(open, p) || p in expanded
  }

  /** Every expanded cell, save those in `pending`, has its neighbours scored. */
  ghost predicate ClosedExcept(grid: Grid, gScore: map<Point, nat>, expanded: set<Point>, pending: set<Point>)
    requires |grid| >= 1
  {
    forall p :: p in expanded && p !in pending ==> p in gScore && forall n :: n in Neighbours(grid, p) ==> n in gScore
  }

  /** The f-score of the start is 0 and of any other scored cell its
      g-score plus the distance to the destination. */
  ghost predicate FScoresMatch(grid: Grid, gScore: map<Point, nat>, fScore: map<Point, int>)
    requires |grid| >= 1
  {
    && fScore.Keys == gScore.Keys && Start() in fScore && fScore[Start()] == 0
    && (forall p :: p in fScore && p != Start() ==> fScore[p] == gScore[p] + Heuristic(grid, p))
  }

  /** Invariant of the search loop; `expanded` is the ghost set of cells
      whose neighbours have been relaxed. */
  ghost predicate SearchInvariant(grid: Grid, s: Search, expanded: set<Point>)
    requires |grid| >= 1
  {
    && LinksConsistent(grid, s.cameFrom, s.gScore)
    && OpenTracked(s.open, s.gScore)
    && Covered(s.open, s.gScore, expanded)
    && ClosedExcept(grid, s.gScore, expanded, {})
    && Destination(grid) !in expanded
  }

  lemma RelaxPreservesLinks(grid: Grid, current: Point, neighbour: Point, s: Search)
    requires |grid| >= 1 && InGrid(grid, neighbour) && current in s.gScore
    requires Adjacent(neighbour, current) && PositiveCosts(grid)
    requires LinksConsistent(grid, s.cameFrom, s.gScore)
    ensures LinksConsistent(grid, Relaxed(grid, current, neighbour, s).cameFrom, Relaxed(grid, current, neighbour, s).gScore)
  {
    if Improves(grid, current, neighbour, s) {
      assert neighbour != Start();
      var g := Tentative(grid, current, neighbour, s);
      var cameFrom, gScore := s.cameFrom[neighbour := current], s.gScore[neighbour := g];
      assert cameFrom.Keys == gScore.Keys - {Start()};
      forall m | m in cameFrom
        ensures cameFrom[m] in gScore && Adjacent(m, cameFrom[m]) && gScore[cameFrom[m]] + Cost(grid, m) <= gScore[m]
      {
        if m != neighbour {
          assert m in s.cameFrom && s.cameFrom[m] in s.gScore;
        }
      }
      assert LinksConsistent(grid, cameFrom, gScore);
    }
  }

  lemma RelaxPreservesOpen(grid: Grid, current: Point, neighbour: Point, s: Search, expanded: set<Point>)
    requires |grid| >= 1 && InGrid(grid, neighbour) && current in s.gScore
    requires OpenTracked(s.open, s.gScore) && Covered(s.open, s.gScore, expanded)
    ensures var s' := Relaxed(grid, current, neighbour, s);
            OpenTracked(s'.open, s'.gScore) && Covered(s'.open, s'.gScore, expanded)
  {
    var s' := Relaxed(grid, current, neighbour, s);
    if Improves(grid, current, neighbour, s) && !InOpen(s.open, neighbour) {
      assert OpenCells(s'.open) == OpenCells(s.open) + [neighbour];
      forall i, j | 0 <= i < j < |s'.open| ensures ToPoint(s'.open[i]) != ToPoint(s'.open[j]) {
        if j == |s.open| {
          assert OpenCells(s.open)[i] == ToPoint(s.open[i]);
        }
      }
    }
  }

  lemma RelaxPreservesClosed(grid: Grid, current: Point, neighbour: Point, s: Search,
                             expanded: set<Point>, pending: set<Point>)
    requires |grid| >= 1 && InGrid(grid, neighbour) && current in s.gScore
    requires ClosedExcept(grid, s.gScore, expanded, pending)
    ensures var s' := Relaxed(grid, current, neighbour, s);
            && ClosedExcept(grid, s'.gScore, expanded, pending)
            && neighbour in s'.gScore && s.gScore.Keys <= s'.gScore.Keys
  {
  }

  /** Relaxing keeps every f-score equal to the g-score plus the distance
      to the destination, and the start's at 0 (a neighbour never improves
      on the start's g-score of 0 when costs are positive). */
  lemma RelaxPreservesFScores(grid: Grid, current: Point, neighbour: Point, s: Search)
    requires |grid| >= 1 && InGrid(grid, neighbour) && current in s.gScore && PositiveCosts(grid)
    requires Start() in s.gScore && s.gScore[Start()] == 0
    requires FScoresMatch(grid, s.gScore, s.fScore)
    ensures var s' := Relaxed(grid, current, neighbour, s);
            FScoresMatch(grid, s'.gScore, s'.fScore)
  {
  }

  /** Each relaxation either scores a new cell, lowers the sum of g-scores,
      or leaves the state as it was. */
  lemma RelaxProgress(grid: Grid, current: Point, neighbour: Point, s: Search)
    requires |grid| >= 1 && InGrid(grid, neighbour) && current in s.gScore
    ensures var s' := Relaxed(grid, current, neighbour, s);
            || s'.gScore.Keys != s.gScore.Keys
            || Potential(s'.gScore) < Potential(s.gScore)
            || s' == s
  {
    if Improves(grid, current, neighbour, s) && neighbour in s.gScore {
      PotentialDecreases(s.gScore, neighbour, Tentative(grid, current, neighbour, s));
    }
  }

  /** The cells of the open list after removing entry `i`. */
  lemma WithoutCells(open: seq<OpenPoint>, i: nat)
    requires i < |open|
    ensures OpenCells(Without(open, i)) == OpenCells(open)[..i] + OpenCells(open)[i + 1..]
  {
  }

  /** After popping entry `i`, its cell has no entry left and the
      remaining entries are still one per scored cell. */
  lemma PopKeepsTracked(s: Search, i: nat)
    requires i < |s.open| && OpenTracked(s.open, s.gScore)
    ensures var c := ToPoint(s.open[i]);
            c in s.gScore && !InOpen(Without(s.open, i), c) && OpenTracked(Without(s.open, i), s.gScore)
  {
    var c := ToPoint(s.open[i]);
    var rest := Without(s.open, i);
    var cells := OpenCells(s.open);
    WithoutCells(s.open, i);
    forall k | 0 <= k < |rest| ensures OpenCells(rest)[k] != c {
      assert OpenCells(rest)[k] == cells[if k < i then k else k + 1];
    }
    forall j, k | 0 <= j < k < |rest| ensures ToPoint(rest[j]) != ToPoint(rest[k]) {
      assert OpenCells(rest)[j] == cells[if j < i then j else j + 1];
      assert OpenCells(rest)[k] == cells[if k < i then k else k + 1];
    }
  }

  /** After popping entry `i` and marking its cell expanded, every scored
      cell is still open or expanded. */
  lemma PopKeepsCovered(s: Search, expanded: set<Point>, i: nat)
    requires i < |s.open| && Covered(s.open, s.gScore, expanded)
    ensures Covered(Without(s.open, i), s.gScore, expanded + {ToPoint(s.open[i])})
  {
    var c := ToPoint(s.open[i]);
    var cells := OpenCells(s.open);
    WithoutCells(s.open, i);
    assert cells == cells[..i] + [c] + cells[i + 1..];
    forall p | p in s.gScore ensures InOpen(Without(s.open, i), p) || p in expanded + {c} {
      if InOpen(s.open, p) && p != c {
        assert p in cells[..i] + [c] + cells[i + 1..];
      }
    }
  }

  /** Once every neighbour of the pending cell is scored, nothing is pending. */
  lemma CloseExpanded(grid: Grid, gScore: map<Point, nat>, expanded: set<Point>, c: Point)
    requires |grid| >= 1 && c in gScore
    requires ClosedExcept(grid, gScore, expanded, {c})
    requires forall n :: n in Neighbours(grid, c) ==> n in gScore
    ensures ClosedExcept(grid, gScore, expanded, {})
  {
  }

  // ----------------------------------------------------- path read-back

  /** `reconstruct_path`: the list headed by `current`, each element the
      predecessor of the one before, stopping before `start`. `rank` is a
      measure that strictly decreases along predecessor links (the search
      passes its g-scores). */
  method ReconstructPath(cameFrom: map<Point, Point>, current: Point, start: Point, ghost rank: map<Point, nat>)
    returns (path: seq<Point>)
    requires current in cameFrom
    requires forall n :: n in cameFrom ==>
               n in rank && (cameFrom[n] != start ==> cameFrom[n] in cameFrom && cameFrom[n] in rank && rank[cameFrom[n]] < rank[n])
    ensures |path| >= 1 && path[0] == current
    ensures forall i :: 0 <= i < |path| ==> path[i] in cameFrom
    ensures forall i :: 0 <= i < |path| - 1 ==> path[i + 1] == cameFrom[path[i]]
    ensures cameFrom[path[|path| - 1]] == start
    ensures forall i :: 1 <= i < |path| ==> path[i] != start
    ensures forall i, j :: 0 <= i < j < |path| ==> rank[path[j]] < rank[path[i]]
  {
    path := [current];
    var cur := current;
    while true
      invariant cur in cameFrom && cur in rank
      invariant |path| >= 1 && path[0] == current && path[|path| - 1] == cur
      invariant forall i :: 0 <= i < |path| ==> path[i] in cameFrom
      invariant forall i :: 0 <= i < |path| - 1 ==> path[i + 1] == cameFrom[path[i]]
      invariant forall i :: 1 <= i < |path| ==> path[i] != start
      invariant forall i, j :: 0 <= i < j < |path| ==> rank[path[j]] < rank[path[i]]
      decreases rank[cur]
    {
      var next := cameFrom[cur];
      if next == start {
        break;
      }
      path := path + [next];
      cur := next;
    }
  }

  /** A path as the search returns it: from the destination back to a
      neighbour of the start, every step 4-adjacent, inside the grid,
      without repeated cells and without the start itself. */
  ghost predicate EnteredPath(grid: Grid, path: seq<Point>)
    requires |grid| >= 1
  {
    && |path| >= 1
    && path[0] == Destination(grid)
    && (forall i :: 0 <= i < |path| ==> InGrid(grid, path[i]) && path[i] != Start())
    && (forall i :: 0 <= i < |path| - 1 ==> Adjacent(path[i], path[i + 1]))
    && Adjacent(path[|path| - 1], Start())
    && (forall i, j :: 0 <= i < j < |path| ==> path[i] != path[j])
  }

  /** With positive costs, consistent links decrease the g-score strictly,
      which is what the read-back needs to stop. */
  lemma LinksDecrease(grid: Grid, cameFrom: map<Point, Point>, gScore: map<Point, nat>)
    requires PositiveCosts(grid) && LinksConsistent(grid, cameFrom, gScore)
    ensures forall n :: n in cameFrom ==>
              n in gScore && (cameFrom[n] != Start() ==> cameFrom[n] in cameFrom && cameFrom[n] in gScore && gScore[cameFrom[n]] < gScore[n])
  {
    forall n | n in cameFrom
      ensures n in gScore && (cameFrom[n] != Start() ==> cameFrom[n] in cameFrom && gScore[cameFrom[n]] < gScore[n])
    {
      assert InGrid(grid, n);
    }
  }

  /** A chain read back along consistent links from the destination is a
      path as the search promises. */
  lemma ReadBackIsEnteredPath(grid: Grid, cameFrom: map<Point, Point>, gScore: map<Point, nat>, path: seq<Point>)
    requires |grid| >= 1 && LinksConsistent(grid, cameFrom, gScore)
    requires |path| >= 1 && path[0] == Destination(grid)
    requires forall i :: 0 <= i < |path| ==> path[i] in cameFrom
    requires forall i :: 0 <= i < |path| - 1 ==> path[i + 1] == cameFrom[path[i]]
    requires cameFrom[path[|path| - 1]] == Start()
    requires forall i, j :: 0 <= i < j < |path| ==> gScore[path[j]] < gScore[path[i]]
    ensures EnteredPath(grid, path)
  {
    forall i, j | 0 <= i < j < |path| ensures path[i] != path[j] {
      assert gScore[path[j]] < gScore[path[i]];
    }
    forall k | 0 <= k < |path| - 1 ensures Adjacent(path[k], path[k + 1]) {
      assert path[k] in cameFrom;
    }
    assert path[|path| - 1] in cameFrom;
  }

  // ------------------------------------------------------ reachability

  /** A set of cells that holds the start and every neighbour of each of its
      cells holds every cell of a square grid. */
  lemma {:induction false} ClosedSetCoversGrid(grid: Grid, closed: set<Point>, x: int, y: int)
    requires Square(grid) && Start() in closed
    requires forall p :: p in closed ==> InGrid(grid, p) && forall n :: n in Neighbours(grid, p) ==> n in closed
    requires 0 <= y < |grid| && 0 <= x < |grid|
    ensures Point(x, y) in closed
    decreases x + y
  {
    if x > 0 {
      ClosedSetCoversGrid(grid, closed, x - 1, y);
      assert Point(x, y) in Neighbours(grid, Point(x - 1, y));
    } else if y > 0 {
      ClosedSetCoversGrid(grid, closed, x, y - 1);
      assert Point(x, y) in Neighbours(grid, Point(x, y - 1));
    }
  }

  /** With the open list empty every scored cell is expanded, so the
      expanded cells are closed under neighbours and hold the destination,
      which the search never expands: the search cannot run dry. */
  lemma EmptyOpenReachesDestination(grid: Grid, s: Search, expanded: set<Point>)
    requires Square(grid) && s.open == []
    requires LinksConsistent(grid, s.cameFrom, s.gScore) && Covered(s.open, s.gScore, expanded)
    requires ClosedExcept(grid, s.gScore, expanded, {})
    ensures Destination(grid) in expanded
  {
    assert forall p :: p in s.gScore ==> p in expanded;
    ClosedSetCoversGrid(grid, expanded, |grid| - 1, |grid| - 1);
  }

  // ---------------------------------------------------------- the search

  /** Removing entry `i` of the open list: `BinaryHeap::pop` on a top entry. */
  function Without(open: seq<OpenPoint>, i: nat): seq<OpenPoint>
    requires i < |open|
  {
    open[..i] + open[i + 1..]
  }

  /** The invariant of the neighbour loop: as the search invariant, with
      the cell being expanded still pending. */
  ghost predicate ExpandingInvariant(grid: Grid, s: Search, expanded: set<Point>, c: Point)
    requires |grid| >= 1
  {
    && LinksConsistent(grid, s.cameFrom, s.gScore)
    && OpenTracked(s.open, s.gScore) && Covered(s.open, s.gScore, expanded)
    && ClosedExcept(grid, s.gScore, expanded, {c})
    && c in s.gScore && Destination(grid) !in expanded
  }

  /** One relaxation keeps the neighbour-loop invariant, scores the
      neighbour, and either scores a new cell, lowers the sum of g-scores,
      or leaves the state as it was. */
  lemma RelaxKeepsExpanding(grid: Grid, c: Point, n: Point, s: Search, expanded: set<Point>)
    requires Square(grid) && PositiveCosts(grid) && InGrid(grid, c)
    requires n in Neighbours(grid, c)
    requires ExpandingInvariant(grid, s, expanded, c)
    ensures InGrid(grid, n)
    ensures var s' := Relaxed(grid, c, n, s);
            && ExpandingInvariant(grid, s', expanded, c)
            && s.gScore.Keys <= s'.gScore.Keys && n in s'.gScore
            && (s'.gScore.Keys == s.gScore.Keys ==>
                  Potential(s'.gScore) < Potential(s.gScore) || s' == s)
  {
    NeighboursOfSquareGrid(grid, c);
    RelaxPreservesLinks(grid, c, n, s);
    RelaxPreservesOpen(grid, c, n, s, expanded);
    RelaxPreservesClosed(grid, c, n, s, expanded, {c});
    RelaxProgress(grid, c, n, s);
  }

  /** The loop over the neighbours of the popped cell `c`. Afterwards every
      neighbour of `c` is scored; the state either scores new cells, has a
      lower sum of g-scores, or has an open list no longer than before. */
  method RelaxNeighbours(grid: Grid, c: Point, s: Search, ghost expanded: set<Point>) returns (s': Search)
    requires Square(grid) && PositiveCosts(grid) && InGrid(grid, c)
    requires ExpandingInvariant(grid, s, expanded, c)
    ensures SearchInvariant(grid, s', expanded)
    ensures NoWorse(s, s')
  {
    var neighbours := Neighbours(grid, c);
    s' := s;
    for k := 0 to |neighbours|
      invariant ExpandingInvariant(grid, s', expanded, c)
      invariant forall j :: 0 <= j < k ==> neighbours[j] in s'.gScore
      invariant NoWorse(s, s')
    {
      var n := neighbours[k];
      ghost var prev := s';
      RelaxKeepsExpanding(grid, c, n, s', expanded);
      s' := Relax(grid, c, n, s');
      NoWorseStep(s, prev, s');
      forall j | 0 <= j <= k ensures neighbours[j] in s'.gScore {
        if j < k { assert neighbours[j] in prev.gScore; }
      }
    }
    CloseExpanded(grid, s'.gScore, expanded, c);
  }

  /** `b` scores every cell `a` scores, and when no new cell is scored its
      sum of g-scores is no higher, and when that is equal too its open list
      is no longer. */
  ghost predicate NoWorse(a: Search, b: Search)
  {
    && a.gScore.Keys <= b.gScore.Keys
    && (b.gScore.Keys == a.gScore.Keys ==> Potential(b.gScore) <= Potential(a.gScore))
    && (b.gScore.Keys == a.gScore.Keys && Potential(b.gScore) == Potential(a.gScore) ==> |b.open| <= |a.open|)
  }

  lemma NoWorseStep(a: Search, prev: Search, b: Search)
    requires NoWorse(a, prev) && prev.gScore.Keys <= b.gScore.Keys
    requires b.gScore.Keys == prev.gScore.Keys ==> Potential(b.gScore) < Potential(prev.gScore) || b == prev
    ensures NoWorse(a, b)
  {
  }

  /** Scoring a new cell of the grid shrinks the set of unscored cells. */
  lemma UnscoredShrinks(grid: Grid, keys0: set<Point>, keys1: set<Point>)
    requires keys0 < keys1
    requires forall p :: p in keys1 ==> InGrid(grid, p)
    ensures Cells(grid) - keys1 < Cells(grid) - keys0
  {
    assert keys1 == keys0 + (keys1 - keys0);
    var p :| p in keys1 - keys0;
    InCells(grid, p);
  }

  /** `open_set.pop()`: takes out an entry with the lowest f-score. The
      cell taken out is scored, no longer open, and counts as expanded for
      the coverage of the scored cells. */
  method PopBest(s: Search, ghost expanded: set<Point>) returns (c: Point, s': Search)
    requires s.open != [] && OpenTracked(s.open, s.gScore) && Covered(s.open, s.gScore, expanded)
    ensures exists i: nat :: IsHeapTop(s.open, i) && c == ToPoint(s.open[i]) && s'.open == Without(s.open, i)
    ensures s' == s.(open := s'.open) && |s'.open| == |s.open| - 1
    ensures c in s.gScore && !InOpen(s'.open, c)
    ensures OpenTracked(s'.open, s'.gScore) && Covered(s'.open, s'.gScore, expanded + {c})
  {
    var i: nat :| IsHeapTop(s.open, i) by { assert IsHeapTop(s.open, MinIndex(s.open)); }
    HeapTopHasMinimalFScore(s.open, i);
    c := ToPoint(s.open[i]);
    PopKeepsTracked(s, i);
    PopKeepsCovered(s, expanded, i);
    s' := s.(open := Without(s.open, i));
  }

  /** `reconstruct_path` once the destination is popped: the path read back
      from the destination. */
  method PathTo(grid: Grid, s: Search) returns (path: seq<Point>)
    requires Square(grid) && PositiveCosts(grid) && |grid| >= 2
    requires LinksConsistent(grid, s.cameFrom, s.gScore) && Destination(grid) in s.gScore
    ensures EnteredPath(grid, path)
  {
    LinksDecrease(grid, s.cameFrom, s.gScore);
    path := ReconstructPath(s.cameFrom, Destination(grid), Start(), s.gScore);
    ReadBackIsEnteredPath(grid, s.cameFrom, s.gScore, path);
  }

  /** `find_shortest_path` on a square grid of positive costs with at least
      two cells: it always reaches the destination, and the path it returns
      leads from the destination back to a neighbour of the start. */
  method FindShortestPath(grid: Grid) returns (r: Result<seq<Point>>)
    requires Square(grid) && PositiveCosts(grid) && |grid| >= 2
    ensures r.Ok? && EnteredPath(grid, r.value)
  {
    var dest := Destination(grid);
    var s := Search([OpenPoint(0, 0, 0)], map[], map[Start() := 0], map[Start() := 0]);
    ghost var expanded: set<Point> := {};
    assert OpenCells(s.open) == [Start()];

    while s.open != []
      invariant SearchInvariant(grid, s, expanded)
      decreases Cells(grid) - s.gScore.Keys, Potential(s.gScore), |s.open|
    {
      ghost var before := s;
      var c;
      c, s := PopBest(s, expanded);
      if c == dest {
        var path := PathTo(grid, s);
        return Ok(path);
      }
      expanded := expanded + {c};
      s := RelaxNeighbours(grid, c, s, expanded);
      if s.gScore.Keys != before.gScore.Keys {
        UnscoredShrinks(grid, before.gScore.Keys, s.gScore.Keys);
      } else {
        assert Cells(grid) - s.gScore.Keys == Cells(grid) - before.gScore.Keys;
      }
    }
    EmptyOpenReachesDestination(grid, s, expanded);
    assert false;
    r := Err;
  }

  // ------------------------------------------------------------ answers

  /** The risk of a path: the sum of the costs of the cells it enters. */
  function PathCost(grid: Grid, path: seq<Point>): int
    requires forall i :: 0 <= i < |path| ==> InGrid(grid, path[i])
  {
    if path == [] then 0 else PathCost(grid, path[..|path| - 1]) + Cost(grid, path[|path| - 1])
  }

  /** A returned path costs at least the distance from the start to the
      destination, since every entered cell costs at least one. */
  lemma {:induction false} PathCostAtLeastDistance(grid: Grid, path: seq<Point>)
    requires Square(grid) && PositiveCosts(grid) && EnteredPath(grid, path)
    ensures PathCost(grid, path) >= ManhattanDistance(Start(), Destination(grid))
  {
    PathCostAtLeastLength(grid, path);
    LengthAtLeastDistance(path, |path| - 1);
  }

  lemma {:induction false} PathCostAtLeastLength(grid: Grid, path: seq<Point>)
    requires PositiveCosts(grid)
    requires forall i :: 0 <= i < |path| ==> InGrid(grid, path[i])
    ensures PathCost(grid, path) >= |path|
  {
    if path != [] { PathCostAtLeastLength(grid, path[..|path| - 1]); }
  }

  lemma {:induction false} LengthAtLeastDistance(path: seq<Point>, k: nat)
    requires k < |path|
    requires forall i :: 0 <= i < |path| - 1 ==> Adjacent(path[i], path[i + 1])
    requires Adjacent(path[|path| - 1], Start())
    ensures ManhattanDistance(path[|path| - 1 - k], Start()) <= k + 1
    ensures k == |path| - 1 ==> ManhattanDistance(Start(), path[0]) <= |path|
    decreases k
  {
    if k > 0 {
      LengthAtLeastDistance(path, k - 1);
      ManhattanDistanceProperties(path[|path| - 1 - k], path[|path| - k], Start());
    }
    ManhattanDistanceProperties(Start(), path[0], Start());
  }

  /** Parsing: one row per line of the trimmed input, one digit per cell. */
  function ParseGrid(input: string): (r: Result<Grid>)
    ensures r.Ok? ==> |r.value| == |Text.Lines(Text.Trim(input))|
  {
    ParseRows(Text.Lines(Text.Trim(input)))
  }

  function ParseRows(lines: seq<string>): (r: Result<Grid>)
    ensures r.Ok? <==> forall y :: 0 <= y < |lines| ==> ParseRow(lines[y]).Ok?
    ensures r.Ok? ==> |r.value| == |lines| && forall y :: 0 <= y < |lines| ==> ParseRow(lines[y]) == Ok(r.value[y])
  {
    if lines == [] then Ok([])
    else
      match ParseRow(lines[0])
      case Err => Err
      case Ok(row) =>
        match ParseRows(lines[1..])
        case Err =>
          assert forall y :: 0 <= y < |lines| - 1 ==> lines[1..][y] == lines[y + 1];
          Err
        case Ok(rest) => Ok([row] + rest)
  }

  function ParseRow(line: string): (r: Result<seq<nat>>)
    ensures r.Ok? <==> forall x :: 0 <= x < |line| ==> Text.ToDigit(line[x], 10).Some?
    ensures r.Ok? ==> |r.value| == |line|
    ensures r.Ok? ==> forall x :: 0 <= x < |line| ==> r.value[x] == Text.ToDigit(line[x], 10).value
  {
    if line == [] then Ok([])
    else
      match Text.ToDigit(line[0], 10)
      case None => Err
      case Some(d) =>
        match ParseRow(line[1..])
        case Err =>
          assert forall x :: 0 <= x < |line| - 1 ==> line[1..][x] == line[x + 1];
          Err
        case Ok(rest) => Ok([d] + rest)
  }

  /** The parsing loops of `solve_part1` and `solve_part2`: the first
      character that is not a decimal digit ends the parse with an error. */
  method ReadGrid(input: string) returns (r: Result<Grid>)
    ensures r == ParseGrid(input)
  {
    var lines := Text.Lines(Text.Trim(input));
    var grid: Grid := [];
    for y := 0 to |lines|
      invariant |grid| == y
      invariant forall j :: 0 <= j < y ==> ParseRow(lines[j]) == Ok(grid[j])
    {
      var line := lines[y];
      var row: seq<nat> := [];
      for x := 0 to |line|
        invariant |row| == x
        invariant forall i :: 0 <= i < x ==> Text.ToDigit(line[i], 10) == Some(row[i])
      {
        var d := Text.ToDigit(line[x], 10);
        if d.None? {
          assert ParseRow(lines[y]).Err?;
          return Err;
        }
        row := row + [d.value];
      }
      assert ParseRow(line).Ok?;
      assert ParseRow(line).value == row;
      grid := grid + [row];
    }
    assert ParseRows(lines).Ok?;
    assert ParseRows(lines).value == grid;
    return Ok(grid);
  }

  /** The digits parsed from the input are costs 0..9. */
  lemma ParsedCostsAreDigits(input: string)
    requires ParseGrid(input).Ok?
    ensures var g := ParseGrid(input).value;
            forall y, x :: 0 <= y < |g| && 0 <= x < |g[y]| ==> g[y][x] <= 9
  {
    var lines := Text.Lines(Text.Trim(input));
    var g := ParseGrid(input).value;
    forall y, x | 0 <= y < |g| && 0 <= x < |g[y]| ensures g[y][x] <= 9 {
      assert ParseRow(lines[y]) == Ok(g[y]);
    }
  }

  /** `solve_part1`: parse, search, and add up the costs of the cells the
      returned path enters (the ghost `path`). The total is at least the
      distance between the corners. */
  method SolvePart1(input: string) returns (r: Result<int>, ghost path: seq<Point>)
    requires ParseGrid(input).Ok? ==>
               var g := ParseGrid(input).value;
               Square(g) && PositiveCosts(g) && |g| >= 2
    ensures r.Ok? <==> ParseGrid(input).Ok?
    ensures r.Ok? ==>
              var g := ParseGrid(input).value;
              && EnteredPath(g, path) && r.value == PathCost(g, path)
              && r.value >= 2 * (|g| - 1)
  {
    var grid := ReadGrid(input);
    if grid.Err? {
      return Err, [];
    }
    var found := FindShortestPath(grid.value);
    PathCostAtLeastDistance(grid.value, found.value);
    return Ok(PathCost(grid.value, found.value)), found.value;
  }

  /** `solve_part2`: as part 1 on the grid tiled five times a side. */
  method SolvePart2(input: string) returns (r: Result<int>, ghost path: seq<Point>)
    requires ParseGrid(input).Ok? ==>
               var g := ParseGrid(input).value;
               Square(g) && PositiveCosts(g)
    ensures r.Ok? <==> ParseGrid(input).Ok?
    ensures r.Ok? ==>
              var g := ParseGrid(input).value;
              && |g| >= 1 && TilingDefined(g, 5)
              && (forall e :: IsExpansion(g, 5, e) ==> EnteredPath(e, path) && r.value == PathCost(e, path))
              && r.value >= 2 * (5 * |g| - 1)
  {
    var grid := ReadGrid(input);
    if grid.Err? {
      return Err, [];
    }
    var expanded := ExpandGrid(grid.value, 5);
    ParsedCostsAreDigits(input);
    ExpandedSquare(grid.value, 5, expanded);
    ExpansionUnique(grid.value, 5, expanded);
    var found := FindShortestPath(expanded);
    PathCostAtLeastDistance(expanded, found.value);
    return Ok(PathCost(expanded, found.value)), found.value;
  }

  // ------------------------------------------------------------ tiling

  /** The wrap applied to a tiled cost above 9. */
  function Wrap(v: nat): nat
  {
    if v > 9 then v % 10 + 1 else v
  }

  /** The wrap equals the cyclic reduction into 1..9 for values up to 18
      and differs from it at 19. */
  lemma WrapIsCyclicUpTo18(v: nat)
    requires 1 <= v <= 18
    ensures Wrap(v) == (v - 1) % 9 + 1
    ensures Wrap(19) == 10 && (19 - 1) % 9 + 1 == 1
  {
  }

  /** The cost of cell (x, y) of the tiled grid. */
  function ExpandedCost(grid: Grid, x: nat, y: nat): nat
    requires |grid| >= 1 && |grid[0]| >= 1
    requires forall r :: 0 <= r < |grid| ==> |grid[r]| >= |grid[0]|
  {
    var h, w := |grid|, |grid[0]|;
    Wrap(grid[y % h][x % w] + x / w + y / h)
  }

  /** Rows of the tiled grid reach `|grid[0]| * n` cells each. */
  predicate TilingDefined(grid: Grid, n: nat) {
    n == 0 || |grid| == 0 || forall r :: 0 <= r < |grid| ==> |grid[r]| >= |grid[0]|
  }

  /** `expanded` is the grid tiled `n` times in each direction. */
  predicate IsExpansion(grid: Grid, n: nat, expanded: Grid)
    requires |grid| >= 1 && TilingDefined(grid, n)
  {
    && |expanded| == |grid| * n
    && (forall y :: 0 <= y < |expanded| ==> |expanded[y]| == |grid[0]| * n)
    && (forall y, x :: 0 <= y < |expanded| && 0 <= x < |expanded[y]| ==>
          expanded[y][x] == ExpandedCost(grid, x, y))
  }

  /** `expand_grid`: `|grid| * n` rows of `|grid[0]| * n` cells, each the
      base cost of its tile position raised by the tile distance and wrapped. */
  method ExpandGrid(grid: Grid, n: nat) returns (expanded: Grid)
    requires TilingDefined(grid, n)
    ensures |expanded| == |grid| * n
    ensures |grid| >= 1 ==> IsExpansion(grid, n, expanded)
  {
    expanded := [];
    for y := 0 to |grid| * n
      invariant |expanded| == y
      invariant forall j :: 0 <= j < y ==> |expanded[j]| == |grid[0]| * n
      invariant forall j, x :: 0 <= j < y && 0 <= x < |expanded[j]| ==> expanded[j][x] == ExpandedCost(grid, x, j)
    {
      var row := [];
      for x := 0 to |grid[0]| * n
        invariant |row| == x
        invariant forall i :: 0 <= i < x ==> row[i] == ExpandedCost(grid, i, y)
      {
        var orig := grid[y % |grid|][x % |grid[0]|];
        orig := orig + x / |grid[0]| + y / |grid|;
        if orig > 9 {
          orig := orig % 10 + 1;
        }
        row := row + [orig];
      }
      expanded := expanded + [row];
    }
  }

  /** Tiling once gives back a rectangular grid whose costs are digits. */
  lemma ExpandOnceIsIdentity(grid: Grid)
    requires |grid| >= 1 && |grid[0]| >= 1
    requires forall r :: 0 <= r < |grid| ==> |grid[r]| == |grid[0]|
    requires forall r, c :: 0 <= r < |grid| && 0 <= c < |grid[r]| ==> grid[r][c] <= 9
    ensures IsExpansion(grid, 1, grid)
  {
    forall y, x | 0 <= y < |grid| && 0 <= x < |grid[y]| ensures grid[y][x] == ExpandedCost(grid, x, y) {
      SmallDivMod(x, |grid[0]|);
      SmallDivMod(y, |grid|);
    }
  }

  lemma SmallDivMod(i: nat, w: nat)
    requires i < w
    ensures i / w == 0 && i % w == i
  {
  }

  /** With base costs 1..9 and at most five tiles a side, every tiled cost
      stays in 1..9. */
  lemma ExpandedCostInRange(grid: Grid, n: nat, x: nat, y: nat)
    requires |grid| >= 1 && |grid[0]| >= 1 && 1 <= n <= 5
    requires forall r :: 0 <= r < |grid| ==> |grid[r]| == |grid[0]|
    requires forall r, c :: 0 <= r < |grid| && 0 <= c < |grid[r]| ==> 1 <= grid[r][c] <= 9
    requires y < |grid| * n && x < |grid[0]| * n
    ensures 1 <= ExpandedCost(grid, x, y) <= 9
  {
    var h, w := |grid|, |grid[0]|;
    TileIndexBound(x, w, n);
    TileIndexBound(y, h, n);
    WrapInRange(grid[y % h][x % w], x / w, y / h);
  }

  lemma WrapInRange(base: nat, dx: nat, dy: nat)
    requires 1 <= base <= 9 && dx <= 4 && dy <= 4
    ensures 1 <= Wrap(base + dx + dy) <= 9
  {
  }

  lemma TileIndexBound(i: nat, w: nat, n: nat)
    requires w >= 1 && n >= 1 && i < w * n
    ensures i / w <= n - 1
  {
    var q := i / w;
    assert q * w <= i;
    assert (n - q) * w > 0;
  }

  /** The tiling of a grid is a single grid. */
  lemma ExpansionUnique(grid: Grid, n: nat, expanded: Grid)
    requires |grid| >= 1 && TilingDefined(grid, n) && IsExpansion(grid, n, expanded)
    ensures forall e :: IsExpansion(grid, n, e) ==> e == expanded
  {
    forall e | IsExpansion(grid, n, e) ensures e == expanded {
      forall y | 0 <= y < |e| ensures e[y] == expanded[y] {
      }
    }
  }

  /** Tiling a square grid of positive digit costs at most five times a
      side gives a square grid of positive costs. */
  lemma ExpandedSquare(grid: Grid, n: nat, expanded: Grid)
    requires Square(grid) && PositiveCosts(grid) && 1 <= n <= 5
    requires forall r, c :: 0 <= r < |grid| && 0 <= c < |grid[r]| ==> grid[r][c] <= 9
    requires IsExpansion(grid, n, expanded)
    ensures Square(expanded) && PositiveCosts(expanded) && |expanded| == |grid| * n
  {
    forall y, x | 0 <= y < |expanded| && 0 <= x < |expanded[y]| ensures expanded[y][x] >= 1 {
      ExpandedCostInRange(grid, n, x, y);
    }
  }
}
