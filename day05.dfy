/** Day 5: hydrothermal venture. Rasterises vent lines onto the ocean floor,
    counts how many lines cover each point, and reports the points covered
    by at least two lines. */
module Day05 {
  import opened Wrappers
  import Text

  datatype Point = Point(x: int, y: int)

  /** A vent line from `start` to `end`, both ends included. */
  datatype Vent = Vent(start: Point, end: Point)

  // --- Parsing -------------------------------------------------------------

  function Coordinate(s: string): Option<int> {
    Text.ParseInt(s, Text.I32_MIN, Text.I32_MAX)
  }

  /** "x,y", read as the source reads it: the first piece before ',' is
      parsed first, and only then is the second piece unwrapped. */
  function ReadPoint(s: string): Reading<Point>
  {
    var parts := Text.Split(s, ",");
    match Coordinate(parts[0])
    case None => Invalid
    case Some(x) =>
      if |parts| < 2 then Panics
      else
        match Coordinate(parts[1])
        case None => Invalid
        case Some(y) => Read(Point(x, y))
  }

  /** One line "x1,y1 -> x2,y2" of `parse_vents`. The start point is read
      before the end point is unwrapped; pieces beyond the second are
      ignored. */
  function ReadVent(line: string): Reading<Vent>
  {
    var parts := Text.Split(line, " -> ");
    match ReadPoint(parts[0])
    case Invalid => Invalid
    case Panics => Panics
    case Read(start) =>
      if |parts| < 2 then Panics
      else
        match ReadPoint(parts[1])
        case Invalid => Invalid
        case Panics => Panics
        case Read(end) => Read(Vent(start, end))
  }

  /** `parse_vents` over the lines. */
  function ReadVents(lines: seq<string>): Reading<seq<Vent>> {
    Collect(seq(|lines|, i requires 0 <= i < |lines| => ReadVent(lines[i])))
  }

  /** The lines give vents exactly when every line gives one, and then the
      vents are those of the lines, in order. */
  lemma ReadVentsReadsEachLine(lines: seq<string>)
    ensures ReadVents(lines).Read? <==> forall i :: 0 <= i < |lines| ==> ReadVent(lines[i]).Read?
    ensures ReadVents(lines).Read? ==> |ReadVents(lines).value| == |lines|
    ensures ReadVents(lines).Read? ==> forall i :: 0 <= i < |lines| ==> ReadVent(lines[i]) == Read(ReadVents(lines).value[i])
  {
    var rs := seq(|lines|, i requires 0 <= i < |lines| => ReadVent(lines[i]));
    CollectReadsEach(rs);
    assert ReadVents(lines) == Collect(rs);
    assert forall i :: 0 <= i < |lines| ==> rs[i] == ReadVent(lines[i]);
  }

  function InputLines(input: string): seq<string> {
    Text.Lines(Text.Trim(input))
  }

  // --- Which points a vent covers -------------------------------------------

  function Abs(n: int): nat {
    if n < 0 then -n else n
  }

  function Min(a: int, b: int): int {
    if a <= b then a else b
  }

  function Max(a: int, b: int): int {
    if a <= b then b else a
  }

  predicate Vertical(v: Vent) {
    v.start.x == v.end.x
  }

  predicate Horizontal(v: Vent) {
    !Vertical(v) && v.start.y == v.end.y
  }

  predicate Diagonal(v: Vent) {
    !Vertical(v) && !Horizontal(v)
  }

  /** How many x-steps from the start `p` lies in the direction of the end. */
  function StepsFromStart(v: Vent, p: Point): int {
    if v.end.x > v.start.x then p.x - v.start.x else v.start.x - p.x
  }

  /** The `k`-th point the diagonal walk visits: x and y each move one unit
      per step, x towards the end and y up when the end is higher, down
      otherwise. */
  function DiagonalPoint(v: Vent, k: int): Point {
    Point(if v.end.x > v.start.x then v.start.x + k else v.start.x - k,
          if v.end.y > v.start.y then v.start.y + k else v.start.y - k)
  }

  /** Whether the walk visits `p` within its first `n` steps. */
  predicate OnWalk(v: Vent, p: Point, n: int) {
    var k := StepsFromStart(v, p);
    0 <= k < n && p == DiagonalPoint(v, k)
  }

  /** The points `get_covered_points` counts for one vent: a vertical or
      horizontal line covers every point between its ends, whatever its
      direction; any other line is walked from the start, one step on each
      axis at a time, until x passes the end, covering |dx| + 1 points. */
  predicate Covers(v: Vent, p: Point) {
    if Vertical(v) then p.x == v.start.x && Min(v.start.y, v.end.y) <= p.y <= Max(v.start.y, v.end.y)
    else if Horizontal(v) then p.y == v.start.y && Min(v.start.x, v.end.x) <= p.x <= Max(v.start.x, v.end.x)
    else OnWalk(v, p, Abs(v.end.x - v.start.x) + 1)
  }

  /** The covered points of a vent, listed from the lower (or first) end. */
  function Points(v: Vent): seq<Point> {
    if Vertical(v) then
      var lo := Min(v.start.y, v.end.y);
      seq(Max(v.start.y, v.end.y) - lo + 1, k => Point(v.start.x, lo + k))
    else if Horizontal(v) then
      var lo := Min(v.start.x, v.end.x);
      seq(Max(v.start.x, v.end.x) - lo + 1, k => Point(lo + k, v.start.y))
    else
      seq(Abs(v.end.x - v.start.x) + 1, k => DiagonalPoint(v, k))
  }

  /** `Points` lists exactly the covered points, each once: a vertical line
      covers |dy| + 1 points and any other line |dx| + 1. */
  lemma PointsAreCovered(v: Vent)
    ensures |Points(v)| == if Vertical(v) then Abs(v.end.y - v.start.y) + 1 else Abs(v.end.x - v.start.x) + 1
    ensures forall p :: Covers(v, p) <==> p in Points(v)
    ensures forall i, j :: 0 <= i < j < |Points(v)| ==> Points(v)[i] != Points(v)[j]
  {
    var ps := Points(v);
    forall p | Covers(v, p) ensures p in ps {
      if Vertical(v) {
        assert p == ps[p.y - Min(v.start.y, v.end.y)];
      } else if Horizontal(v) {
        assert p == ps[p.x - Min(v.start.x, v.end.x)];
      } else {
        assert p == ps[StepsFromStart(v, p)];
      }
    }
    forall p | p in ps ensures Covers(v, p) {
      var k :| 0 <= k < |ps| && ps[k] == p;
      if Diagonal(v) {
        assert StepsFromStart(v, p) == k;
      }
    }
  }

  /** A vertical or horizontal line, or a diagonal at exactly 45 degrees,
      covers the same points whichever end it starts from. */
  lemma CoverageIgnoresDirection(v: Vent, p: Point)
    requires Diagonal(v) ==> Abs(v.end.x - v.start.x) == Abs(v.end.y - v.start.y)
    ensures Covers(v, p) <==> Covers(Vent(v.end, v.start), p)
  {
    var w := Vent(v.end, v.start);
    if Diagonal(v) {
      var n := Abs(v.end.x - v.start.x);
      if OnWalk(v, p, n + 1) {
        assert StepsFromStart(w, p) == n - StepsFromStart(v, p);
      }
      if OnWalk(w, p, n + 1) {
        assert StepsFromStart(v, p) == n - StepsFromStart(w, p);
      }
    }
  }

  /** A diagonal walk that is not at 45 degrees still takes |dx| + 1 steps,
      so it does not end at the end point: from (0,0) to (2,1) it covers
      (0,0), (1,1) and (2,2). */
  lemma SteepnessIgnored()
    ensures var v := Vent(Point(0, 0), Point(2, 1));
            Points(v) == [Point(0, 0), Point(1, 1), Point(2, 2)] && !Covers(v, Point(2, 1))
  {
    var v := Vent(Point(0, 0), Point(2, 1));
    PointsAreCovered(v);
  }

  // --- Counting coverage -----------------------------------------------------

  /** The number of vents that cover `p`. */
  function Coverage(vents: seq<Vent>, p: Point): (n: nat)
    ensures n <= |vents|
  {
    if vents == [] then 0
    else Coverage(vents[..|vents| - 1], p) + (if Covers(vents[|vents| - 1], p) then 1 else 0)
  }

  /** The count stored for `p`, with an absent entry counting 0. */
  function Count(m: map<Point, int>, p: Point): int {
    if p in m then m[p] else 0
  }

  /** Every stored count is at least 1. */
  predicate Positive(m: map<Point, int>) {
    forall p :: p in m ==> m[p] >= 1
  }

  /** `m` holds, for every point, the number of vents covering it, and no
      entry for the points no vent covers. */
  ghost predicate Tallies(m: map<Point, int>, vents: seq<Vent>) {
    Positive(m) && forall p :: Count(m, p) == Coverage(vents, p)
  }

  /** `entry(p).or_insert(0)` followed by `+= 1`. */
  function Bump(m: map<Point, int>, p: Point): (m': map<Point, int>)
    requires Positive(m)
    ensures Positive(m') && p in m'
    ensures forall q :: Count(m', q) == Count(m, q) + (if q == p then 1 else 0)
  {
    m[p := Count(m, p) + 1]
  }

  /** The loop over `lo..=hi` of a vertical line at column `x`. */
  method CoverColumn(m: map<Point, int>, x: int, lo: int, hi: int) returns (m': map<Point, int>)
    requires Positive(m)
    ensures Positive(m')
    ensures forall p :: Count(m', p) == Count(m, p) + (if p.x == x && lo <= p.y <= hi then 1 else 0)
  {
    m' := m;
    if lo > hi {
      return;
    }
    for y := lo to hi + 1
      invariant Positive(m')
      invariant forall p :: Count(m', p) == Count(m, p) + (if p.x == x && lo <= p.y < y then 1 else 0)
    {
      m' := Bump(m', Point(x, y));
    }
  }

  /** The loop over `lo..=hi` of a horizontal line at row `y`. */
  method CoverRow(m: map<Point, int>, y: int, lo: int, hi: int) returns (m': map<Point, int>)
    requires Positive(m)
    ensures Positive(m')
    ensures forall p :: Count(m', p) == Count(m, p) + (if p.y == y && lo <= p.x <= hi then 1 else 0)
  {
    m' := m;
    if lo > hi {
      return;
    }
    for x := lo to hi + 1
      invariant Positive(m')
      invariant forall p :: Count(m', p) == Count(m, p) + (if p.y == y && lo <= p.x < x then 1 else 0)
    {
      m' := Bump(m', Point(x, y));
    }
  }

  /** The `while` loop of a line that is neither vertical nor horizontal:
      x and y step together until x passes the end. */
  method CoverDiagonal(m: map<Point, int>, v: Vent) returns (m': map<Point, int>)
    requires Positive(m) && Diagonal(v)
    ensures Positive(m')
    ensures forall p :: Count(m', p) == Count(m, p) + (if Covers(v, p) then 1 else 0)
  {
    var x := v.start.x;
    var y := v.start.y;
    var dx := v.end.x - v.start.x;
    var dy := v.end.y - v.start.y;
    ghost var k := 0;
    m' := m;
    while (dx > 0 && x <= v.end.x) || (dx < 0 && x >= v.end.x)
      invariant 0 <= k <= Abs(dx) + 1
      invariant Point(x, y) == DiagonalPoint(v, k)
      invariant Positive(m')
      invariant forall p :: Count(m', p) == Count(m, p) + (if OnWalk(v, p, k) then 1 else 0)
      decreases Abs(dx) + 1 - k
    {
      m' := Bump(m', Point(x, y));
      if dx > 0 {
        x := x + 1;
      } else {
        x := x - 1;
      }
      if dy > 0 {
        y := y + 1;
      } else {
        y := y - 1;
      }
      k := k + 1;
    }
  }

  /** The body of the loop over the vents in `get_covered_points`: one more
      vent covers its points. */
  method CoverVent(m: map<Point, int>, v: Vent) returns (m': map<Point, int>)
    requires Positive(m)
    ensures Positive(m')
    ensures forall p :: Count(m', p) == Count(m, p) + (if Covers(v, p) then 1 else 0)
  {
    if v.start.x == v.end.x {
      if v.start.y <= v.end.y {
        m' := CoverColumn(m, v.start.x, v.start.y, v.end.y);
      } else {
        m' := CoverColumn(m, v.start.x, v.end.y, v.start.y);
      }
    } else if v.start.y == v.end.y {
      if v.start.x <= v.end.x {
        m' := CoverRow(m, v.start.y, v.start.x, v.end.x);
      } else {
        m' := CoverRow(m, v.start.y, v.end.x, v.start.x);
      }
    } else {
      m' := CoverDiagonal(m, v);
    }
  }

  /** `get_covered_points`: every covered point maps to the number of vents
      covering it, and no other point has an entry. */
  method GetCoveredPoints(vents: seq<Vent>) returns (covered: map<Point, int>)
    ensures Tallies(covered, vents)
    ensures forall p :: p in covered <==> Coverage(vents, p) >= 1
  {
    covered := map[];
    for i := 0 to |vents|
      invariant Tallies(covered, vents[..i])
    {
      covered := CoverVent(covered, vents[i]);
      assert vents[..i + 1][..i] == vents[..i];
    }
    assert vents[..|vents|] == vents;
  }

  // --- Overlaps --------------------------------------------------------------

  /** The stored counts of at least 2, counted as `filter(..).count()` does. */
  function Overlaps(m: map<Point, int>): (n: nat)
    ensures n <= |m|
  {
    var twice := set p | p in m && m[p] >= 2;
    assert twice <= m.Keys;
    Cardinality(twice, m.Keys);
    |twice|
  }

  lemma Cardinality<T>(a: set<T>, b: set<T>)
    requires a <= b
    ensures |a| <= |b|
  {
    assert b == a + (b - a);
  }

  /** All the points some vent covers. */
  function Span(vents: seq<Vent>): (s: set<Point>) {
    if vents == [] then {}
    else
      var ps := Points(vents[|vents| - 1]);
      Span(vents[..|vents| - 1]) + set i | 0 <= i < |ps| :: ps[i]
  }

  /** The points where at least two lines overlap. */
  function Dangerous(vents: seq<Vent>): set<Point> {
    set p | p in Span(vents) && Coverage(vents, p) >= 2
  }

  /** A point is covered by some vent exactly when it lies in the span. */
  lemma {:induction false} SpanIsCovered(vents: seq<Vent>, p: Point)
    ensures p in Span(vents) <==> Coverage(vents, p) >= 1
  {
    if vents != [] {
      SpanIsCovered(vents[..|vents| - 1], p);
      PointsAreCovered(vents[|vents| - 1]);
    }
  }

  /** Counting the stored counts of at least 2 counts the dangerous points. */
  lemma OverlapsAreDangerous(m: map<Point, int>, vents: seq<Vent>)
    requires Tallies(m, vents)
    ensures Overlaps(m) == |Dangerous(vents)|
  {
    forall p ensures (p in m && m[p] >= 2) <==> p in Dangerous(vents) {
      SpanIsCovered(vents, p);
      assert Count(m, p) == Coverage(vents, p);
    }
    assert (set p | p in m && m[p] >= 2) == Dangerous(vents);
  }

  /** The vents of part 1: the vertical and horizontal ones, in order. */
  function AxisAligned(vents: seq<Vent>): (r: seq<Vent>)
    ensures |r| <= |vents|
    ensures forall v :: v in r <==> v in vents && !Diagonal(v)
  {
    if vents == [] then []
    else
      var v := vents[|vents| - 1];
      AxisAligned(vents[..|vents| - 1]) + (if Diagonal(v) then [] else [v])
  }

  /** `solve_part1` and `solve_part2`: the number of points covered by at
      least two vents, counting only vertical and horizontal vents in part
      1. A line with a missing piece panics unless an earlier line already
      failed. */
  method Solve(input: string, diagonals: bool) returns (r: Result<int>)
    requires !ReadVents(InputLines(input)).Panics?
    ensures r.Ok? <==> ReadVents(InputLines(input)).Read?
    ensures r.Ok? ==> var vents := ReadVents(InputLines(input)).value;
                      r.value == |Dangerous(if diagonals then vents else AxisAligned(vents))|
  {
    var parsed := ReadVents(InputLines(input));
    if !parsed.Read? {
      return Err;
    }
    var vents := if diagonals then parsed.value else AxisAligned(parsed.value);
    var covered := GetCoveredPoints(vents);
    OverlapsAreDangerous(covered, vents);
    return Ok(Overlaps(covered));
  }
}
