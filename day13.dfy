/** Day 13: transparent origami. Reads dots and fold instructions, folds
    the paper along vertical and horizontal lines, counts the dots after the
    first fold and draws the paper after all folds. */
module Day13 {
  import opened Wrappers
  import Text

  datatype Point = Point(x: int, y: int)

  datatype Axis = X | Y

  /** A fold along the line `axis = index`. */
  datatype Fold = Fold(axis: Axis, index: int)

  // --- Parsing -------------------------------------------------------------

  /** The text of an axis in a fold instruction. */
  function AxisText(a: Axis): string {
    match a
    case X => "fold along x"
    case Y => "fold along y"
  }

  /** `Axis::from_str`: accepts exactly the two axis texts. */
  function ReadAxis(s: string): (r: Result<Axis>)
    ensures r.Ok? ==> AxisText(r.value) == s
  {
    if s == "fold along x" then Ok(X)
    else if s == "fold along y" then Ok(Y)
    else Err
  }

  /** `str::parse::<i32>`. */
  function ReadI32(s: string): Option<int> {
    Text.ParseInt(s, Text.I32_MIN, Text.I32_MAX)
  }

  /** `Fold::from_str`: the axis before the first '=' and the index after
      it, each trimmed; the axis is read first, and a missing or malformed
      part is an error. */
  function ReadFold(s: string): (r: Result<Fold>)
    ensures r.Ok? ==> Text.I32_MIN <= r.value.index <= Text.I32_MAX
  {
    var parts := Text.Split(s, "=");
    var axis :- ReadAxis(Text.Trim(parts[0]));
    if |parts| < 2 then Err
    else
      match ReadI32(Text.Trim(parts[1]))
      case None => Err
      case Some(index) => Ok(Fold(axis, index))
  }

  /** `Paper::from_str` for one line: "x,y", each trimmed; the x position
      is read before the y position is looked for. */
  function ReadDot(line: string): (r: Result<Point>)
    ensures r.Ok? ==> Text.I32_MIN <= r.value.x <= Text.I32_MAX && Text.I32_MIN <= r.value.y <= Text.I32_MAX
  {
    var parts := Text.Split(line, ",");
    match ReadI32(Text.Trim(parts[0]))
    case None => Err
    case Some(x) =>
      if |parts| < 2 then Err
      else
        match ReadI32(Text.Trim(parts[1]))
        case None => Err
        case Some(y) => Ok(Point(x, y))
  }

  /** The decimal text of an integer. */
  function IntText(n: int): (s: string)
    ensures s != [] && s[|s| - 1] != '-' && forall i :: 0 <= i < |s| ==> s[i] == '-' || '0' <= s[i] <= '9'
  {
    if n < 0 then "-" + Text.Decimal(-n) else Text.Decimal(n)
  }

  /** A fold as the input writes it. */
  function FoldText(f: Fold): string {
    AxisText(f.axis) + "=" + IntText(f.index)
  }

  /** A dot as the input writes it. */
  function DotText(p: Point): string {
    IntText(p.x) + "," + IntText(p.y)
  }

  /** Each axis text reads back as its axis. */
  lemma ReadAxisText(a: Axis)
    ensures ReadAxis(AxisText(a)) == Ok(a)
  {
  }

  lemma TrimInt(n: int)
    ensures Text.Trim(IntText(n)) == IntText(n)
  {
    var s := IntText(n);
    assert !Text.IsWhitespace(s[0]) && !Text.IsWhitespace(s[|s| - 1]);
  }

  lemma ReadInt(n: int)
    requires Text.I32_MIN <= n <= Text.I32_MAX
    ensures ReadI32(Text.Trim(IntText(n))) == Some(n)
  {
    TrimInt(n);
    Text.ParseDecimal(n, Text.I32_MIN, Text.I32_MAX);
  }

  /** A fold written out reads back as the same fold. */
  lemma ReadFoldText(f: Fold)
    requires Text.I32_MIN <= f.index <= Text.I32_MAX
    ensures ReadFold(FoldText(f)) == Ok(f)
  {
    var a, n := AxisText(f.axis), IntText(f.index);
    Text.AbsentSeparator(a, "=");
    Text.AbsentSeparator(n, "=");
    Text.SplitTwo(a, n, "=");
    assert !Text.IsWhitespace(a[0]) && !Text.IsWhitespace(a[|a| - 1]);
    assert Text.Trim(a) == a;
    ReadInt(f.index);
    ReadAxisText(f.axis);
    ReadFoldOf(FoldText(f), a, n, f.axis, f.index);
  }

  lemma ReadFoldOf(s: string, a: string, n: string, axis: Axis, k: int)
    requires Text.Split(s, "=") == [a, n]
    requires ReadAxis(Text.Trim(a)) == Ok(axis) && ReadI32(Text.Trim(n)) == Some(k)
    ensures ReadFold(s) == Ok(Fold(axis, k))
  {
  }

  /** A dot written out reads back as the same dot. */
  lemma ReadDotText(p: Point)
    requires Text.I32_MIN <= p.x <= Text.I32_MAX && Text.I32_MIN <= p.y <= Text.I32_MAX
    ensures ReadDot(DotText(p)) == Ok(p)
  {
    var a, b := IntText(p.x), IntText(p.y);
    Text.AbsentSeparator(a, ",");
    Text.AbsentSeparator(b, ",");
    Text.SplitTwo(a, b, ",");
    ReadInt(p.x);
    ReadInt(p.y);
    ReadDotOf(DotText(p), a, b, p.x, p.y);
  }

  lemma ReadDotOf(s: string, a: string, b: string, x: int, y: int)
    requires Text.Split(s, ",") == [a, b]
    requires ReadI32(Text.Trim(a)) == Some(x) && ReadI32(Text.Trim(b)) == Some(y)
    ensures ReadDot(s) == Ok(Point(x, y))
  {
  }

  /** Reading every line, stopping at the first that fails. */
  function ReadAll<T>(lines: seq<string>, read: string -> Result<T>): Result<seq<T>> {
    if lines == [] then Ok([])
    else
      var front :- ReadAll(lines[..|lines| - 1], read);
      var last :- read(lines[|lines| - 1]);
      Ok(front + [last])
  }

  /** The lines read exactly when each one does, giving their values in
      order. */
  lemma {:induction false} ReadAllEach<T>(lines: seq<string>, read: string -> Result<T>)
    ensures ReadAll(lines, read).Ok? <==> forall i :: 0 <= i < |lines| ==> read(lines[i]).Ok?
    ensures ReadAll(lines, read).Ok? ==> |ReadAll(lines, read).value| == |lines|
    ensures ReadAll(lines, read).Ok? ==> forall i :: 0 <= i < |lines| ==> read(lines[i]) == Ok(ReadAll(lines, read).value[i])
  {
    if lines != [] {
      var front := lines[..|lines| - 1];
      ReadAllEach(front, read);
      assert forall i :: 0 <= i < |front| ==> front[i] == lines[i];
      var r := ReadAll(lines, read);
      if r.Ok? {
        var values := ReadAll(front, read).value;
        assert r.value == values + [read(lines[|lines| - 1]).value];
        forall i | 0 <= i < |lines|
          ensures read(lines[i]) == Ok(r.value[i])
        {
          if i < |front| {
            assert r.value[i] == values[i];
          }
        }
      }
    }
  }

  /** The dots and the folds of the input. */
  datatype Manual = Manual(dots: seq<Point>, folds: seq<Fold>)

  /** The parsing common to both parts: the input split at the first blank
      line into the dots, read first, and the folds. */
  function ReadManual(input: string): Result<Manual> {
    var sections := Text.Split(input, "\n\n");
    var dots :- ReadAll(Text.Lines(Text.Trim(sections[0])), ReadDot);
    if |sections| < 2 then Err
    else
      var folds :- ReadAll(Text.Lines(Text.Trim(sections[1])), ReadFold);
      Ok(Manual(dots, folds))
  }

  // --- Folding ---------------------------------------------------------------

  /** The coordinate a fold acts on, and the one it leaves alone. */
  function Along(p: Point, a: Axis): int {
    if a == X then p.x else p.y
  }

  function Across(p: Point, a: Axis): int {
    if a == X then p.y else p.x
  }

  /** Where a dot lands after a fold: nowhere when it lies on the line,
      where it was before the line, and reflected in the line beyond it. */
  function FoldPoint(p: Point, f: Fold): (r: Option<Point>)
    ensures r.None? <==> Along(p, f.axis) == f.index
    ensures r.Some? ==> Along(r.value, f.axis) < f.index && Across(r.value, f.axis) == Across(p, f.axis)
    ensures r.Some? ==> Along(r.value, f.axis) == Along(p, f.axis) || Along(r.value, f.axis) + Along(p, f.axis) == 2 * f.index
  {
    var k := f.index;
    match f.axis
    case X =>
      if p.x == k then None
      else if p.x < k then Some(p)
      else Some(Point(k - (p.x - k), p.y))
    case Y =>
      if p.y == k then None
      else if p.y < k then Some(p)
      else Some(Point(p.x, k - (p.y - k)))
  }

  /** The mirror image of a point in the fold line. */
  function Mirror(p: Point, f: Fold): Point {
    if f.axis == X then Point(2 * f.index - p.x, p.y) else Point(p.x, 2 * f.index - p.y)
  }

  /** The dots after a fold. */
  ghost function Folded(s: set<Point>, f: Fold): set<Point> {
    set p | p in s && FoldPoint(p, f).Some? :: FoldPoint(p, f).value
  }

  /** A point carries a dot after the fold exactly when it lies before the
      line and it, or its mirror image, carried one before. */
  lemma FoldedMeaning(s: set<Point>, f: Fold)
    ensures forall q :: q in Folded(s, f) <==> Along(q, f.axis) < f.index && (q in s || Mirror(q, f) in s)
  {
    forall q | Along(q, f.axis) < f.index && (q in s || Mirror(q, f) in s)
      ensures q in Folded(s, f)
    {
      if q in s {
        assert FoldPoint(q, f) == Some(q);
      } else {
        assert FoldPoint(Mirror(q, f), f) == Some(q);
      }
    }
    forall q | q in Folded(s, f)
      ensures q in s || Mirror(q, f) in s
    {
      var p :| p in s && FoldPoint(p, f) == Some(q);
      if Along(p, f.axis) > f.index {
        assert Mirror(q, f) == p;
      }
    }
  }

  /** Every dot left after a fold lies before the fold line. */
  lemma FoldedBefore(s: set<Point>, f: Fold)
    ensures forall q :: q in Folded(s, f) ==> Along(q, f.axis) < f.index
  {
    FoldedMeaning(s, f);
  }

  /** Folding twice along the same line is folding once. */
  lemma FoldTwice(s: set<Point>, f: Fold)
    ensures Folded(Folded(s, f), f) == Folded(s, f)
  {
    var once := Folded(s, f);
    FoldedMeaning(s, f);
    forall q | q in once
      ensures q in Folded(once, f)
    {
      assert FoldPoint(q, f) == Some(q);
    }
    forall q | q in Folded(once, f)
      ensures q in once
    {
      var p :| p in once && FoldPoint(p, f) == Some(q);
      assert Along(p, f.axis) < f.index;
    }
  }

  /** Adding one dot before a fold adds at most its image after it. */
  lemma FoldedAdd(s: set<Point>, p: Point, f: Fold)
    ensures Folded(s + {p}, f) == Folded(s, f) + (if FoldPoint(p, f).Some? then {FoldPoint(p, f).value} else {})
  {
  }

  /** A fold never adds dots. */
  lemma {:induction false} FoldedFewer(s: set<Point>, f: Fold)
    ensures |Folded(s, f)| <= |s|
    decreases |s|
  {
    if s != {} {
      var p :| p in s;
      var rest := s - {p};
      FoldedFewer(rest, f);
      FoldedAdd(rest, p, f);
      assert rest + {p} == s;
    }
  }

  /** The dots after each fold of `folds` in turn. */
  ghost function FoldAll(s: set<Point>, folds: seq<Fold>): set<Point> {
    if folds == [] then s
    else Folded(FoldAll(s, folds[..|folds| - 1]), folds[|folds| - 1])
  }

  lemma FoldAllNext(s: set<Point>, folds: seq<Fold>, i: nat)
    requires i < |folds|
    ensures FoldAll(s, folds[..i + 1]) == Folded(FoldAll(s, folds[..i]), folds[i])
  {
    assert folds[..i + 1][..i] == folds[..i];
  }

  /** Folding never adds dots, and each fold leaves the dots before its
      line. */
  lemma {:induction false} FoldAllFewer(s: set<Point>, folds: seq<Fold>)
    ensures |FoldAll(s, folds)| <= |s|
    ensures folds != [] ==> forall q :: q in FoldAll(s, folds) ==> Along(q, folds[|folds| - 1].axis) < folds[|folds| - 1].index
  {
    if folds != [] {
      var front := folds[..|folds| - 1];
      FoldAllFewer(s, front);
      FoldedFewer(FoldAll(s, front), folds[|folds| - 1]);
      FoldedBefore(FoldAll(s, front), folds[|folds| - 1]);
    }
  }

  /** The set of the dots listed. */
  function Elements(points: seq<Point>): set<Point> {
    set i | 0 <= i < |points| :: points[i]
  }

  // --- The drawing -----------------------------------------------------------

  /** Whether `m` is the corner of the smallest rectangle from the origin
      covering the dots: its x and y are each the largest among them. */
  ghost predicate IsMax(s: set<Point>, m: Point) {
    && (exists p :: p in s && p.x == m.x)
    && (exists p :: p in s && p.y == m.y)
    && (forall p :: p in s ==> p.x <= m.x && p.y <= m.y)
  }

  /** The largest x and the largest y of a non-empty set of dots. */
  ghost function Top(s: set<Point>): (m: Point)
    requires s != {}
    ensures IsMax(s, m)
    decreases |s|
  {
    var p :| p in s;
    if s == {p} then p
    else
      var t := Top(s - {p});
      Point(if p.x > t.x then p.x else t.x, if p.y > t.y then p.y else t.y)
  }

  lemma MaxUnique(s: set<Point>, m: Point, m': Point)
    requires IsMax(s, m) && IsMax(s, m')
    ensures m == m'
  {
    var a :| a in s && a.x == m.x;
    var b :| b in s && b.y == m.y;
    var a' :| a' in s && a'.x == m'.x;
    var b' :| b' in s && b'.y == m'.y;
  }

  /** The character drawn at (x, y). */
  function Mark(s: set<Point>, x: int, y: int): char {
    if Point(x, y) in s then '#' else '.'
  }

  /** The first `n` characters of row `y`. */
  function Cells(s: set<Point>, n: nat, y: int): string {
    seq(n, x requires 0 <= x < n => Mark(s, x, y))
  }

  /** The first `h` rows of width `w`, each ended by a newline. */
  function Picture(s: set<Point>, w: nat, h: nat): string {
    if h == 0 then [] else Picture(s, w, h - 1) + Cells(s, w, h - 1) + "\n"
  }

  /** The number of positions from 0 up to `top`, both included. */
  function Span(top: int): nat {
    if top < 0 then 0 else top + 1
  }

  /** Where line `y` starts in a picture of width `w`. */
  function Offset(y: nat, w: nat): nat {
    if y == 0 then 0 else Offset(y - 1, w) + w + 1
  }

  lemma {:induction false} OffsetIsProduct(y: nat, w: nat)
    ensures Offset(y, w) == y * (w + 1)
  {
    if y > 0 {
      OffsetIsProduct(y - 1, w);
      assert y * (w + 1) == (y - 1) * (w + 1) + w + 1;
    }
  }

  lemma {:induction false} OffsetGrows(y: nat, z: nat, w: nat)
    requires y < z
    ensures Offset(y, w) + w + 1 <= Offset(z, w)
  {
    if y < z - 1 {
      OffsetGrows(y, z - 1, w);
    }
  }

  /** The picture has `h` lines of `w` characters and a newline each. */
  lemma {:induction false} PictureLength(s: set<Point>, w: nat, h: nat)
    ensures |Picture(s, w, h)| == Offset(h, w)
  {
    if h > 0 {
      PictureLength(s, w, h - 1);
    }
  }

  /** The character at column x of line y of the picture (line y starts at
      `Offset(y, w)`): '#' exactly at a dot, '.' elsewhere, and the
      newline after the last column. */
  lemma {:induction false} PictureAt(s: set<Point>, w: nat, h: nat, y: nat, x: nat)
    requires y < h && x <= w
    ensures Offset(y, w) + x < |Picture(s, w, h)|
    ensures Picture(s, w, h)[Offset(y, w) + x] == if x == w then '\n' else Mark(s, x, y)
  {
    var before := Picture(s, w, h - 1);
    var row := Cells(s, w, h - 1) + "\n";
    var pic := Picture(s, w, h);
    assert pic == before + row && |row| == w + 1;
    PictureLength(s, w, h - 1);
    var start := Offset(y, w);
    if y < h - 1 {
      OffsetGrows(y, h - 1, w);
      PictureAt(s, w, h - 1, y, x);
      assert pic[start + x] == before[start + x];
    } else {
      assert start == |before|;
      assert pic[start + x] == row[x];
    }
  }

  // --- The paper -------------------------------------------------------------

  /** The sheet of transparent paper: a map from dot positions to `true`. */
  class Paper {
    var dots: map<Point, bool>

    /** Every stored value is `true`. */
    ghost predicate Valid()
      reads this
    {
      forall p :: p in dots ==> dots[p]
    }

    /** The insertions of `Paper::from_str`, one per dot read. */
    constructor(points: seq<Point>)
      ensures Valid() && dots.Keys == Elements(points)
    {
      var m: map<Point, bool> := map[];
      for i := 0 to |points|
        invariant forall p :: p in m ==> m[p]
        invariant m.Keys == Elements(points[..i])
      {
        assert Elements(points[..i + 1]) == Elements(points[..i]) + {points[i]};
        m := m[points[i] := true];
      }
      assert points[..|points|] == points;
      dots := m;
    }

    /** `Paper::max`: the largest x and the largest y of the dots; it
        panics on a paper without dots. */
    method Max() returns (m: Point)
      requires dots != map[]
      ensures IsMax(dots.Keys, m)
    {
      var rest := dots.Keys;
      var first :| first in rest;
      m := first;
      rest := rest - {first};
      ghost var wx, wy := first, first;
      while rest != {}
        invariant rest <= dots.Keys
        invariant wx in dots && wx.x == m.x && wy in dots && wy.y == m.y
        invariant forall p :: p in dots && p !in rest ==> p.x <= m.x && p.y <= m.y
        decreases rest
      {
        var p :| p in rest;
        if p.x > m.x {
          m := m.(x := p.x);
          wx := p;
        }
        if p.y > m.y {
          m := m.(y := p.y);
          wy := p;
        }
        rest := rest - {p};
      }
    }

    /** `Paper::fold`: every dot moved to where the fold takes it, in
        whatever order the map yields them. */
    method FoldAlong(f: Fold)
      requires Valid()
      modifies this
      ensures Valid() && dots.Keys == Folded(old(dots.Keys), f)
    {
      var newDots: map<Point, bool> := map[];
      ghost var before := dots.Keys;
      var rest := dots.Keys;
      while rest != {}
        invariant rest <= before && Valid() && dots.Keys == before
        invariant forall q :: q in newDots ==> newDots[q]
        invariant newDots.Keys == Folded(before - rest, f)
        decreases rest
      {
        var p :| p in rest;
        FoldedAdd(before - rest, p, f);
        assert before - (rest - {p}) == (before - rest) + {p};
        rest := rest - {p};
        match FoldPoint(p, f) {
          case None =>
          case Some(q) =>
            newDots := newDots[q := dots[p]];
        }
      }
      assert before - rest == before;
      dots := newDots;
    }

    /** The part 1 count: the stored values that are `true`, which is every
        dot. */
    function DotCount(): (n: nat)
      reads this
      requires Valid()
      ensures n == |dots.Keys|
    {
      var marked := set p | p in dots && dots[p];
      assert marked == dots.Keys;
      |marked|
    }

    /** `Display for Paper`: the rows from 0 to the largest y, each of the
        columns from 0 to the largest x. */
    method Render() returns (out: string)
      requires Valid() && dots != map[]
      ensures out == Picture(dots.Keys, Span(Top(dots.Keys).x), Span(Top(dots.Keys).y))
    {
      var m := Max();
      MaxUnique(dots.Keys, m, Top(dots.Keys));
      var w, h := Span(m.x), Span(m.y);
      out := "";
      for y := 0 to h
        invariant out == Picture(dots.Keys, w, y)
      {
        ghost var before := out;
        for x := 0 to w
          invariant out == before + Cells(dots.Keys, x, y)
        {
          var isDot := Point(x, y) in dots && dots[Point(x, y)];
          assert Cells(dots.Keys, x + 1, y) == Cells(dots.Keys, x, y) + [Mark(dots.Keys, x, y)];
          out := out + [if isDot then '#' else '.'];
        }
        out := out + "\n";
      }
    }
  }

  // --- Solutions -------------------------------------------------------------

  /** `solve_part1`: the dots left after the first fold; there must be a
      fold. */
  method SolvePart1(input: string) returns (r: Result<nat>)
    requires ReadManual(input).Ok? ==> ReadManual(input).value.folds != []
    ensures r.Ok? <==> ReadManual(input).Ok?
    ensures r.Ok? ==> var manual := ReadManual(input).value;
      r.value == |Folded(Elements(manual.dots), manual.folds[0])|
  {
    var manual :- ReadManual(input);
    var paper := new Paper(manual.dots);
    paper.FoldAlong(manual.folds[0]);
    return Ok(paper.DotCount());
  }

  /** `solve_part2`: a newline, then the drawing after all folds; some dot
      must survive them. */
  method SolvePart2(input: string) returns (r: Result<string>)
    requires ReadManual(input).Ok? ==> var manual := ReadManual(input).value;
      FoldAll(Elements(manual.dots), manual.folds) != {}
    ensures r.Ok? <==> ReadManual(input).Ok?
    ensures r.Ok? ==> var manual := ReadManual(input).value;
      var s := FoldAll(Elements(manual.dots), manual.folds);
      r.value == "\n" + Picture(s, Span(Top(s).x), Span(Top(s).y))
  {
    var manual :- ReadManual(input);
    var paper := new Paper(manual.dots);
    ghost var start := Elements(manual.dots);
    for i := 0 to |manual.folds|
      invariant paper.Valid()
      invariant paper.dots.Keys == FoldAll(start, manual.folds[..i])
    {
      FoldAllNext(start, manual.folds, i);
      paper.FoldAlong(manual.folds[i]);
    }
    assert manual.folds[..|manual.folds|] == manual.folds;
    var picture := paper.Render();
    return Ok("\n" + picture);
  }
}
