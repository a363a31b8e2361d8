/** Day 11 (crates/day11/src/main.rs): a 10 by 10 cavern of octopuses with
    energy levels. A step charges every octopus; those above 9 flash,
    charging their neighbours, which may flash in turn; every octopus that
    flashed ends the step at 0.

    The value layer below defines the outcome of a step independently of
    the order the source visits cells in: the set of cells that flash is
    the least fixed point of "flashes if its charge plus one per flashing
    cell of its block exceeds 9". The class `Cavern` runs the source's
    worklist and is proved to reach exactly that outcome. */
module Day11 {
  import opened Wrappers
  import Text
  import Sums

  /** A cell `(x, y)` of the cavern. */
  datatype Pos = Pos(x: nat, y: nat)

  /** Energy levels by row, `e[y][x]`. */
  type Energies = seq<seq<int>>

  predicate IsGrid(e: Energies) {
    |e| == 10 && forall y :: 0 <= y < 10 ==> |e[y]| == 10
  }

  predicate Cell(c: Pos) {
    c.x < 10 && c.y < 10
  }

  function At(e: Energies, c: Pos): int
    requires IsGrid(e) && Cell(c)
  {
    e[c.y][c.x]
  }

  /** Position in the row-major order of the source's scan. */
  function Index(c: Pos): nat {
    10 * c.y + c.x
  }

  function Cells(): (cells: set<Pos>)
    ensures forall c :: c in cells <==> Cell(c)
  {
    var cells := set x: nat, y: nat | x < 10 && y < 10 :: Pos(x, y);
    assert forall c :: Cell(c) ==> c == Pos(c.x, c.y);
    cells
  }

  /** Every energy level is a digit. */
  ghost predicate InRange(e: Energies)
    requires IsGrid(e)
  {
    forall c :: Cell(c) ==> 0 <= At(e, c) <= 9
  }

  /** Two grids with the same energy everywhere are equal. */
  lemma SameGrid(a: Energies, b: Energies)
    requires IsGrid(a) && IsGrid(b)
    requires forall c :: Cell(c) ==> At(a, c) == At(b, c)
    ensures a == b
  {
    forall y | 0 <= y < 10 ensures a[y] == b[y] {
      forall x | 0 <= x < 10 ensures a[y][x] == b[y][x] {
        assert At(a, Pos(x, y)) == At(b, Pos(x, y));
      }
    }
  }

  // --- Blocks ------------------------------------------------------------------------

  /** Cells at most one apart in each direction. */
  predicate Near(p: Pos, q: Pos) {
    p.x <= q.x + 1 && q.x <= p.x + 1 && p.y <= q.y + 1 && q.y <= p.y + 1
  }

  /** The cells of the 3 by 3 block around `p`, `p` included, inside the
      cavern. */
  function Block(p: Pos): set<Pos> {
    set q | q in Cells() && Near(p, q)
  }

  /** The offsets `flash` tries, in its order. */
  const Offsets: seq<(int, int)> := [(-1, -1), (-1, 0), (-1, 1), (0, -1), (0, 0), (0, 1), (1, -1), (1, 0), (1, 1)]

  /** The in-bounds cells among the first `n` offsets from `p`, in order. */
  function BlockPrefix(p: Pos, n: nat): seq<Pos>
    requires n <= |Offsets|
  {
    if n == 0 then []
    else
      var (dx, dy) := Offsets[n - 1];
      var x, y := p.x + dx, p.y + dy;
      BlockPrefix(p, n - 1) + if 0 <= y < 10 && 0 <= x < 10 then [Pos(x, y)] else []
  }

  /** The offsets are listed in the order of `3 * (dx + 1) + (dy + 1)`. */
  lemma OffsetKey(i: nat)
    requires i < |Offsets|
    ensures 3 * (Offsets[i].0 + 1) + (Offsets[i].1 + 1) == i
  {
  }

  /** Each offset adds its cell, when in bounds, and no cell twice. */
  lemma BlockPrefixNext(p: Pos, i: nat)
    requires i < |Offsets|
    ensures var x, y := p.x + Offsets[i].0, p.y + Offsets[i].1;
            if 0 <= y < 10 && 0 <= x < 10
            then BlockPrefix(p, i + 1) == BlockPrefix(p, i) + [Pos(x, y)] && Pos(x, y) !in BlockPrefix(p, i)
            else BlockPrefix(p, i + 1) == BlockPrefix(p, i)
  {
    OffsetKey(i);
    BlockPrefixOrdered(p, i);
  }

  /** The list `flash` returns. */
  function BlockList(p: Pos): seq<Pos> {
    BlockPrefix(p, |Offsets|)
  }

  /** The list of `flash` holds each cell of the block once. */
  lemma BlockListIsBlock(p: Pos)
    requires Cell(p)
    ensures forall q :: q in BlockList(p) <==> q in Block(p)
    ensures forall i, j :: 0 <= i < j < |BlockList(p)| ==> BlockList(p)[i] != BlockList(p)[j]
  {
    forall q | q in Block(p) ensures q in BlockList(p) {
      var k := 3 * (q.x + 1 - p.x) + (q.y + 1 - p.y);
      assert Offsets[k] == (q.x - p.x, q.y - p.y);
      BlockPrefixHas(p, k + 1, q, |Offsets|);
    }
    BlockPrefixOrdered(p, |Offsets|);
  }

  lemma {:induction false} BlockPrefixHas(p: Pos, n: nat, q: Pos, m: nat)
    requires 0 < n <= m <= |Offsets| && Cell(q) && Offsets[n - 1] == (q.x - p.x, q.y - p.y)
    ensures q in BlockPrefix(p, m)
  {
    if m > n {
      BlockPrefixHas(p, n, q, m - 1);
    }
  }

  lemma {:induction false} BlockPrefixOrdered(p: Pos, n: nat)
    requires n <= |Offsets|
    ensures forall i :: 0 <= i < |BlockPrefix(p, n)| ==>
              var q := BlockPrefix(p, n)[i];
              Cell(q) && Near(p, q) && 3 * (q.x + 1 - p.x) + (q.y + 1 - p.y) < n
    ensures forall i, j :: 0 <= i < j < |BlockPrefix(p, n)| ==>
              var a, b := BlockPrefix(p, n)[i], BlockPrefix(p, n)[j];
              3 * (a.x + 1 - p.x) + (a.y + 1 - p.y) < 3 * (b.x + 1 - p.x) + (b.y + 1 - p.y)
  {
    if n > 0 {
      BlockPrefixOrdered(p, n - 1);
    }
  }

  // --- Grids built from others ------------------------------------------------------------

  /** Every cell charged by one. */
  function Charged(e: Energies): (r: Energies)
    requires IsGrid(e)
    ensures IsGrid(r) && forall c :: Cell(c) ==> At(r, c) == At(e, c) + 1
  {
    seq(10, y requires 0 <= y < 10 => seq(10, x requires 0 <= x < 10 => e[y][x] + 1))
  }

  /** The cells of `s` charged by one. */
  function Raised(e: Energies, s: set<Pos>): (r: Energies)
    requires IsGrid(e)
    ensures IsGrid(r) && forall c :: Cell(c) ==> At(r, c) == At(e, c) + if c in s then 1 else 0
  {
    seq(10, y requires 0 <= y < 10 => seq(10, x requires 0 <= x < 10 => e[y][x] + if Pos(x, y) in s then 1 else 0))
  }

  /** The cells of `s` set to 0. */
  function Zeroed(e: Energies, s: set<Pos>): (r: Energies)
    requires IsGrid(e)
    ensures IsGrid(r) && forall c :: Cell(c) ==> At(r, c) == if c in s then 0 else At(e, c)
  {
    seq(10, y requires 0 <= y < 10 => seq(10, x requires 0 <= x < 10 => if Pos(x, y) in s then 0 else e[y][x]))
  }

  // --- The outcome of a step ----------------------------------------------------------------

  /** The number of entries of `l` that are in `s`. */
  function CountIn(l: seq<Pos>, s: set<Pos>): nat {
    if l == [] then 0 else CountIn(l[..|l| - 1], s) + if l[|l| - 1] in s then 1 else 0
  }

  /** The energy a cell has once charged and once more per flashed cell of
      its block. */
  function Charge(g: Energies, s: set<Pos>, c: Pos): int
    requires IsGrid(g) && Cell(c)
  {
    At(g, c) + 1 + CountIn(BlockList(c), s)
  }

  lemma {:induction false} CountInMonotone(l: seq<Pos>, s: set<Pos>, t: set<Pos>)
    requires s <= t
    ensures CountIn(l, s) <= CountIn(l, t)
  {
    if l != [] {
      CountInMonotone(l[..|l| - 1], s, t);
    }
  }

  lemma {:induction false} CountInNone(l: seq<Pos>)
    ensures CountIn(l, {}) == 0
  {
    if l != [] {
      CountInNone(l[..|l| - 1]);
    }
  }

  /** One more cell in `s` counts once if `l` lists it once. */
  lemma {:induction false} CountInAdd(l: seq<Pos>, s: set<Pos>, c: Pos)
    requires c !in s
    requires forall i, j :: 0 <= i < j < |l| ==> l[i] != l[j]
    ensures CountIn(l, s + {c}) == CountIn(l, s) + if c in l then 1 else 0
  {
    if l != [] {
      var front := l[..|l| - 1];
      CountInAdd(front, s, c);
      assert l == front + [l[|l| - 1]];
    }
  }

  /** The cells that flash if the cells of `s` have flashed. */
  function Next(g: Energies, s: set<Pos>): set<Pos>
    requires IsGrid(g)
  {
    set c | c in Cells() && Charge(g, s, c) > 9
  }

  function Iterate(g: Energies, n: nat): set<Pos>
    requires IsGrid(g)
  {
    if n == 0 then {} else Next(g, Iterate(g, n - 1))
  }

  /** The cells that flash in a step from `g`: `Next` applied until it no
      longer changes, which takes at most as many rounds as there are cells. */
  function Flashes(g: Energies): set<Pos>
    requires IsGrid(g)
  {
    Iterate(g, |Cells()|)
  }

  /** The grid at the end of a step from `g`. */
  function After(g: Energies): (r: Energies)
    requires IsGrid(g)
    ensures IsGrid(r)
  {
    var f := Flashes(g);
    seq(10, y requires 0 <= y < 10 => seq(10, x requires 0 <= x < 10 =>
      if Pos(x, y) in f then 0 else Charge(g, f, Pos(x, y))))
  }

  lemma AfterAt(g: Energies, c: Pos)
    requires IsGrid(g) && Cell(c)
    ensures At(After(g), c) == if c in Flashes(g) then 0 else Charge(g, Flashes(g), c)
  {
  }

  lemma Cardinality<T>(a: set<T>, b: set<T>)
    requires a <= b
    ensures |a| <= |b| && (|a| == |b| ==> a == b)
  {
    assert b == a + (b - a);
  }

  lemma CellCount()
    ensures |Cells()| == 100
  {
    assert Cells() == BlockCells(10);
    BlockSize(10);
  }

  /** The first `n` cells of row `y`. */
  ghost function RowCells(y: nat, n: nat): set<Pos> {
    set x: nat | x < n :: Pos(x, y)
  }

  /** The cells of the first `m` rows. */
  ghost function BlockCells(m: nat): set<Pos> {
    set x: nat, y: nat | x < 10 && y < m :: Pos(x, y)
  }

  lemma {:induction false} RowSize(y: nat, n: nat)
    ensures |RowCells(y, n)| == n
  {
    if n > 0 {
      RowSize(y, n - 1);
      assert RowCells(y, n) == RowCells(y, n - 1) + {Pos(n - 1, y)};
    }
  }

  lemma {:induction false} BlockSize(m: nat)
    ensures |BlockCells(m)| == 10 * m
  {
    if m > 0 {
      BlockSize(m - 1);
      RowSize(m - 1, 10);
      assert BlockCells(m) == BlockCells(m - 1) + RowCells(m - 1, 10);
      assert BlockCells(m - 1) !! RowCells(m - 1, 10);
    }
  }

  /** More flashed cells make at least as many cells flash. */
  lemma NextMonotone(g: Energies, s: set<Pos>, t: set<Pos>)
    requires IsGrid(g) && s <= t
    ensures Next(g, s) <= Next(g, t)
  {
    forall c | c in Next(g, s) ensures c in Next(g, t) {
      CountInMonotone(BlockList(c), s, t);
    }
  }

  lemma {:induction false} IterateGrows(g: Energies, n: nat)
    requires IsGrid(g)
    ensures Iterate(g, n) <= Iterate(g, n + 1)
  {
    if n > 0 {
      var a, b := Iterate(g, n - 1), Iterate(g, n);
      IterateGrows(g, n - 1);
      NextMonotone(g, a, b);
      assert Iterate(g, n + 1) == Next(g, b);
    }
  }

  /** Each round either changes nothing or adds a cell. */
  lemma {:induction false} IterateSettles(g: Energies, n: nat)
    requires IsGrid(g)
    ensures Iterate(g, n) == Iterate(g, n + 1) || |Iterate(g, n + 1)| > n
  {
    if n > 0 {
      var a, b, c := Iterate(g, n - 1), Iterate(g, n), Iterate(g, n + 1);
      IterateSettles(g, n - 1);
      assert c == Next(g, b) && b == Next(g, a);
      if a != b {
        IterateGrows(g, n);
        Cardinality(b, c);
      }
    }
  }

  /** The flashing cells are a fixed point of `Next`. */
  lemma FlashesFixed(g: Energies)
    requires IsGrid(g)
    ensures Next(g, Flashes(g)) == Flashes(g)
  {
    IterateSettles(g, |Cells()|);
    Cardinality(Iterate(g, |Cells()| + 1), Cells());
  }

  /** ... and the least one: any set that makes no cell outside it flash
      holds them all. */
  lemma FlashesLeast(g: Energies, s: set<Pos>)
    requires IsGrid(g) && Next(g, s) <= s
    ensures Flashes(g) <= s
  {
    IterateBelow(g, s, |Cells()|);
  }

  lemma {:induction false} IterateBelow(g: Energies, s: set<Pos>, n: nat)
    requires IsGrid(g) && Next(g, s) <= s
    ensures Iterate(g, n) <= s
  {
    if n > 0 {
      var a := Iterate(g, n - 1);
      IterateBelow(g, s, n - 1);
      NextMonotone(g, a, s);
      assert Iterate(g, n) == Next(g, a);
    }
  }

  /** After a step every octopus that flashed is at 0 and every other one
      is between 1 and 9: energy levels stay digits from step to step, and
      the cells at 0 are exactly the ones that flashed. */
  lemma AfterInRange(g: Energies)
    requires IsGrid(g) && InRange(g)
    ensures InRange(After(g))
    ensures forall c :: Cell(c) ==> (At(After(g), c) == 0 <==> c in Flashes(g))
  {
    FlashesFixed(g);
  }

  // --- What the worklist of `step` keeps ------------------------------------------------------

  /** `flashed` lists the cells of `fs`, each once. */
  ghost predicate Listed(flashed: seq<Pos>, fs: set<Pos>) {
    (forall c :: c in fs <==> c in flashed)
    && forall i, j :: 0 <= i < j < |flashed| ==> flashed[i] != flashed[j]
  }

  lemma IndexInjective(c: Pos, d: Pos)
    requires Cell(c) && Cell(d) && c != d
    ensures Index(c) != Index(d)
  {
  }

  lemma PopLast(s: seq<Pos>)
    requires s != []
    ensures s == s[..|s| - 1] + [s[|s| - 1]]
  {
  }

  /** Charging each cell of the list of `flash` once charges the block. */
  lemma RaisedByList(e: Energies, e': Energies, p: Pos)
    requires IsGrid(e) && IsGrid(e') && Cell(p)
    requires forall c :: Cell(c) ==> At(e', c) == At(e, c) + if c in BlockList(p) then 1 else 0
    ensures e' == Raised(e, Block(p))
  {
    BlockListIsBlock(p);
    SameGrid(e', Raised(e, Block(p)));
  }

  /** Between cascades of a step from `g`, once the cells before index `k`
      are scanned: the flashed cells are among those that must flash and
      are at 0; every other cell holds its charge, at most 9 if scanned. */
  ghost predicate Scanned(g: Energies, e: Energies, flashed: seq<Pos>, fs: set<Pos>, k: nat) {
    IsGrid(g) && IsGrid(e) && Listed(flashed, fs) && fs <= Flashes(g)
    && (forall c :: c in fs ==> Cell(c) && At(e, c) == 0)
    && (forall c :: Cell(c) && c !in fs ==> At(e, c) == Charge(g, fs, c))
    && forall c :: Cell(c) && c !in fs && Index(c) < k ==> At(e, c) <= 9
  }

  /** During the cascade started at the cell of index `k`: every cell not
      flashed holds its charge, and one above 9 waits in `toVisit` unless
      the scan has yet to reach it. */
  ghost predicate Spreading(g: Energies, e: Energies, flashed: seq<Pos>, fs: set<Pos>, toVisit: seq<Pos>, k: nat) {
    IsGrid(g) && IsGrid(e) && Listed(flashed, fs) && fs <= Flashes(g)
    && (forall c :: c in fs ==> Cell(c))
    && (forall i :: 0 <= i < |toVisit| ==> Cell(toVisit[i]))
    && (forall c :: Cell(c) && c !in fs ==> At(e, c) == Charge(g, fs, c))
    && forall c :: Cell(c) && c !in fs && At(e, c) > 9 ==> c in toVisit || Index(c) > k
  }

  lemma StartScan(g: Energies)
    requires IsGrid(g)
    ensures Scanned(g, Charged(g), [], {}, 0)
  {
    forall c | Cell(c) ensures At(Charged(g), c) == Charge(g, {}, c) {
      CountInNone(BlockList(c));
    }
    assert IsGrid(Charged(g));
    assert Listed([], {});
    assert {} <= Flashes(g);
  }

  /** A cell the scan passes over without flashing it. */
  lemma SkipCell(g: Energies, e: Energies, flashed: seq<Pos>, fs: set<Pos>, c: Pos)
    requires Scanned(g, e, flashed, fs, Index(c)) && Cell(c)
    requires !(At(e, c) > 9 && c !in fs)
    ensures Scanned(g, e, flashed, fs, Index(c) + 1)
  {
    forall d | Cell(d) && d !in fs && Index(d) < Index(c) + 1 ensures At(e, d) <= 9 {
      if Index(d) == Index(c) {
        assert d == c;
      }
    }
  }

  /** A cell whose charge exceeds 9 while only cells that must flash have
      flashed must flash too. */
  lemma FlashSound(g: Energies, fs: set<Pos>, c: Pos)
    requires IsGrid(g) && fs <= Flashes(g) && Cell(c) && Charge(g, fs, c) > 9
    ensures c in Flashes(g)
  {
    CountInMonotone(BlockList(c), fs, Flashes(g));
    FlashesFixed(g);
  }

  /** Flashing `c` charges exactly the cells whose block holds `c`. */
  lemma RaisedCharge(g: Energies, e: Energies, fs: set<Pos>, c: Pos)
    requires IsGrid(g) && IsGrid(e) && Cell(c) && c !in fs
    requires forall d :: Cell(d) && d !in fs ==> At(e, d) == Charge(g, fs, d)
    ensures forall d :: Cell(d) && d !in fs + {c} ==> At(Raised(e, Block(c)), d) == Charge(g, fs + {c}, d)
  {
    forall d | Cell(d) && d !in fs + {c} ensures At(Raised(e, Block(c)), d) == Charge(g, fs + {c}, d) {
      BlockListIsBlock(d);
      CountInAdd(BlockList(d), fs, c);
      assert c in Block(d) <==> d in Block(c);
    }
  }

  /** The scan flashes cell `c`. */
  lemma BeginCascade(g: Energies, e: Energies, flashed: seq<Pos>, fs: set<Pos>, c: Pos)
    requires Scanned(g, e, flashed, fs, Index(c)) && Cell(c) && At(e, c) > 9 && c !in fs
    ensures Spreading(g, Raised(e, Block(c)), flashed + [c], fs + {c}, BlockList(c), Index(c))
  {
    FlashSound(g, fs, c);
    RaisedCharge(g, e, fs, c);
    BlockListIsBlock(c);
    var e', fs', flashed' := Raised(e, Block(c)), fs + {c}, flashed + [c];
    forall d | Cell(d) && d !in fs' && At(e', d) > 9 ensures d in BlockList(c) || Index(d) > Index(c) {
      if d !in Block(c) {
        assert At(e, d) > 9;
        assert Index(d) >= Index(c);
        IndexInjective(c, d);
      }
    }
    var toVisit := BlockList(c);
    assert forall i :: 0 <= i < |toVisit| ==> Cell(toVisit[i]) by {
      forall i | 0 <= i < |toVisit| ensures Cell(toVisit[i]) {
        assert toVisit[i] in Block(c);
      }
    }
    assert Listed(flashed', fs') by {
      forall i, j | 0 <= i < j < |flashed'| ensures flashed'[i] != flashed'[j] {
        if j == |flashed| {
          assert flashed'[i] in fs;
        }
      }
    }
    assert fs' <= Flashes(g);
    assert forall d :: d in fs' ==> Cell(d);
  }

  /** A popped cell that is flashed or at most 9 is dropped. */
  lemma SpreadSkip(g: Energies, e: Energies, flashed: seq<Pos>, fs: set<Pos>, rest: seq<Pos>, p: Pos, k: nat)
    requires Spreading(g, e, flashed, fs, rest + [p], k) && Cell(p)
    requires p in fs || At(e, p) <= 9
    ensures Spreading(g, e, flashed, fs, rest, k)
  {
    forall i | 0 <= i < |rest| ensures rest[i] == (rest + [p])[i] {}
    forall d | Cell(d) && d !in fs && At(e, d) > 9 ensures d in rest || Index(d) > k {
      assert d in rest + [p] || Index(d) > k;
      if d in rest + [p] && d != p {
        assert d in rest;
      }
    }
  }

  /** A popped cell above 9 that has not flashed flashes. */
  lemma SpreadFlash(g: Energies, e: Energies, flashed: seq<Pos>, fs: set<Pos>, rest: seq<Pos>, p: Pos, k: nat)
    requires Spreading(g, e, flashed, fs, rest + [p], k) && Cell(p)
    requires p !in fs && At(e, p) > 9
    ensures Spreading(g, Raised(e, Block(p)), flashed + [p], fs + {p}, rest + BlockList(p), k)
  {
    FlashSound(g, fs, p);
    RaisedCharge(g, e, fs, p);
    BlockListIsBlock(p);
    var e' := Raised(e, Block(p));
    var next := rest + BlockList(p);
    forall i | 0 <= i < |next| ensures Cell(next[i]) {
      if i < |rest| {
        assert next[i] == (rest + [p])[i];
      } else {
        assert next[i] in BlockList(p);
      }
    }
    forall d | Cell(d) && d !in fs + {p} && At(e', d) > 9 ensures d in next || Index(d) > k {
      if d !in Block(p) && Index(d) <= k {
        assert d in rest + [p];
      }
    }
  }

  /** The cascade is over and the flashed cells are set to 0. */
  lemma EndCascade(g: Energies, e: Energies, e': Energies, flashed: seq<Pos>, fs: set<Pos>, c: Pos)
    requires Spreading(g, e, flashed, fs, [], Index(c)) && Cell(c) && IsGrid(e')
    requires c in fs && forall d :: Cell(d) ==> At(e', d) == if d in fs then 0 else At(e, d)
    ensures Scanned(g, e', flashed, fs, Index(c) + 1)
  {
  }

  /** Once every cell is scanned, the flashed cells are exactly the cells
      that must flash and the grid is the outcome of the step. */
  lemma FinishStep(g: Energies, e: Energies, flashed: seq<Pos>, fs: set<Pos>)
    requires Scanned(g, e, flashed, fs, 100)
    ensures fs == Flashes(g) && e == After(g)
  {
    forall c | c in Next(g, fs) ensures c in fs {
      assert Index(c) < 100;
    }
    FlashesLeast(g, fs);
    assert fs == Flashes(g);
    forall c | Cell(c) ensures At(e, c) == At(After(g), c) {
      AfterAt(g, c);
      if c in fs {
        assert At(e, c) == 0;
      } else {
        assert At(e, c) == Charge(g, fs, c);
      }
    }
    SameGrid(e, After(g));
  }

  // --- The cavern ------------------------------------------------------------------------

  /** The octopus grid, `grid[y, x]`, updated in place by `step` and `flash`. */
  class Cavern {
    const grid: array2<int>

    ghost predicate Valid()
      reads this
    {
      grid.Length0 == 10 && grid.Length1 == 10
    }

    /** The energy levels the grid holds. */
    ghost function Energy(): (e: Energies)
      requires Valid()
      reads this, grid
      ensures IsGrid(e) && forall c :: Cell(c) ==> At(e, c) == grid[c.y, c.x]
    {
      seq(10, y requires 0 <= y < 10 reads grid => seq(10, x requires 0 <= x < 10 reads grid => grid[y, x]))
    }

    /** The all-zero grid `from_str` starts from. */
    constructor()
      ensures Valid() && fresh(grid)
      ensures forall c :: Cell(c) ==> grid[c.y, c.x] == 0
    {
      grid := new int[10, 10]((y, x) => 0);
    }

    /** The inner loop of `from_str` for line `y`: writes its digits into
        row `y`, stopping with `false` at the first non-digit. */
    method WriteRow(row: string, y: nat, ghost digits: seq<seq<nat>>) returns (ok: bool, ghost ds: seq<nat>)
      requires Valid() && |digits| == y && !Collect(RowReadings(row, y)).Panics?
      requires forall c :: Cell(c) ==> grid[c.y, c.x] == WrittenAt(digits, c)
      modifies grid
      ensures ok <==> Collect(RowReadings(row, y)).Read?
      ensures ok ==> ds == Collect(RowReadings(row, y)).value
                     && forall c :: Cell(c) ==> grid[c.y, c.x] == WrittenAt(digits + [ds], c)
    {
      ghost var rs := RowReadings(row, y);
      ds := [];
      for x := 0 to |row|
        invariant Collect(rs[..x]) == Read(ds)
        invariant forall c :: Cell(c) ==> grid[c.y, c.x] == if c.y == y && c.x < x then ds[c.x] else WrittenAt(digits, c)
      {
        var energy := Text.ToDigit(row[x], 10);
        if energy.None? {
          CollectStops(rs, x);
          return false, ds;
        }
        if x >= 10 || y >= 10 {
          CollectStops(rs, x);
          assert false;
        }
        grid[y, x] := energy.value;
        CollectNext(rs, x);
        ds := ds + [energy.value];
      }
      assert rs[..|row|] == rs;
      ok := true;
    }

    /** `flash`: charges the in-bounds cells of the block around `(x, y)` by
        one, trying the offsets in order, and lists them in that order. */
    method Flash(x: nat, y: nat) returns (toVisit: seq<Pos>)
      requires Valid() && Cell(Pos(x, y))
      modifies grid
      ensures Energy() == Raised(old(Energy()), Block(Pos(x, y)))
      ensures toVisit == BlockList(Pos(x, y))
    {
      ghost var e := Energy();
      var p := Pos(x, y);
      toVisit := [];
      for i := 0 to |Offsets|
        invariant toVisit == BlockPrefix(p, i)
        invariant forall c :: Cell(c) ==> grid[c.y, c.x] == At(e, c) + if c in toVisit then 1 else 0
      {
        var nx, ny := x + Offsets[i].0, y + Offsets[i].1;
        BlockPrefixNext(p, i);
        if 0 <= ny < 10 && 0 <= nx < 10 {
          grid[ny, nx] := grid[ny, nx] + 1;
          toVisit := toVisit + [Pos(nx, ny)];
        }
      }
      RaisedByList(e, Energy(), p);
    }

    /** The first loop of `step`: every cell charged by one. */
    method ChargeAll()
      requires Valid()
      modifies grid
      ensures Energy() == Charged(old(Energy()))
    {
      ghost var e := Energy();
      for y := 0 to 10
        invariant forall c :: Cell(c) ==> grid[c.y, c.x] == At(e, c) + if c.y < y then 1 else 0
      {
        for x := 0 to 10
          invariant forall c :: Cell(c) ==> grid[c.y, c.x] == At(e, c) + if c.y < y || (c.y == y && c.x < x) then 1 else 0
        {
          grid[y, x] := grid[y, x] + 1;
        }
      }
      SameGrid(Energy(), Charged(e));
    }

    /** The end of a cascade started at `(x, y)`: that cell and every cell
        flashed so far in the step are set to 0. */
    method ResetFlashed(x: nat, y: nat, flashed: seq<Pos>, ghost fs: set<Pos>)
      requires Valid() && Cell(Pos(x, y)) && Pos(x, y) in flashed
      requires forall i :: 0 <= i < |flashed| ==> Cell(flashed[i])
      requires forall c :: c in fs <==> c in flashed
      modifies grid
      ensures Energy() == Zeroed(old(Energy()), fs)
    {
      ghost var e := Energy();
      grid[y, x] := 0;
      for i := 0 to |flashed|
        invariant forall c :: Cell(c) ==> grid[c.y, c.x] == if c in flashed[..i] || c == Pos(x, y) then 0 else At(e, c)
      {
        var c := flashed[i];
        grid[c.y, c.x] := 0;
        assert flashed[..i + 1] == flashed[..i] + [c];
      }
      assert flashed[..|flashed|] == flashed;
      SameGrid(Energy(), Zeroed(e, fs));
    }

    /** The `while` loop of `step`: pops cells off `toVisit` and flashes
        each one above 9 that has not flashed yet, pushing its block. */
    method Spread(ghost g: Energies, flashed: seq<Pos>, ghost fs: set<Pos>, toVisit: seq<Pos>, ghost k: nat)
      returns (flashed': seq<Pos>, ghost fs': set<Pos>)
      requires Valid() && Spreading(g, Energy(), flashed, fs, toVisit, k)
      modifies grid
      ensures Spreading(g, Energy(), flashed', fs', [], k) && fs <= fs'
    {
      flashed', fs' := flashed, fs;
      var todo := toVisit;
      while |todo| > 0
        invariant Spreading(g, Energy(), flashed', fs', todo, k) && fs <= fs'
        decreases Cells() - fs', |todo|
      {
        var p := todo[|todo| - 1];
        var rest := todo[..|todo| - 1];
        PopLast(todo);
        todo := rest;
        if grid[p.y, p.x] > 9 && p !in flashed' {
          SpreadFlash(g, Energy(), flashed', fs', rest, p, k);
          flashed', fs' := flashed' + [p], fs' + {p};
          var more := Flash(p.x, p.y);
          todo := todo + more;
          assert p in Cells() - (fs' - {p});
        } else {
          SpreadSkip(g, Energy(), flashed', fs', rest, p, k);
        }
      }
    }

    /** The body of the scan of `step` for cell `(x, y)`: a cell above 9 that
        has not flashed starts a cascade, after which the flashed cells are
        reset to 0. */
    method ScanCell(ghost g: Energies, flashed: seq<Pos>, ghost fs: set<Pos>, x: nat, y: nat)
      returns (flashed': seq<Pos>, ghost fs': set<Pos>)
      requires Valid() && Cell(Pos(x, y)) && Scanned(g, Energy(), flashed, fs, Index(Pos(x, y)))
      modifies grid
      ensures Scanned(g, Energy(), flashed', fs', Index(Pos(x, y)) + 1)
    {
      var c := Pos(x, y);
      flashed', fs' := flashed, fs;
      if grid[y, x] > 9 && c !in flashed {
        BeginCascade(g, Energy(), flashed, fs, c);
        flashed', fs' := flashed + [c], fs + {c};
        var toVisit := Flash(x, y);
        flashed', fs' := Spread(g, flashed', fs', toVisit, Index(c));
        ghost var e := Energy();
        assert c in fs' && c in flashed';
        assert forall i :: 0 <= i < |flashed'| ==> flashed'[i] in fs';
        assert forall i :: 0 <= i < |flashed'| ==> Cell(flashed'[i]);
        ResetFlashed(x, y, flashed', fs');
        EndCascade(g, e, Energy(), flashed', fs', c);
      } else {
        SkipCell(g, Energy(), flashed, fs, c);
      }
    }

    /** `step`: charges every cell, then scans the cells in row-major order,
        cascading from each one that exceeds 9. The cells that flash are
        exactly `Flashes` of the grid before the step, each listed once,
        and the grid ends as `After` of it. */
    method Step() returns (flashed: seq<Pos>)
      requires Valid()
      modifies grid
      ensures Energy() == After(old(Energy()))
      ensures Listed(flashed, Flashes(old(Energy())))
    {
      ghost var g := Energy();
      flashed := [];
      ChargeAll();
      StartScan(g);
      ghost var fs: set<Pos> := {};
      for y := 0 to 10
        invariant Scanned(g, Energy(), flashed, fs, 10 * y)
      {
        for x := 0 to 10
          invariant Scanned(g, Energy(), flashed, fs, 10 * y + x)
        {
          flashed, fs := ScanCell(g, flashed, fs, x, y);
        }
      }
      FinishStep(g, Energy(), flashed, fs);
    }
  }

  // --- Reading the cavern -------------------------------------------------------------------

  /** What `from_str` makes of character `ch` at column `x` of line `y`: a
      non-digit is an error, and a digit outside the 10 by 10 array is an
      index out of bounds. */
  function CharReading(ch: char, x: nat, y: nat): (r: Reading<nat>)
    ensures r.Invalid? <==> Text.ToDigit(ch, 10).None?
    ensures r.Read? <==> Text.ToDigit(ch, 10).Some? && x < 10 && y < 10
    ensures r.Read? ==> r.value <= 9 && r == Read(Text.ToDigit(ch, 10).value)
  {
    match Text.ToDigit(ch, 10)
    case None => Invalid
    case Some(d) => if x < 10 && y < 10 then Read(d) else Panics
  }

  /** The lines of the trimmed input, each trimmed. */
  function Rows(input: string): (rows: seq<string>)
    ensures |rows| == |Text.Lines(Text.Trim(input))|
    ensures forall y :: 0 <= y < |rows| ==> rows[y] == Text.Trim(Text.Lines(Text.Trim(input))[y])
  {
    var lines := Text.Lines(Text.Trim(input));
    seq(|lines|, y requires 0 <= y < |lines| => Text.Trim(lines[y]))
  }

  function RowReadings(row: string, y: nat): (rs: seq<Reading<nat>>)
    ensures |rs| == |row| && forall x :: 0 <= x < |row| ==> rs[x] == CharReading(row[x], x, y)
  {
    seq(|row|, x requires 0 <= x < |row| => CharReading(row[x], x, y))
  }

  function RowsReadings(rows: seq<string>): (rs: seq<Reading<seq<nat>>>)
    ensures |rs| == |rows| && forall y :: 0 <= y < |rows| ==> rs[y] == Collect(RowReadings(rows[y], y))
  {
    seq(|rows|, y requires 0 <= y < |rows| => Collect(RowReadings(rows[y], y)))
  }

  /** The energy the array holds at `c` once the rows `digits` are written
      over zeros. */
  function WrittenAt(digits: seq<seq<nat>>, c: Pos): nat {
    if c.y < |digits| && c.x < |digits[c.y]| then digits[c.y][c.x] else 0
  }

  function Fill(digits: seq<seq<nat>>): (e: Energies)
    ensures IsGrid(e) && forall c :: Cell(c) ==> At(e, c) == WrittenAt(digits, c)
  {
    seq(10, y requires 0 <= y < 10 => seq(10, x requires 0 <= x < 10 => WrittenAt(digits, Pos(x, y))))
  }

  /** `from_str` on the trimmed lines `rows`, character by character in
      reading order: the first non-digit or out-of-bounds digit decides the
      outcome. */
  function ParseRows(rows: seq<string>): Reading<Energies> {
    match Collect(RowsReadings(rows))
    case Read(digits) => Read(Fill(digits))
    case Invalid => Invalid
    case Panics => Panics
  }

  function ParseCavern(input: string): Reading<Energies> {
    ParseRows(Rows(input))
  }

  /** A line is read exactly when each of its characters is a digit
      inside the array, and then gives those digits. */
  lemma RowMeaning(row: string, y: nat)
    ensures Collect(RowReadings(row, y)).Read? <==>
      forall x :: 0 <= x < |row| ==> Text.ToDigit(row[x], 10).Some? && x < 10 && y < 10
    ensures Collect(RowReadings(row, y)).Read? ==>
      forall x :: 0 <= x < |row| ==> Collect(RowReadings(row, y)).value[x] == Text.ToDigit(row[x], 10).value
    ensures Collect(RowReadings(row, y)).Invalid? ==>
      exists x :: 0 <= x < |row| && Text.ToDigit(row[x], 10).None?
    ensures Collect(RowReadings(row, y)).Panics? ==>
      exists x :: 0 <= x < |row| && Text.ToDigit(row[x], 10).Some? && (x >= 10 || y >= 10)
  {
    CollectReadsEach(RowReadings(row, y));
    CollectFaults(RowReadings(row, y));
  }

  /** The input is read exactly when every character is a digit inside the
      10 by 10 array. */
  lemma ParseRowsReads(rows: seq<string>)
    ensures ParseRows(rows).Read? <==>
      forall y, x :: 0 <= y < |rows| && 0 <= x < |rows[y]| ==> Text.ToDigit(rows[y][x], 10).Some? && x < 10 && y < 10
  {
    var readings := RowsReadings(rows);
    CollectReadsEach(readings);
    assert ParseRows(rows).Read? <==> Collect(readings).Read?;
    forall y | 0 <= y < |rows|
      ensures readings[y].Read? <==>
        forall x :: 0 <= x < |rows[y]| ==> Text.ToDigit(rows[y][x], 10).Some? && x < 10 && y < 10
    {
      RowMeaning(rows[y], y);
    }
    if Collect(readings).Read? {
      forall y, x | 0 <= y < |rows| && 0 <= x < |rows[y]|
        ensures Text.ToDigit(rows[y][x], 10).Some? && x < 10 && y < 10
      {
        assert readings[y].Read?;
      }
    } else {
      var y :| 0 <= y < |rows| && !readings[y].Read?;
      var x :| 0 <= x < |rows[y]| && !(Text.ToDigit(rows[y][x], 10).Some? && x < 10 && y < 10);
    }
  }

  /** A cavern read holds the digits of the input, and 0 where the input is
      short. */
  lemma ParseRowsValues(rows: seq<string>)
    requires ParseRows(rows).Read?
    ensures var e := ParseRows(rows).value;
      IsGrid(e) && InRange(e)
      && forall c :: Cell(c) ==>
           if c.y < |rows| && c.x < |rows[c.y]| then Text.ToDigit(rows[c.y][c.x], 10) == Some(At(e, c)) else At(e, c) == 0
  {
    var readings := RowsReadings(rows);
    CollectReadsEach(readings);
    var digits := Collect(readings).value;
    forall y | 0 <= y < |rows|
      ensures |digits[y]| == |rows[y]|
      ensures forall x :: 0 <= x < |rows[y]| ==> Text.ToDigit(rows[y][x], 10) == Some(digits[y][x])
    {
      assert readings[y] == Read(digits[y]);
      RowMeaning(rows[y], y);
    }
    assert |digits| == |rows| && ParseRows(rows).value == Fill(digits);
  }

  /** Only a non-digit gives an error, and only a digit out of bounds a
      panic. */
  lemma ParseRowsFaults(rows: seq<string>)
    ensures ParseRows(rows).Invalid? ==>
      exists y, x :: 0 <= y < |rows| && 0 <= x < |rows[y]| && Text.ToDigit(rows[y][x], 10).None?
    ensures ParseRows(rows).Panics? ==>
      exists y, x :: 0 <= y < |rows| && 0 <= x < |rows[y]| && Text.ToDigit(rows[y][x], 10).Some? && (x >= 10 || y >= 10)
  {
    var readings := RowsReadings(rows);
    CollectFaults(readings);
    if ParseRows(rows).Invalid? {
      var y :| 0 <= y < |rows| && readings[y].Invalid?;
      RowMeaning(rows[y], y);
    }
    if ParseRows(rows).Panics? {
      var y :| 0 <= y < |rows| && readings[y].Panics?;
      RowMeaning(rows[y], y);
    }
  }

  /** `from_str`: writes each digit of the input into a zeroed array, row by
      row, failing at the first non-digit. */
  method FromStr(input: string) returns (r: Result<Cavern>)
    requires !ParseCavern(input).Panics?
    ensures r.Ok? <==> ParseCavern(input).Read?
    ensures r.Ok? ==> r.value.Valid() && fresh(r.value.grid) && r.value.Energy() == ParseCavern(input).value
  {
    var cavern := new Cavern();
    var lines := Text.Lines(Text.Trim(input));
    ghost var readings := RowsReadings(Rows(input));
    ghost var digits: seq<seq<nat>> := [];
    for y := 0 to |lines|
      invariant Collect(readings[..y]) == Read(digits)
      invariant forall c :: Cell(c) ==> cavern.grid[c.y, c.x] == WrittenAt(digits, c)
    {
      var row := Text.Trim(lines[y]);
      assert readings[y] == Collect(RowReadings(row, y));
      if readings[y].Panics? {
        CollectStops(readings, y);
        assert false;
      }
      var ok, ds := cavern.WriteRow(row, y, digits);
      if !ok {
        CollectStops(readings, y);
        return Err;
      }
      CollectNext(readings, y);
      digits := digits + [ds];
    }
    assert readings[..|lines|] == readings;
    SameGrid(cavern.Energy(), Fill(digits));
    return Ok(cavern);
  }

  // --- The two parts ------------------------------------------------------------------------

  /** The grid after `n` steps. */
  function Run(g: Energies, n: nat): (r: Energies)
    requires IsGrid(g)
    ensures IsGrid(r)
  {
    if n == 0 then g else After(Run(g, n - 1))
  }

  /** The number of octopuses that flash in step `n + 1`. */
  function StepFlashes(g: Energies, n: nat): nat
    requires IsGrid(g)
    decreases n
  {
    if n == 0 then |Flashes(g)| else StepFlashes(After(g), n - 1)
  }

  lemma {:induction false} RunFirst(g: Energies, n: nat)
    requires IsGrid(g)
    ensures Run(g, n + 1) == Run(After(g), n)
  {
    if n > 0 {
      RunFirst(g, n - 1);
    }
  }

  /** ... which is the number that flash from the grid after `n` steps. */
  lemma {:induction false} StepFlashesOfRun(g: Energies, n: nat)
    requires IsGrid(g)
    ensures StepFlashes(g, n) == |Flashes(Run(g, n))|
    decreases n
  {
    if n > 0 {
      StepFlashesOfRun(After(g), n - 1);
      RunFirst(g, n - 1);
    }
  }

  /** The number of flashes in the first `n` steps. */
  function TotalFlashes(g: Energies, n: nat): nat
    requires IsGrid(g)
  {
    if n == 0 then 0 else TotalFlashes(g, n - 1) + StepFlashes(g, n - 1)
  }

  /** The list `step` returns has one entry per flashing cell, and there are
      at most 100 of them. */
  lemma ListedCount(flashed: seq<Pos>, g: Energies)
    requires IsGrid(g) && Listed(flashed, Flashes(g))
    ensures |flashed| == |Flashes(g)| <= 100
  {
    Sums.DistinctCard(flashed, Flashes(g));
    FlashesWithin(g);
  }

  lemma FlashesWithin(g: Energies)
    requires IsGrid(g)
    ensures Flashes(g) <= Cells() && |Flashes(g)| <= 100
    ensures |Flashes(g)| == 100 <==> Flashes(g) == Cells()
  {
    FlashesFixed(g);
    CellCount();
    Cardinality(Flashes(g), Cells());
  }

  /** At most 100 flashes per step. */
  lemma {:induction false} TotalFlashesBound(g: Energies, n: nat)
    requires IsGrid(g)
    ensures TotalFlashes(g, n) <= 100 * n
  {
    if n > 0 {
      TotalFlashesBound(g, n - 1);
      FlashesWithin(Run(g, n - 1));
      StepFlashesOfRun(g, n - 1);
    }
  }

  /** Energy levels stay digits whatever the number of steps. */
  lemma {:induction false} RunInRange(g: Energies, n: nat)
    requires IsGrid(g) && InRange(g)
    ensures InRange(Run(g, n))
  {
    if n > 0 {
      var h := Run(g, n - 1);
      RunInRange(g, n - 1);
      assert IsGrid(h);
      assert InRange(h);
      AfterInRange(h);
    }
  }

  /** All 100 octopuses flash in a step exactly when the whole cavern is
      dark after it. */
  lemma SynchronisedIsDark(g: Energies)
    requires IsGrid(g) && InRange(g)
    ensures |Flashes(g)| == 100 <==> forall c :: Cell(c) ==> At(After(g), c) == 0
  {
    AfterInRange(g);
    FlashesWithin(g);
  }

  /** The number of steps part 1 runs. */
  const Steps: nat := 100

  /** `solve_part1`: the flashes of the first 100 steps. */
  method SolvePart1(input: string) returns (r: Result<nat>)
    requires !ParseCavern(input).Panics?
    ensures r.Ok? <==> ParseCavern(input).Read?
    ensures r.Ok? ==> r.value == TotalFlashes(ParseCavern(input).value, Steps)
  {
    var cavern :- FromStr(input);
    ghost var g := cavern.Energy();
    var flashes := 0;
    for i := 0 to Steps
      invariant cavern.Energy() == Run(g, i) && flashes == TotalFlashes(g, i)
    {
      var flashed := cavern.Step();
      ListedCount(flashed, Run(g, i));
      StepFlashesOfRun(g, i);
      flashes := flashes + |flashed|;
    }
    return Ok(flashes);
  }

  /** No step among the first `n` has every octopus flash. */
  ghost predicate NoneSynchronised(g: Energies, n: nat)
    requires IsGrid(g)
  {
    n == 0 || (NoneSynchronised(g, n - 1) && StepFlashes(g, n - 1) != 100)
  }

  lemma {:induction false} NoneSynchronisedMeans(g: Energies, n: nat)
    requires IsGrid(g)
    ensures NoneSynchronised(g, n) <==> forall m :: 0 <= m < n ==> StepFlashes(g, m) != 100
  {
    if n > 0 {
      NoneSynchronisedMeans(g, n - 1);
      assert NoneSynchronised(g, n) <==> NoneSynchronised(g, n - 1) && StepFlashes(g, n - 1) != 100;
    }
  }

  lemma NoneSynchronisedNext(g: Energies, n: nat)
    requires IsGrid(g) && NoneSynchronised(g, n) && StepFlashes(g, n) != 100
    ensures NoneSynchronised(g, n + 1)
  {
  }

  /** Step `n` (counting from 1) is the first in which every octopus
      flashes. */
  ghost predicate FirstSynchronised(g: Energies, n: nat)
    requires IsGrid(g)
  {
    n >= 1 && StepFlashes(g, n - 1) == 100 && NoneSynchronised(g, n - 1)
  }

  /** At most one step is the first to synchronise, and it comes no later
      than any synchronised step. */
  lemma FirstSynchronisedIsLeast(g: Energies, n: nat, m: nat)
    requires IsGrid(g) && FirstSynchronised(g, n) && StepFlashes(g, m) == 100
    ensures n <= m + 1
  {
    NoneSynchronisedMeans(g, n - 1);
  }

  /** The list `step` returns from the grid after `n` steps holds as many
      cells as flash in step `n + 1`. */
  lemma FlashedCount(flashed: seq<Pos>, g: Energies, n: nat)
    requires IsGrid(g) && Listed(flashed, Flashes(Run(g, n)))
    ensures |flashed| == StepFlashes(g, n)
  {
    ListedCount(flashed, Run(g, n));
    StepFlashesOfRun(g, n);
  }

  /** One more step either is the first synchronised one or extends the
      unsynchronised run, which cannot pass a synchronised step. */
  lemma SyncStep(g: Energies, n: nat, bound: nat, count: nat)
    requires IsGrid(g) && NoneSynchronised(g, n) && n <= bound
    requires StepFlashes(g, bound) == 100 && count == StepFlashes(g, n)
    ensures count == 100 ==> FirstSynchronised(g, n + 1)
    ensures count != 100 ==> NoneSynchronised(g, n + 1) && n + 1 <= bound
  {
  }

  /** One `step` of the cavern after `n` steps from `g`, returning how many
      cells it flashed. */
  method Advance(cavern: Cavern, ghost g: Energies, ghost n: nat) returns (count: nat)
    requires cavern.Valid() && IsGrid(g) && cavern.Energy() == Run(g, n)
    modifies cavern.grid
    ensures cavern.Energy() == Run(g, n + 1) && count == StepFlashes(g, n)
  {
    var flashed := cavern.Step();
    FlashedCount(flashed, g, n);
    count := |flashed|;
  }

  /** `solve_part2`: steps until one returns 100 flashed cells. The source
      loops forever if that never happens, so a step where it does is
      required. */
  method SolvePart2(input: string) returns (r: Result<nat>)
    requires !ParseCavern(input).Panics?
    requires ParseCavern(input).Read? ==> exists n: nat :: StepFlashes(ParseCavern(input).value, n) == 100
    ensures r.Ok? <==> ParseCavern(input).Read?
    ensures r.Ok? ==> FirstSynchronised(ParseCavern(input).value, r.value)
  {
    var cavern :- FromStr(input);
    ghost var g := cavern.Energy();
    ghost var bound: nat :| StepFlashes(g, bound) == 100;
    var step := 0;
    while true
      invariant cavern.Energy() == Run(g, step) && step <= bound && NoneSynchronised(g, step)
      decreases bound - step
    {
      var count := Advance(cavern, g, step);
      SyncStep(g, step, bound, count);
      step := step + 1;
      if count == 100 {
        break;
      }
    }
    return Ok(step);
  }
}
