/** Day 4: giant squid bingo. Each board is a 5×5 grid of numbers that keeps
    a counter of marked cells per row and per column; a board wins when a
    counter reaches 5. Part 1 scores the first board to win, part 2 the last. */
module Day04 {
  import opened Wrappers
  import Text

  /** The side of a board. */
  const SIZE: int := 5

  /** `BoardNum`: a number on a board, marked once it has been drawn. */
  datatype Cell = Marked(value: int) | Unmarked(value: int)

  /** The numbers of a board, row by row. */
  type Grid = seq<seq<int>>

  predicate IsGrid(g: Grid) {
    |g| == SIZE && forall r :: 0 <= r < SIZE ==> |g[r]| == SIZE
  }

  predicate IsCells(cells: seq<seq<Cell>>) {
    |cells| == SIZE && forall r :: 0 <= r < SIZE ==> |cells[r]| == SIZE
  }

  /** The cells of the board with numbers `g` once the numbers in `drawn`
      have been drawn. */
  function CellsOf(g: Grid, drawn: set<int>): (cells: seq<seq<Cell>>)
    requires IsGrid(g)
    ensures IsCells(cells)
  {
    seq(SIZE, r requires 0 <= r < SIZE =>
      seq(SIZE, c requires 0 <= c < SIZE => if g[r][c] in drawn then Marked(g[r][c]) else Unmarked(g[r][c])))
  }

  /** What drawing `n` does to one cell. */
  function MarkIf(cell: Cell, n: int): Cell {
    if cell == Unmarked(n) then Marked(n) else cell
  }

  function MarkRow(row: seq<Cell>, n: int): (r: seq<Cell>)
    ensures |r| == |row|
  {
    seq(|row|, i requires 0 <= i < |row| => MarkIf(row[i], n))
  }

  /** `Board::draw` on the cells: every unmarked cell holding `n` is marked. */
  function DrawCells(cells: seq<seq<Cell>>, n: int): (r: seq<seq<Cell>>)
    ensures |r| == |cells| && forall i :: 0 <= i < |r| ==> r[i] == MarkRow(cells[i], n)
  {
    seq(|cells|, i requires 0 <= i < |cells| => MarkRow(cells[i], n))
  }

  /** Drawing a number marks exactly the cells that hold it: the board after
      drawing `n` is the board whose drawn set has gained `n`. */
  lemma DrawCellsOf(g: Grid, drawn: set<int>, n: int)
    requires IsGrid(g)
    ensures DrawCells(CellsOf(g, drawn), n) == CellsOf(g, drawn + {n})
  {
    var before, after := CellsOf(g, drawn), CellsOf(g, drawn + {n});
    forall r | 0 <= r < SIZE
      ensures DrawCells(before, n)[r] == after[r]
    {
    }
  }

  /** Drawing the same number a second time changes nothing. */
  lemma DrawTwice(cells: seq<seq<Cell>>, n: int)
    ensures DrawCells(DrawCells(cells, n), n) == DrawCells(cells, n)
  {
    var once := DrawCells(cells, n);
    forall r | 0 <= r < |cells|
      ensures DrawCells(once, n)[r] == once[r]
    {
    }
  }

  /** The number of marked cells in a row or column. */
  function CountMarked(line: seq<Cell>): (k: nat)
    ensures k <= |line|
  {
    if line == [] then 0
    else CountMarked(line[..|line| - 1]) + (if line[|line| - 1].Marked? then 1 else 0)
  }

  /** A line's count reaches its length exactly when every cell is marked. */
  lemma {:induction false} CountMarkedFull(line: seq<Cell>)
    ensures CountMarked(line) == |line| <==> forall i :: 0 <= i < |line| ==> line[i].Marked?
  {
    if line != [] {
      var front := line[..|line| - 1];
      CountMarkedFull(front);
      assert forall i :: 0 <= i < |front| ==> front[i] == line[i];
    }
  }

  /** A line with no marked cell counts zero. */
  lemma {:induction false} CountMarkedNone(line: seq<Cell>)
    requires forall i :: 0 <= i < |line| ==> line[i].Unmarked?
    ensures CountMarked(line) == 0
  {
    if line != [] {
      CountMarkedNone(line[..|line| - 1]);
    }
  }

  /** Marking one unmarked cell adds one to its line's count. */
  lemma {:induction false} CountMarkedUpdate(line: seq<Cell>, i: nat, v: int)
    requires i < |line| && line[i].Unmarked?
    ensures CountMarked(line[i := Marked(v)]) == CountMarked(line) + 1
  {
    var n := |line|;
    var after := line[i := Marked(v)];
    if i < n - 1 {
      CountMarkedUpdate(line[..n - 1], i, v);
      assert after[..n - 1] == line[..n - 1][i := Marked(v)];
    } else {
      assert after[..n - 1] == line[..n - 1];
    }
  }

  function Column(cells: seq<seq<Cell>>, c: int): (col: seq<Cell>)
    requires IsCells(cells) && 0 <= c < SIZE
    ensures |col| == SIZE
  {
    seq(SIZE, r requires 0 <= r < SIZE => cells[r][c])
  }

  predicate RowComplete(cells: seq<seq<Cell>>, r: int)
    requires IsCells(cells) && 0 <= r < SIZE
  {
    forall c :: 0 <= c < SIZE ==> cells[r][c].Marked?
  }

  predicate ColumnComplete(cells: seq<seq<Cell>>, c: int)
    requires IsCells(cells) && 0 <= c < SIZE
  {
    forall r :: 0 <= r < SIZE ==> cells[r][c].Marked?
  }

  /** Bingo: some row or some column is marked all the way through. */
  predicate Wins(cells: seq<seq<Cell>>)
    requires IsCells(cells)
  {
    (exists r :: 0 <= r < SIZE && RowComplete(cells, r)) ||
    (exists c :: 0 <= c < SIZE && ColumnComplete(cells, c))
  }

  /** The value of a `marked_rows`/`marked_cols` entry, 0 when absent. */
  function Counter(m: map<int, int>, k: int): int {
    if k in m then m[k] else 0
  }

  /** The counters a board keeps agree with its cells. */
  predicate CountersMatch(cells: seq<seq<Cell>>, rows: map<int, int>, cols: map<int, int>)
    requires IsCells(cells)
  {
    (forall k :: k in rows ==> 0 <= k < SIZE) &&
    (forall k :: k in cols ==> 0 <= k < SIZE) &&
    (forall r :: 0 <= r < SIZE ==> Counter(rows, r) == CountMarked(cells[r])) &&
    (forall c :: 0 <= c < SIZE ==> Counter(cols, c) == CountMarked(Column(cells, c)))
  }

  /** `is_win`: some counter has reached 5. */
  predicate FullCounter(rows: map<int, int>, cols: map<int, int>) {
    (exists k :: k in rows && rows[k] == SIZE) || (exists k :: k in cols && cols[k] == SIZE)
  }

  /** With counters that agree with the cells, a counter reaches 5 exactly
      when a row or column is complete. */
  lemma CountersDecideWin(cells: seq<seq<Cell>>, rows: map<int, int>, cols: map<int, int>)
    requires IsCells(cells) && CountersMatch(cells, rows, cols)
    ensures FullCounter(rows, cols) <==> Wins(cells)
  {
    RowCountersDecide(cells, rows, cols);
    ColumnCountersDecide(cells, rows, cols);
  }

  lemma RowCountersDecide(cells: seq<seq<Cell>>, rows: map<int, int>, cols: map<int, int>)
    requires IsCells(cells) && CountersMatch(cells, rows, cols)
    ensures (exists k :: k in rows && rows[k] == SIZE) <==> exists r :: 0 <= r < SIZE && RowComplete(cells, r)
  {
    if exists k :: k in rows && rows[k] == SIZE {
      var k :| k in rows && rows[k] == SIZE;
      CountMarkedFull(cells[k]);
      assert RowComplete(cells, k);
    }
    if exists r :: 0 <= r < SIZE && RowComplete(cells, r) {
      var r :| 0 <= r < SIZE && RowComplete(cells, r);
      CountMarkedFull(cells[r]);
      assert Counter(rows, r) == SIZE;
    }
  }

  lemma ColumnCountersDecide(cells: seq<seq<Cell>>, rows: map<int, int>, cols: map<int, int>)
    requires IsCells(cells) && CountersMatch(cells, rows, cols)
    ensures (exists k :: k in cols && cols[k] == SIZE) <==> exists c :: 0 <= c < SIZE && ColumnComplete(cells, c)
  {
    if exists k :: k in cols && cols[k] == SIZE {
      var k :| k in cols && cols[k] == SIZE;
      CountMarkedFull(Column(cells, k));
      assert forall r :: 0 <= r < SIZE ==> Column(cells, k)[r] == cells[r][k];
      assert ColumnComplete(cells, k);
    }
    if exists c :: 0 <= c < SIZE && ColumnComplete(cells, c) {
      var c :| 0 <= c < SIZE && ColumnComplete(cells, c);
      CountMarkedFull(Column(cells, c));
      assert Counter(cols, c) == SIZE;
    }
  }

  /** Marking one unmarked cell and bumping its row and column counters
      keeps the counters in agreement with the cells. */
  lemma MarkKeepsCounters(cells: seq<seq<Cell>>, rows: map<int, int>, cols: map<int, int>, row: int, col: int)
    requires IsCells(cells) && CountersMatch(cells, rows, cols)
    requires 0 <= row < SIZE && 0 <= col < SIZE && cells[row][col].Unmarked?
    ensures var after := cells[row := cells[row][col := Marked(cells[row][col].value)]];
            IsCells(after) &&
            CountersMatch(after, rows[row := Counter(rows, row) + 1], cols[col := Counter(cols, col) + 1])
  {
    var v := cells[row][col].value;
    var after := cells[row := cells[row][col := Marked(v)]];
    CountMarkedUpdate(cells[row], col, v);
    CountMarkedUpdate(Column(cells, col), row, v);
    assert Column(after, col) == Column(cells, col)[row := Marked(v)];
    forall c | 0 <= c < SIZE && c != col
      ensures Column(after, c) == Column(cells, c)
    {
    }
  }

  /** The sum of the unmarked numbers in a line. */
  function UnmarkedInRow(line: seq<Cell>): int {
    if line == [] then 0
    else UnmarkedInRow(line[..|line| - 1]) + (if line[|line| - 1].Unmarked? then line[|line| - 1].value else 0)
  }

  /** `Board::score`: the sum of all unmarked numbers. */
  function UnmarkedSum(cells: seq<seq<Cell>>): int {
    if cells == [] then 0 else UnmarkedSum(cells[..|cells| - 1]) + UnmarkedInRow(cells[|cells| - 1])
  }

  /** How many unmarked cells of a line hold `n`. */
  function UnmarkedCopies(line: seq<Cell>, n: int): nat {
    if line == [] then 0
    else UnmarkedCopies(line[..|line| - 1], n) + (if line[|line| - 1] == Unmarked(n) then 1 else 0)
  }

  function UnmarkedCopiesOnBoard(cells: seq<seq<Cell>>, n: int): nat {
    if cells == [] then 0
    else UnmarkedCopiesOnBoard(cells[..|cells| - 1], n) + UnmarkedCopies(cells[|cells| - 1], n)
  }

  lemma {:induction false} MarkRowScore(line: seq<Cell>, n: int)
    ensures UnmarkedInRow(MarkRow(line, n)) == UnmarkedInRow(line) - n * UnmarkedCopies(line, n)
  {
    if line != [] {
      var k := |line|;
      MarkRowScore(line[..k - 1], n);
      assert MarkRow(line, n)[..k - 1] == MarkRow(line[..k - 1], n);
    }
  }

  /** Drawing `n` lowers the score by `n` for each unmarked copy of `n`. */
  lemma {:induction false} ScoreAfterDraw(cells: seq<seq<Cell>>, n: int)
    ensures UnmarkedSum(DrawCells(cells, n)) == UnmarkedSum(cells) - n * UnmarkedCopiesOnBoard(cells, n)
  {
    if cells != [] {
      var k := |cells|;
      ScoreAfterDraw(cells[..k - 1], n);
      MarkRowScore(cells[k - 1], n);
      var after := DrawCells(cells, n);
      assert after[..k - 1] == DrawCells(cells[..k - 1], n);
      assert after[k - 1] == MarkRow(cells[k - 1], n);
      var a, b := UnmarkedCopiesOnBoard(cells[..k - 1], n), UnmarkedCopies(cells[k - 1], n);
      Distribute(n, a, b);
    }
  }

  lemma Distribute(n: int, a: int, b: int)
    ensures n * (a + b) == n * a + n * b
  {
  }

  /** A board: its cells and the two counter maps. */
  class Board {
    var cells: seq<seq<Cell>>
    var markedRows: map<int, int>
    var markedCols: map<int, int>

    ghost predicate Valid()
      reads this
    {
      IsCells(cells) && CountersMatch(cells, markedRows, markedCols)
    }

    /** A board fresh from `from_str`: nothing marked, no counters. */
    constructor(g: Grid)
      requires IsGrid(g)
      ensures Valid() && cells == CellsOf(g, {})
      ensures markedRows == map[] && markedCols == map[]
    {
      cells := CellsOf(g, {});
      markedRows := map[];
      markedCols := map[];
      new;
      forall r | 0 <= r < SIZE {
        CountMarkedNone(cells[r]);
      }
      forall c | 0 <= c < SIZE {
        CountMarkedNone(Column(cells, c));
      }
    }

    /** `draw`: marks every unmarked cell holding `n` and bumps its row and
        column counters. */
    method Draw(n: int)
      requires Valid()
      modifies this
      ensures Valid() && cells == DrawCells(old(cells), n)
    {
      ghost var before := cells;
      for row := 0 to SIZE
        invariant Valid()
        invariant forall r :: 0 <= r < SIZE ==> cells[r] == if r < row then MarkRow(before[r], n) else before[r]
      {
        DrawRow(row, n);
      }
    }

    /** One pass of the inner loop of `draw`, over the cells of `row`. */
    method DrawRow(row: int, n: int)
      requires Valid() && 0 <= row < SIZE
      modifies this
      ensures Valid() && cells == old(cells)[row := MarkRow(old(cells)[row], n)]
    {
      ghost var before := cells;
      for col := 0 to SIZE
        invariant Valid()
        invariant forall r :: 0 <= r < SIZE && r != row ==> cells[r] == before[r]
        invariant forall c :: 0 <= c < SIZE ==> cells[row][c] == if c < col then MarkIf(before[row][c], n) else before[row][c]
      {
        if cells[row][col].Unmarked? && cells[row][col].value == n {
          Mark(row, col);
        }
      }
      assert cells[row] == MarkRow(before[row], n);
    }

    /** The body of the inner loop of `draw` for a cell holding the drawn
        number: mark it, then bump the counters of its row and column
        (`entry(..).or_insert(0)` followed by `+= 1`). */
    method Mark(row: int, col: int)
      requires Valid() && 0 <= row < SIZE && 0 <= col < SIZE && cells[row][col].Unmarked?
      modifies this
      ensures Valid() && cells == old(cells[row := cells[row][col := Marked(cells[row][col].value)]])
      ensures markedRows == old(markedRows[row := Counter(markedRows, row) + 1])
      ensures markedCols == old(markedCols[col := Counter(markedCols, col) + 1])
    {
      MarkKeepsCounters(cells, markedRows, markedCols, row, col);
      cells := cells[row := cells[row][col := Marked(cells[row][col].value)]];
      markedRows := markedRows[row := Counter(markedRows, row) + 1];
      markedCols := markedCols[col := Counter(markedCols, col) + 1];
    }

    /** `is_win`: a row or column counter has reached 5, which is the case
        exactly when a row or column is fully marked. */
    predicate IsWin()
      requires Valid()
      reads this
      ensures IsWin() <==> Wins(cells)
    {
      CountersDecideWin(cells, markedRows, markedCols);
      FullCounter(markedRows, markedCols)
    }

    /** `score`: the sum of the unmarked numbers. */
    method Score() returns (score: int)
      requires Valid()
      ensures score == UnmarkedSum(cells)
    {
      score := 0;
      for row := 0 to SIZE
        invariant score == UnmarkedSum(cells[..row])
      {
        assert cells[..row + 1][..row] == cells[..row];
        for col := 0 to SIZE
          invariant score == UnmarkedSum(cells[..row]) + UnmarkedInRow(cells[row][..col])
        {
          assert cells[row][..col + 1][..col] == cells[row][..col];
          if cells[row][col].Unmarked? {
            score := score + cells[row][col].value;
          }
        }
        assert cells[row][..SIZE] == cells[row];
      }
      assert cells[..SIZE] == cells;
    }
  }

  /** The array `from_str` starts from: all zeros. */
  function Blank(): (g: Grid)
    ensures IsGrid(g)
  {
    seq(SIZE, _ => seq(SIZE, _ => 0))
  }

  /** The inner loop of `from_str` over the words of line `y`: each word is
      parsed as a `u8` (an `Err` stops the parse) and then stored at column
      `x`, which panics when `y` or `x` is past the array. */
  function FillRow(g: Grid, y: nat, words: seq<string>): (r: Reading<Grid>)
    requires IsGrid(g)
    ensures r.Read? ==> IsGrid(r.value)
  {
    if words == [] then Read(g)
    else
      match FillRow(g, y, words[..|words| - 1])
      case Read(h) =>
        var x := |words| - 1;
        (match Text.ParseInt(words[x], 0, Text.U8_MAX)
         case None => Invalid
         case Some(v) => if y < SIZE && x < SIZE then Read(h[y := h[y][x := v]]) else Panics)
      case Invalid => Invalid
      case Panics => Panics
  }

  /** The words of each line of a board's group. */
  function BoardWords(group: string): (lines: seq<seq<string>>)
    ensures |lines| == |Text.Lines(group)|
  {
    var raw := Text.Lines(group);
    seq(|raw|, y requires 0 <= y < |raw| => Text.SplitWhitespace(Text.Trim(raw[y])))
  }

  /** The outer loop of `from_str` over the lines, given their words. */
  function FillLines(lines: seq<seq<string>>): (r: Reading<Grid>)
    ensures r.Read? ==> IsGrid(r.value)
  {
    if lines == [] then Read(Blank())
    else
      match FillLines(lines[..|lines| - 1])
      case Read(g) => FillRow(g, |lines| - 1, lines[|lines| - 1])
      case Invalid => Invalid
      case Panics => Panics
  }

  /** `Board::from_str` on the numbers: the grid of the group's lines. */
  function ParseBoard(group: string): Reading<Grid> {
    FillLines(BoardWords(group))
  }

  /** Filling a row that has words needs the row and every column inside
      the array. */
  lemma {:induction false} FillRowBounds(g: Grid, y: nat, words: seq<string>)
    requires IsGrid(g) && FillRow(g, y, words).Read? && words != []
    ensures y < SIZE && |words| <= SIZE
  {
    if |words| > 1 {
      FillRowBounds(g, y, words[..|words| - 1]);
    }
  }

  /** After a row is filled, its `x`-th cell holds the `x`-th word. */
  lemma {:induction false} FillRowCell(g: Grid, y: nat, words: seq<string>, x: nat)
    requires IsGrid(g) && FillRow(g, y, words).Read? && x < |words|
    ensures y < SIZE && x < SIZE
    ensures Text.ParseInt(words[x], 0, Text.U8_MAX) == Some(FillRow(g, y, words).value[y][x])
  {
    FillRowBounds(g, y, words);
    var front := words[..|words| - 1];
    if x < |front| {
      FillRowCell(g, y, front, x);
      assert front[x] == words[x];
      if |front| > 0 {
        FillRowBounds(g, y, front);
      }
    }
  }

  /** Filling a row leaves every other cell as it was. */
  lemma {:induction false} FillRowKeeps(g: Grid, y: nat, words: seq<string>, r: nat, c: nat)
    requires IsGrid(g) && FillRow(g, y, words).Read? && r < SIZE && c < SIZE
    requires r != y || c >= |words|
    ensures FillRow(g, y, words).value[r][c] == g[r][c]
  {
    if words != [] {
      FillRowKeeps(g, y, words[..|words| - 1], r, c);
    }
  }

  /** A parsed group's lines before the last were parsed too. */
  lemma FillLinesFront(lines: seq<seq<string>>)
    requires lines != [] && FillLines(lines).Read?
    ensures FillLines(lines[..|lines| - 1]).Read?
    ensures FillLines(lines) == FillRow(FillLines(lines[..|lines| - 1]).value, |lines| - 1, lines[|lines| - 1])
  {
  }

  /** A parsed board holds, at row `y` and column `x`, the `x`-th word of
      line `y`; so no line has more than 5 words and no line past the fifth
      has any. */
  lemma {:induction false} ParsedBoardCell(lines: seq<seq<string>>, y: nat, x: nat)
    requires FillLines(lines).Read? && y < |lines| && x < |lines[y]|
    ensures y < SIZE && x < SIZE
    ensures Text.ParseInt(lines[y][x], 0, Text.U8_MAX) == Some(FillLines(lines).value[y][x])
  {
    var n := |lines|;
    var front := lines[..n - 1];
    var ws := lines[n - 1];
    FillLinesFront(lines);
    var g0 := FillLines(front).value;
    if y < n - 1 {
      assert front[y] == lines[y];
      ParsedBoardCell(front, y, x);
      FillRowKeeps(g0, n - 1, ws, y, x);
    } else {
      FillRowCell(g0, n - 1, ws, x);
    }
  }

  /** A cell for which the group has no word keeps the initial 0. */
  lemma {:induction false} ParsedBoardBlank(lines: seq<seq<string>>, y: nat, x: nat)
    requires FillLines(lines).Read? && y < SIZE && x < SIZE
    requires y >= |lines| || x >= |lines[y]|
    ensures FillLines(lines).value[y][x] == 0
  {
    if lines != [] {
      var n := |lines|;
      var front := lines[..n - 1];
      var ws := lines[n - 1];
      FillLinesFront(lines);
      var g0 := FillLines(front).value;
      if y < n - 1 {
        assert front[y] == lines[y];
      }
      FillRowKeeps(g0, n - 1, ws, y, x);
      ParsedBoardBlank(front, y, x);
    }
  }

  /** The boards' groups, each parsed in turn; the first that fails decides. */
  function ParseBoards(groups: seq<string>): (r: Reading<seq<Grid>>)
    ensures r.Read? ==> |r.value| == |groups| && forall i :: 0 <= i < |groups| ==> IsGrid(r.value[i])
  {
    if groups == [] then Read([])
    else
      match ParseBoards(groups[..|groups| - 1])
      case Read(front) =>
        (match ParseBoard(groups[|groups| - 1])
         case Read(g) => Read(front + [g])
         case Invalid => Invalid
         case Panics => Panics)
      case Invalid => Invalid
      case Panics => Panics
  }

  /** The draws and the boards' numbers. */
  datatype Game = Game(draws: seq<int>, grids: seq<Grid>)

  /** The parsing common to both parts: the trimmed input split at blank
      lines; the first group holds the draws (each a `u8`), every further
      group a board. A bad draw is reported before any board is read. */
  function Setup(input: string): (r: Reading<Game>)
    ensures r.Read? ==> AllGrids(r.value.grids)
  {
    var groups := Text.Split(Text.Trim(input), "\n\n");
    match Text.ParseAll(Text.Split(groups[0], ","), 0, Text.U8_MAX)
    case Err => Invalid
    case Ok(draws) =>
      match ParseBoards(groups[1..])
      case Read(grids) => Read(Game(draws, grids))
      case Invalid => Invalid
      case Panics => Panics
  }

  predicate AllGrids(grids: seq<Grid>) {
    forall i :: 0 <= i < |grids| ==> IsGrid(grids[i])
  }

  /** The numbers among the first `k` draws. */
  function Drawn(draws: seq<int>, k: nat): set<int>
    requires k <= |draws|
  {
    set i | 0 <= i < k :: draws[i]
  }

  lemma DrawnNext(draws: seq<int>, k: nat)
    requires k < |draws|
    ensures Drawn(draws, k + 1) == Drawn(draws, k) + {draws[k]}
  {
  }

  /** Board `g` has bingo once the draw at index `k` is made. */
  predicate WinsAt(g: Grid, draws: seq<int>, k: nat)
    requires IsGrid(g) && k < |draws|
  {
    Wins(CellsOf(g, Drawn(draws, k + 1)))
  }

  /** The first board from index `b` on that has bingo at draw `k`. */
  function FirstBoard(grids: seq<Grid>, draws: seq<int>, k: nat, b: nat): (r: Option<nat>)
    requires AllGrids(grids) && k < |draws| && b <= |grids|
    ensures r.Some? ==> b <= r.value < |grids| && WinsAt(grids[r.value], draws, k)
    ensures r.Some? ==> forall j :: b <= j < r.value ==> !WinsAt(grids[j], draws, k)
    ensures r.None? ==> forall j :: b <= j < |grids| ==> !WinsAt(grids[j], draws, k)
    decreases |grids| - b
  {
    if b == |grids| then None
    else if WinsAt(grids[b], draws, k) then Some(b)
    else FirstBoard(grids, draws, k, b + 1)
  }

  /** Part 1's winner: the first draw from index `k` on at which some board
      has bingo, and the first such board. */
  function FirstWinner(grids: seq<Grid>, draws: seq<int>, k: nat): (r: Option<(nat, nat)>)
    requires AllGrids(grids) && k <= |draws|
    ensures r.Some? ==> k <= r.value.0 < |draws| && r.value.1 < |grids|
    ensures r.Some? ==> WinsAt(grids[r.value.1], draws, r.value.0)
    ensures r.Some? ==> forall j :: 0 <= j < r.value.1 ==> !WinsAt(grids[j], draws, r.value.0)
    ensures r.Some? ==> forall d, j :: k <= d < r.value.0 && 0 <= j < |grids| ==> !WinsAt(grids[j], draws, d)
    ensures r.None? ==> forall d, j :: k <= d < |draws| && 0 <= j < |grids| ==> !WinsAt(grids[j], draws, d)
    decreases |draws| - k
  {
    if k == |draws| then None
    else
      match FirstBoard(grids, draws, k, 0)
      case Some(b) => Some((k, b))
      case None => FirstWinner(grids, draws, k + 1)
  }

  /** The score of board `g` after the draw at index `k`, times that draw. */
  function FinalScore(g: Grid, draws: seq<int>, k: nat): int
    requires IsGrid(g) && k < |draws|
  {
    UnmarkedSum(CellsOf(g, Drawn(draws, k + 1))) * draws[k]
  }

  /** The boards of `alive` that do not have bingo at draw `k`, in order:
      `retain` after a draw. */
  function Losers(grids: seq<Grid>, draws: seq<int>, alive: seq<nat>, k: nat): (r: seq<nat>)
    requires AllGrids(grids) && k < |draws| && forall i :: 0 <= i < |alive| ==> alive[i] < |grids|
    ensures forall x :: x in r <==> x in alive && !WinsAt(grids[x], draws, k)
  {
    if alive == [] then []
    else
      var front := Losers(grids, draws, alive[..|alive| - 1], k);
      var b := alive[|alive| - 1];
      assert forall x :: x in alive <==> x in alive[..|alive| - 1] || x == b by {
        assert alive == alive[..|alive| - 1] + [b];
      }
      if WinsAt(grids[b], draws, k) then front else front + [b]
  }

  /** Part 2's loop from draw `k` with the boards `alive` still in play:
      while more than one board is left, every winner is dropped after each
      draw; once one is left, it is the answer at the first draw it wins. */
  function LastWinner(grids: seq<Grid>, draws: seq<int>, alive: seq<nat>, k: nat): (r: Option<(nat, nat)>)
    requires AllGrids(grids) && k <= |draws| && forall i :: 0 <= i < |alive| ==> alive[i] < |grids|
    ensures r.Some? ==> k <= r.value.0 < |draws| && r.value.1 in alive
    ensures r.Some? ==> WinsAt(grids[r.value.1], draws, r.value.0)
    decreases |draws| - k
  {
    if k == |draws| then None
    else if |alive| == 1 then
      if WinsAt(grids[alive[0]], draws, k) then Some((k, alive[0])) else LastWinner(grids, draws, alive, k + 1)
    else
      var kept := Losers(grids, draws, alive, k);
      assert forall i :: 0 <= i < |kept| ==> kept[i] in alive;
      LastWinner(grids, draws, kept, k + 1)
  }

  /** All boards, in input order. */
  function AllBoards(n: nat): (r: seq<nat>)
    ensures |r| == n && forall i :: 0 <= i < n ==> r[i] == i
  {
    seq(n, i => i)
  }

  /** Board `g` had bingo at some draw before the one at index `w`. */
  predicate WonBefore(g: Grid, draws: seq<int>, w: nat)
    requires IsGrid(g) && w <= |draws|
  {
    exists d: nat :: d < w && WinsAt(g, draws, d)
  }

  /** Board `b` has bingo first at draw `w`, and every other board had
      bingo at some earlier draw. */
  predicate LastToWin(grids: seq<Grid>, draws: seq<int>, w: nat, b: nat)
    requires AllGrids(grids)
  {
    w < |draws| && b < |grids| && WinsAt(grids[b], draws, w) &&
    (forall d :: 0 <= d < w ==> !WinsAt(grids[b], draws, d)) &&
    (forall j :: 0 <= j < |grids| && j != b ==> WonBefore(grids[j], draws, w))
  }

  /** The board part 2 reports is the last to win. */
  lemma LastWinnerIsLast(grids: seq<Grid>, draws: seq<int>)
    requires AllGrids(grids) && LastWinner(grids, draws, AllBoards(|grids|), 0).Some?
    ensures var r := LastWinner(grids, draws, AllBoards(|grids|), 0).value;
            LastToWin(grids, draws, r.0, r.1)
  {
    var all := AllBoards(|grids|);
    forall j | 0 <= j < |grids|
      ensures j in all
    {
      assert all[j] == j;
    }
    LastWinnerFrom(grids, draws, all, 0);
  }

  lemma {:induction false} LastWinnerFrom(grids: seq<Grid>, draws: seq<int>, alive: seq<nat>, k: nat)
    requires AllGrids(grids) && k <= |draws| && forall i :: 0 <= i < |alive| ==> alive[i] < |grids|
    requires forall j :: 0 <= j < |grids| && j !in alive ==> WonBefore(grids[j], draws, k)
    requires forall j, d :: j in alive && 0 <= d < k ==> !WinsAt(grids[j], draws, d)
    requires LastWinner(grids, draws, alive, k).Some?
    ensures var r := LastWinner(grids, draws, alive, k).value;
            k <= r.0 && LastToWin(grids, draws, r.0, r.1)
    decreases |draws| - k
  {
    if |alive| == 1 {
      var b := alive[0];
      if !WinsAt(grids[b], draws, k) {
        LastWinnerFrom(grids, draws, alive, k + 1);
      } else {
        assert LastWinner(grids, draws, alive, k) == Some((k, b));
        assert alive == [b];
        forall j | 0 <= j < |grids| && j != b
          ensures WonBefore(grids[j], draws, k)
        {
          assert j !in alive;
        }
        assert LastToWin(grids, draws, k, b);
      }
    } else {
      var kept := Losers(grids, draws, alive, k);
      assert forall i :: 0 <= i < |kept| ==> kept[i] in alive;
      assert LastWinner(grids, draws, alive, k) == LastWinner(grids, draws, kept, k + 1);
      forall j | 0 <= j < |grids| && j !in kept
        ensures WonBefore(grids[j], draws, k + 1)
      {
        if j in alive {
          assert WinsAt(grids[j], draws, k);
        } else {
          var d: nat :| d < k && WinsAt(grids[j], draws, d);
        }
      }
      LastWinnerFrom(grids, draws, kept, k + 1);
    }
  }

  predicate Distinct(boards: seq<Board>) {
    forall i, j :: 0 <= i < |boards| && 0 <= j < |boards| && i != j ==> boards[i] != boards[j]
  }

  /** The loop that pushes one `Board` per group. */
  method MakeBoards(grids: seq<Grid>) returns (boards: seq<Board>)
    requires AllGrids(grids)
    ensures |boards| == |grids| && Distinct(boards)
    ensures forall i :: 0 <= i < |boards| ==> fresh(boards[i]) && boards[i].Valid() && boards[i].cells == CellsOf(grids[i], {})
  {
    boards := [];
    for i := 0 to |grids|
      invariant |boards| == i && Distinct(boards)
      invariant forall j :: 0 <= j < i ==> fresh(boards[j]) && boards[j].Valid() && boards[j].cells == CellsOf(grids[j], {})
    {
      var board := new Board(grids[i]);
      boards := boards + [board];
    }
  }

  /** The boards are in play with all draws before index `k` made. */
  ghost predicate InPlay(boards: seq<Board>, grids: seq<Grid>, draws: seq<int>, k: nat)
    requires AllGrids(grids) && k <= |draws| && |boards| == |grids|
    reads boards
  {
    forall j :: 0 <= j < |boards| ==> boards[j].Valid() && boards[j].cells == CellsOf(grids[j], Drawn(draws, k))
  }

  /** Marks one board of the list; the others keep their state. */
  method DrawBoard(boards: seq<Board>, i: nat, n: int)
    requires i < |boards| && Distinct(boards)
    requires forall j :: 0 <= j < |boards| ==> boards[j].Valid()
    modifies boards[i]
    ensures forall j :: 0 <= j < |boards| ==> boards[j].Valid()
    ensures boards[i].cells == DrawCells(old(boards[i].cells), n)
    ensures forall j :: 0 <= j < |boards| && j != i ==> boards[j].cells == old(boards[j].cells)
  {
    boards[i].Draw(n);
  }

  /** One pass of the board loop of `solve_part1` for the draw at index `k`:
      each board is marked in turn, stopping at the first with bingo. */
  method DrawRound(boards: seq<Board>, grids: seq<Grid>, draws: seq<int>, k: nat) returns (winner: Option<nat>)
    requires AllGrids(grids) && k < |draws| && |boards| == |grids| && Distinct(boards)
    requires InPlay(boards, grids, draws, k)
    modifies boards
    ensures winner == FirstBoard(grids, draws, k, 0)
    ensures winner.None? ==> InPlay(boards, grids, draws, k + 1)
    ensures winner.Some? ==>
              boards[winner.value].Valid() && boards[winner.value].cells == CellsOf(grids[winner.value], Drawn(draws, k + 1))
  {
    DrawnNext(draws, k);
    for i := 0 to |boards|
      invariant forall j :: 0 <= j < |boards| ==> boards[j].Valid()
      invariant forall j :: 0 <= j < i ==> boards[j].cells == CellsOf(grids[j], Drawn(draws, k + 1))
      invariant forall j :: i <= j < |boards| ==> boards[j].cells == CellsOf(grids[j], Drawn(draws, k))
      invariant FirstBoard(grids, draws, k, 0) == FirstBoard(grids, draws, k, i)
    {
      DrawCellsOf(grids[i], Drawn(draws, k), draws[k]);
      DrawBoard(boards, i, draws[k]);
      if boards[i].IsWin() {
        return Some(i);
      }
    }
    return None;
  }

  /** The draw loop of `solve_part1`: the score of the first board with
      bingo, times the draw that completed it. */
  method PlayFirst(boards: seq<Board>, grids: seq<Grid>, draws: seq<int>) returns (r: Option<int>)
    requires AllGrids(grids) && |boards| == |grids| && Distinct(boards)
    requires forall j :: 0 <= j < |boards| ==> boards[j].Valid() && boards[j].cells == CellsOf(grids[j], {})
    modifies boards
    ensures r == match FirstWinner(grids, draws, 0)
                 case Some((k, b)) => Some(FinalScore(grids[b], draws, k))
                 case None => None
  {
    assert Drawn(draws, 0) == {};
    for k := 0 to |draws|
      invariant InPlay(boards, grids, draws, k)
      invariant FirstWinner(grids, draws, 0) == FirstWinner(grids, draws, k)
    {
      var winner := DrawRound(boards, grids, draws, k);
      if winner.Some? {
        var score := boards[winner.value].Score();
        return Some(score * draws[k]);
      }
    }
    return None;
  }

  /** `solve_part1`. */
  method SolvePart1(input: string) returns (r: Result<int>)
    requires !Setup(input).Panics?
    ensures Setup(input).Invalid? ==> r == Err
    ensures Setup(input).Read? ==>
              var game := Setup(input).value;
              r == match FirstWinner(game.grids, game.draws, 0)
                   case Some((k, b)) => Ok(FinalScore(game.grids[b], game.draws, k))
                   case None => Err
  {
    var setup := Setup(input);
    if setup.Invalid? {
      return Err;
    }
    var boards := MakeBoards(setup.value.grids);
    var score := PlayFirst(boards, setup.value.grids, setup.value.draws);
    r := OkOr(score);
  }

  /** Part 2's boards in play: `boards[j]` is the board parsed from group
      `alive[j]`, with all draws before index `k` made. */
  ghost predicate Tracks(boards: seq<Board>, grids: seq<Grid>, draws: seq<int>, alive: seq<nat>, k: nat)
    requires AllGrids(grids) && k <= |draws|
    reads boards
  {
    |boards| == |alive| &&
    forall j :: 0 <= j < |boards| ==>
      alive[j] < |grids| && boards[j].Valid() && boards[j].cells == CellsOf(grids[alive[j]], Drawn(draws, k))
  }

  /** The `for board in &mut boards` loop of `solve_part2`. */
  method DrawAll(boards: seq<Board>, grids: seq<Grid>, draws: seq<int>, ghost alive: seq<nat>, k: nat)
    requires AllGrids(grids) && k < |draws| && Distinct(boards)
    requires Tracks(boards, grids, draws, alive, k)
    modifies boards
    ensures Tracks(boards, grids, draws, alive, k + 1)
  {
    DrawnNext(draws, k);
    for i := 0 to |boards|
      invariant forall j :: 0 <= j < |boards| ==> boards[j].Valid()
      invariant forall j :: 0 <= j < i ==> boards[j].cells == CellsOf(grids[alive[j]], Drawn(draws, k + 1))
      invariant forall j :: i <= j < |boards| ==> boards[j].cells == CellsOf(grids[alive[j]], Drawn(draws, k))
    {
      DrawCellsOf(grids[alive[i]], Drawn(draws, k), draws[k]);
      DrawBoard(boards, i, draws[k]);
    }
  }

  /** `boards.retain(|board| !board.is_win())` after the draw at index `k`:
      the boards kept are exactly the losers, in their order. */
  method Retain(boards: seq<Board>, grids: seq<Grid>, draws: seq<int>, ghost alive: seq<nat>, k: nat)
    returns (kept: seq<Board>, ghost keptAlive: seq<nat>)
    requires AllGrids(grids) && k < |draws| && Distinct(boards)
    requires Tracks(boards, grids, draws, alive, k + 1)
    ensures keptAlive == Losers(grids, draws, alive, k)
    ensures Tracks(kept, grids, draws, keptAlive, k + 1) && Distinct(kept)
    ensures forall b :: b in kept ==> b in boards
  {
    kept, keptAlive := [], [];
    ghost var idx: seq<nat> := [];
    for i := 0 to |boards|
      invariant |kept| == |keptAlive| == |idx|
      invariant forall j :: 0 <= j < |idx| ==> idx[j] < i && kept[j] == boards[idx[j]] && keptAlive[j] == alive[idx[j]]
      invariant forall j1, j2 :: 0 <= j1 < j2 < |idx| ==> idx[j1] < idx[j2]
      invariant keptAlive == Losers(grids, draws, alive[..i], k)
    {
      assert alive[..i + 1][..i] == alive[..i];
      if !boards[i].IsWin() {
        kept, keptAlive, idx := kept + [boards[i]], keptAlive + [alive[i]], idx + [i];
      }
    }
    assert alive[..|boards|] == alive;
    PickedTracks(boards, grids, draws, alive, k + 1, kept, keptAlive, idx);
  }

  /** Boards picked in increasing positions from tracked, distinct boards
      are tracked and distinct. */
  lemma PickedTracks(boards: seq<Board>, grids: seq<Grid>, draws: seq<int>, alive: seq<nat>, k: nat,
                     kept: seq<Board>, keptAlive: seq<nat>, idx: seq<nat>)
    requires AllGrids(grids) && k <= |draws| && Distinct(boards) && Tracks(boards, grids, draws, alive, k)
    requires |kept| == |keptAlive| == |idx|
    requires forall j :: 0 <= j < |idx| ==> idx[j] < |boards| && kept[j] == boards[idx[j]] && keptAlive[j] == alive[idx[j]]
    requires forall j1, j2 :: 0 <= j1 < j2 < |idx| ==> idx[j1] < idx[j2]
    ensures Tracks(kept, grids, draws, keptAlive, k) && Distinct(kept)
    ensures forall b :: b in kept ==> b in boards
  {
    forall j1, j2 | 0 <= j1 < |kept| && 0 <= j2 < |kept| && j1 != j2
      ensures kept[j1] != kept[j2]
    {
      assert idx[j1] != idx[j2];
    }
  }

  /** The `boards.len() == 1` branch of `solve_part2`: the lone board is
      marked and, if it has bingo, scored. */
  method DrawLone(live: seq<Board>, grids: seq<Grid>, draws: seq<int>, ghost alive: seq<nat>, k: nat)
    returns (score: Option<int>)
    requires AllGrids(grids) && k < |draws| && |live| == 1
    requires Tracks(live, grids, draws, alive, k)
    modifies live
    ensures score.Some? <==> WinsAt(grids[alive[0]], draws, k)
    ensures score.Some? ==> score.value == FinalScore(grids[alive[0]], draws, k)
    ensures score.None? ==> Tracks(live, grids, draws, alive, k + 1)
  {
    DrawnNext(draws, k);
    DrawCellsOf(grids[alive[0]], Drawn(draws, k), draws[k]);
    live[0].Draw(draws[k]);
    if live[0].IsWin() {
      var points := live[0].Score();
      return Some(points * draws[k]);
    }
    assert live == [live[0]];
    return None;
  }

  /** The draw loop of `solve_part2`: a lone remaining board is marked
      until it has bingo; otherwise every board is marked and those with
      bingo are dropped. */
  method PlayLast(boards: seq<Board>, grids: seq<Grid>, draws: seq<int>) returns (r: Option<int>)
    requires AllGrids(grids) && |boards| == |grids| && Distinct(boards)
    requires forall j :: 0 <= j < |boards| ==> boards[j].Valid() && boards[j].cells == CellsOf(grids[j], {})
    modifies boards
    ensures r == match LastWinner(grids, draws, AllBoards(|grids|), 0)
                 case Some((k, b)) => Some(FinalScore(grids[b], draws, k))
                 case None => None
  {
    assert Drawn(draws, 0) == {};
    var live := boards;
    ghost var alive := AllBoards(|grids|);
    for k := 0 to |draws|
      invariant Tracks(live, grids, draws, alive, k) && Distinct(live)
      invariant forall b :: b in live ==> b in boards
      invariant LastWinner(grids, draws, AllBoards(|grids|), 0) == LastWinner(grids, draws, alive, k)
    {
      var score;
      score, live, alive := PlayRound(boards, live, grids, draws, alive, k);
      if score.Some? {
        return score;
      }
    }
    return None;
  }

  /** One pass of the draw loop of `solve_part2`: either the lone board
      wins and is scored, or the play goes on with the boards left. */
  method PlayRound(boards: seq<Board>, live: seq<Board>, grids: seq<Grid>, draws: seq<int>, ghost alive: seq<nat>, k: nat)
    returns (score: Option<int>, live': seq<Board>, ghost alive': seq<nat>)
    requires AllGrids(grids) && k < |draws| && Distinct(live)
    requires Tracks(live, grids, draws, alive, k)
    requires forall b :: b in live ==> b in boards
    modifies boards
    ensures score.Some? ==> |alive| == 1 && LastWinner(grids, draws, alive, k) == Some((k, alive[0]))
                            && score.value == FinalScore(grids[alive[0]], draws, k)
    ensures score.None? ==> Tracks(live', grids, draws, alive', k + 1) && Distinct(live')
                            && (forall b :: b in live' ==> b in boards)
                            && LastWinner(grids, draws, alive, k) == LastWinner(grids, draws, alive', k + 1)
  {
    if |live| == 1 {
      assert live[0] in boards;
      score := DrawLone(live, grids, draws, alive, k);
      live', alive' := live, alive;
    } else {
      assert forall j :: 0 <= j < |live| ==> live[j] in boards;
      DrawAll(live, grids, draws, alive, k);
      score := None;
      live', alive' := Retain(live, grids, draws, alive, k);
    }
  }

  /** `solve_part2`; `LastWinnerIsLast` says which board this scores. */
  method SolvePart2(input: string) returns (r: Result<int>)
    requires !Setup(input).Panics?
    ensures Setup(input).Invalid? ==> r == Err
    ensures Setup(input).Read? ==>
              var game := Setup(input).value;
              r == match LastWinner(game.grids, game.draws, AllBoards(|game.grids|), 0)
                   case Some((k, b)) => Ok(FinalScore(game.grids[b], game.draws, k))
                   case None => Err
  {
    var setup := Setup(input);
    if setup.Invalid? {
      return Err;
    }
    var boards := MakeBoards(setup.value.grids);
    var score := PlayLast(boards, setup.value.grids, setup.value.draws);
    r := OkOr(score);
  }
}
