/** Day 3: binary diagnostic. Counts the '1' bits per column, builds the
    gamma and epsilon rates from the majority bits, and filters the report
    column by column down to the oxygen and CO2 ratings. */
module Day03 {
  import opened Wrappers
  import Text

  /** The number of lines holding '1' in column `i`. */
  function ColumnCount(lines: seq<string>, i: nat): (n: nat)
    ensures n <= |lines|
  {
    if lines == [] then 0
    else
      var last := lines[|lines| - 1];
      ColumnCount(lines[..|lines| - 1], i) + (if i < |last| && last[i] == '1' then 1 else 0)
  }

  /** One count per byte of the first line (`len()` counts UTF-8 bytes),
      counter `i` counting the lines whose character `i` is '1'. */
  function ColumnSums(lines: seq<string>): (sums: seq<nat>)
    requires |lines| >= 1
    ensures |sums| == Text.ByteLength(lines[0])
    ensures forall i :: 0 <= i < |sums| ==> sums[i] == ColumnCount(lines, i)
  {
    var width := Text.ByteLength(lines[0]);
    seq(width, i requires 0 <= i < width => ColumnCount(lines, i))
  }

  /** `get_column_sums` indexes the counters by character position, so no
      line may hold a '1' at a position beyond the first line's byte
      length. */
  predicate ColumnsFit(lines: seq<string>) {
    |lines| >= 1 &&
    forall k, i :: 0 <= k < |lines| && Text.ByteLength(lines[0]) <= i < |lines[k]| ==> lines[k][i] != '1'
  }

  /** `get_column_sums`: the counters start at 0, one per byte of the
      first line, and each '1' adds one to the counter at its character
      position. */
  method GetColumnSums(lines: seq<string>) returns (sums: seq<nat>)
    requires ColumnsFit(lines)
    ensures sums == ColumnSums(lines)
  {
    var width := Text.ByteLength(lines[0]);
    var counts := new nat[width](_ => 0);
    for k := 0 to |lines|
      invariant forall i :: 0 <= i < width ==> counts[i] == ColumnCount(lines[..k], i)
    {
      assert lines[..k + 1][..k] == lines[..k];
      var line := lines[k];
      for i := 0 to |line|
        invariant forall j :: 0 <= j < width ==>
                    counts[j] == ColumnCount(lines[..k], j) + (if j < i && line[j] == '1' then 1 else 0)
      {
        if line[i] == '1' {
          counts[i] := counts[i] + 1;
        }
      }
    }
    assert lines[..|lines|] == lines;
    sums := counts[..];
  }

  function Pow2(n: nat): (p: nat)
    ensures p >= 1
  {
    if n == 0 then 1 else 2 * Pow2(n - 1)
  }

  /** The rate whose bits, most significant first, are set where the column
      count is above half the report (`most`) or not above it (`!most`). */
  function Rate(sums: seq<nat>, half: nat, most: bool): (r: nat)
    ensures r < Pow2(|sums|)
  {
    if sums == [] then 0
    else
      var bit := if (sums[|sums| - 1] > half) == most then 1 else 0;
      2 * Rate(sums[..|sums| - 1], half, most) + bit
  }

  /** Gamma and epsilon are bitwise complements over the width. */
  lemma {:induction false} RatesAreComplements(sums: seq<nat>, half: nat)
    ensures Rate(sums, half, true) + Rate(sums, half, false) == Pow2(|sums|) - 1
  {
    if sums != [] {
      RatesAreComplements(sums[..|sums| - 1], half);
    }
  }

  /** The lowest bit of gamma is the majority bit of the last column. */
  lemma GammaLowBit(sums: seq<nat>, half: nat)
    requires sums != []
    ensures Rate(sums, half, true) % 2 == (if sums[|sums| - 1] > half then 1 else 0)
  {
  }

  function InputLines(input: string): seq<string> {
    Text.Lines(Text.Trim(input))
  }

  /** `solve_part1`: gamma times epsilon, where a gamma bit is set exactly
      when its column count exceeds half the number of lines (rounded
      down). */
  method SolvePart1(input: string) returns (r: Result<int>)
    requires ColumnsFit(InputLines(input))
    ensures r.Ok?
    ensures var lines := InputLines(input);
            var sums := ColumnSums(lines);
            r.value == Rate(sums, |lines| / 2, true) * Rate(sums, |lines| / 2, false)
    ensures var lines := InputLines(input);
            var sums := ColumnSums(lines);
            Rate(sums, |lines| / 2, true) + Rate(sums, |lines| / 2, false) == Pow2(|sums|) - 1
  {
    var lines := InputLines(input);
    var sums := GetColumnSums(lines);
    var half := |lines| / 2;
    var gamma := 0;
    var epsilon := 0;
    for i := 0 to |sums|
      invariant gamma == Rate(sums[..i], half, true) && epsilon == Rate(sums[..i], half, false)
    {
      assert sums[..i + 1][..i] == sums[..i];
      gamma := gamma * 2;
      epsilon := epsilon * 2;
      if sums[i] > half {
        gamma := gamma + 1;
      } else {
        epsilon := epsilon + 1;
      }
    }
    assert sums[..|sums|] == sums;
    RatesAreComplements(sums, half);
    return Ok(gamma * epsilon);
  }

  /** `retain`: the lines whose character at `col` is `ch`, in order. */
  function KeepMatching(lines: seq<string>, col: nat, ch: char): (r: seq<string>)
    requires forall k :: 0 <= k < |lines| ==> col < |lines[k]|
    ensures |r| <= |lines|
    ensures forall k :: 0 <= k < |r| ==> r[k] in lines && r[k][col] == ch
    ensures forall k :: 0 <= k < |lines| && lines[k][col] == ch ==> lines[k] in r
  {
    if lines == [] then []
    else
      var front := KeepMatching(lines[..|lines| - 1], col, ch);
      var last := lines[|lines| - 1];
      assert forall k :: 0 <= k < |lines| - 1 ==> lines[k] == lines[..|lines| - 1][k];
      if last[col] == ch then front + [last] else front
  }

  /** Every line of the report has the first line's width: the puzzle's
      reports. */
  predicate Uniform(lines: seq<string>) {
    |lines| >= 1 && forall k :: 0 <= k < |lines| ==> |lines[k]| == |lines[0]|
  }

  /** The lines have width `w`. */
  predicate HaveWidth(lines: seq<string>, w: nat) {
    forall k :: 0 <= k < |lines| ==> |lines[k]| == w
  }

  /** The oxygen filter at `col`: with more than one line left, keep the
      lines with '1' there when at least half the lines have it, else those
      with '0'. */
  function OxygenStep(lines: seq<string>, col: nat): seq<string>
    requires forall k :: 0 <= k < |lines| ==> col < |lines[k]|
  {
    if |lines| <= 1 then lines
    else if 2 * ColumnCount(lines, col) >= |lines| then KeepMatching(lines, col, '1')
    else KeepMatching(lines, col, '0')
  }

  /** The CO2 filter at `col`: the opposite choice. */
  function Co2Step(lines: seq<string>, col: nat): seq<string>
    requires forall k :: 0 <= k < |lines| ==> col < |lines[k]|
  {
    if |lines| <= 1 then lines
    else if 2 * ColumnCount(lines, col) >= |lines| then KeepMatching(lines, col, '0')
    else KeepMatching(lines, col, '1')
  }

  /** How the filtering ends: with one oxygen and one CO2 line, with the
      columns used up, or with a panic (in `get_column_sums` on a list the
      filter emptied, or past the last character). */
  datatype Outcome = Found(oxygen: string, co2: string) | Exhausted | Panics

  /** The filtering loop from column `col` on. */
  function Filtering(oxygen: seq<string>, co2: seq<string>, col: nat, w: nat): Outcome
    requires HaveWidth(oxygen, w) && HaveWidth(co2, w)
    decreases w - col
  {
    if col >= w then Exhausted
    else if oxygen == [] || co2 == [] then Outcome.Panics
    else
      var ox := OxygenStep(oxygen, col);
      var co := Co2Step(co2, col);
      if |ox| == 1 && |co| == 1 then Found(ox[0], co[0])
      else Filtering(ox, co, col + 1, w)
  }

  /** The filtering of `solve_part2`, whose loop runs over the first
      line's byte length. Where that exceeds the character count, the
      column after the last character panics unless both ratings were
      found: a list the filter emptied panics in `get_column_sums`, and a
      list of several lines panics indexing its counters or in
      `nth(col).unwrap()`. */
  function Ratings(lines: seq<string>): Outcome
    requires Uniform(lines)
  {
    var found := Filtering(lines, lines, 0, |lines[0]|);
    if found == Exhausted && Text.ByteLength(lines[0]) > |lines[0]| then Outcome.Panics else found
  }

  /** A line of '0's and '1's. */
  predicate Binary(line: string) {
    forall i :: 0 <= i < |line| ==> line[i] == '0' || line[i] == '1'
  }

  /** The number of lines with '0' at `col` complements the '1' count. */
  lemma {:induction false} ZerosComplementOnes(lines: seq<string>, col: nat)
    requires forall k :: 0 <= k < |lines| ==> col < |lines[k]| && Binary(lines[k])
    ensures |KeepMatching(lines, col, '0')| == |lines| - ColumnCount(lines, col)
    ensures |KeepMatching(lines, col, '1')| == ColumnCount(lines, col)
  {
    if lines != [] {
      ZerosComplementOnes(lines[..|lines| - 1], col);
    }
  }

  /** On a binary report the oxygen filter never empties the list: the bit
      it keeps is held by at least half the lines. */
  lemma OxygenNeverEmpties(lines: seq<string>, col: nat)
    requires forall k :: 0 <= k < |lines| ==> col < |lines[k]| && Binary(lines[k])
    requires |lines| >= 1
    ensures |OxygenStep(lines, col)| >= 1
  {
    ZerosComplementOnes(lines, col);
  }

  /** The CO2 filter, unlike the oxygen filter, empties the list when all
      remaining lines share the bit: on "11", "10" the first column keeps
      the lines with '0', none are left, and the next `get_column_sums`
      panics. */
  lemma Co2FilterCanEmpty()
    ensures Uniform(["11", "10"]) && Ratings(["11", "10"]) == Outcome.Panics
  {
    var lines := ["11", "10"];
    assert ColumnCount(lines, 0) == 2 by {
      assert lines[..1] == ["11"];
      assert lines[..1][..0] == [];
    }
    assert lines[..1] == ["11"];
    assert KeepMatching(["11"], 0, '0') == [] by {
      assert ["11"][..0] == [];
    }
    assert KeepMatching(lines, 0, '0') == [];
    assert Co2Step(lines, 0) == [];
  }

  /** One column of filtering keeps the width and either finds the ratings
      or continues with the next column. */
  lemma FilteringStep(oxygen: seq<string>, co2: seq<string>, col: nat, w: nat)
    requires HaveWidth(oxygen, w) && HaveWidth(co2, w)
    requires col < w && oxygen != [] && co2 != []
    ensures HaveWidth(OxygenStep(oxygen, col), w) && HaveWidth(Co2Step(co2, col), w)
    ensures ColumnsFit(oxygen) && ColumnsFit(co2)
    ensures forall k :: 0 <= k < |oxygen| ==> col < |oxygen[k]|
    ensures forall k :: 0 <= k < |co2| ==> col < |co2[k]|
    ensures var ox, co := OxygenStep(oxygen, col), Co2Step(co2, col);
            Filtering(oxygen, co2, col, w) ==
              if |ox| == 1 && |co| == 1 then Found(ox[0], co[0]) else Filtering(ox, co, col + 1, w)
  {
    Text.CharsWithinBytes(oxygen[0]);
    Text.CharsWithinBytes(co2[0]);
  }

  /** The oxygen half of one iteration: recount the columns, then retain
      by the majority bit of column `col`. */
  method FilterOxygen(oxygen: seq<string>, col: nat) returns (r: seq<string>)
    requires ColumnsFit(oxygen) && forall k :: 0 <= k < |oxygen| ==> col < |oxygen[k]|
    requires col < |oxygen[0]|
    ensures r == OxygenStep(oxygen, col)
  {
    Text.CharsWithinBytes(oxygen[0]);
    var sums := GetColumnSums(oxygen);
    r := oxygen;
    if |oxygen| > 1 {
      if 2 * sums[col] >= |oxygen| {
        r := KeepMatching(oxygen, col, '1');
      } else {
        r := KeepMatching(oxygen, col, '0');
      }
    }
  }

  /** The CO2 half of one iteration: retain by the minority bit. */
  method FilterCo2(co2: seq<string>, col: nat) returns (r: seq<string>)
    requires ColumnsFit(co2) && forall k :: 0 <= k < |co2| ==> col < |co2[k]|
    requires col < |co2[0]|
    ensures r == Co2Step(co2, col)
  {
    Text.CharsWithinBytes(co2[0]);
    var sums := GetColumnSums(co2);
    r := co2;
    if |co2| > 1 {
      if 2 * sums[col] >= |co2| {
        r := KeepMatching(co2, col, '0');
      } else {
        r := KeepMatching(co2, col, '1');
      }
    }
  }

  /** The filtering loop of `solve_part2`: the oxygen and CO2 lines once
      both lists are down to one line, or `None` when the columns run out
      first. */
  method FilterRatings(lines: seq<string>) returns (r: Option<(string, string)>)
    requires Uniform(lines) && Ratings(lines) != Outcome.Panics
    ensures r.Some? <==> Ratings(lines).Found?
    ensures r.Some? ==> r.value == (Ratings(lines).oxygen, Ratings(lines).co2)
  {
    var w := |lines[0]|;
    var bytes := Text.ByteLength(lines[0]);
    Text.CharsWithinBytes(lines[0]);
    var oxygen := lines;
    var co2 := lines;
    for col := 0 to bytes
      invariant col <= w
      invariant HaveWidth(oxygen, w) && HaveWidth(co2, w)
      invariant Filtering(oxygen, co2, col, w) == Filtering(lines, lines, 0, w)
    {
      if col == w || oxygen == [] || co2 == [] {
        assert false;
      }
      FilteringStep(oxygen, co2, col, w);
      oxygen := FilterOxygen(oxygen, col);
      co2 := FilterCo2(co2, col);
      if |oxygen| == 1 && |co2| == 1 {
        return Some((oxygen[0], co2[0]));
      }
    }
    return None;
  }

  /** A non-ASCII report: "é1" has three bytes, so `get_column_sums`
      keeps three counters, of which only the one at character position 1
      counts a '1'; gamma is 0b010 and epsilon 0b101. */
  lemma NonAsciiColumns()
    ensures ColumnsFit(["\U{E9}1"])
    ensures ColumnSums(["\U{E9}1"]) == [0, 1, 0]
    ensures Rate([0, 1, 0], 0, true) * Rate([0, 1, 0], 0, false) == 10
  {
    var line := "\U{E9}1";
    assert line[..1][..0] == [];
    assert Text.ByteLength(line) == 3 by {
      assert line[..1] == "\U{E9}";
    }
    var sums := ColumnSums([line]);
    var none: seq<string> := [];
    assert [line][..0] == none;
    assert sums[0] == 0 && sums[1] == 1 && sums[2] == 0;
    assert [0, 1, 0][..2][..1] == [0];
  }

  /** On "é", "é" neither '0' nor '1' matches in column 0, both lists
      empty, and the byte width leaves a column 1 whose count panics. */
  lemma NonAsciiRunsOut()
    ensures Uniform(["\U{E9}", "\U{E9}"]) && Ratings(["\U{E9}", "\U{E9}"]) == Outcome.Panics
  {
    var lines := ["\U{E9}", "\U{E9}"];
    assert Text.ByteLength(lines[0]) == 2 by {
      assert lines[0][..0] == [];
    }
    assert KeepMatching(lines[..1], 0, '0') == [] && KeepMatching(lines[..1], 0, '1') == [] by {
      assert lines[..1][..0] == [];
    }
    assert OxygenStep(lines, 0) == [] && Co2Step(lines, 0) == [];
  }

  /** `solve_part2`, which panics whenever the filtering does: the product
      of the two ratings read in binary, or an error when the columns run
      out first or a rating is not an `i32`. */
  method SolvePart2(input: string) returns (r: Result<int>)
    requires Uniform(InputLines(input)) && Ratings(InputLines(input)) != Outcome.Panics
    ensures r.Ok? <==>
              Ratings(InputLines(input)).Found? &&
              Text.ParseIntRadix(Ratings(InputLines(input)).oxygen, 2, Text.I32_MIN, Text.I32_MAX).Some? &&
              Text.ParseIntRadix(Ratings(InputLines(input)).co2, 2, Text.I32_MIN, Text.I32_MAX).Some?
    ensures r.Ok? ==>
              r.value == Text.ParseIntRadix(Ratings(InputLines(input)).oxygen, 2, Text.I32_MIN, Text.I32_MAX).value *
                         Text.ParseIntRadix(Ratings(InputLines(input)).co2, 2, Text.I32_MIN, Text.I32_MAX).value
  {
    var found := FilterRatings(InputLines(input));
    if found.None? {
      return Err;
    }
    var (oxygen, co2) := found.value;
    var o := Text.ParseIntRadix(oxygen, 2, Text.I32_MIN, Text.I32_MAX);
    if o.None? {
      return Err;
    }
    var c := Text.ParseIntRadix(co2, 2, Text.I32_MIN, Text.I32_MAX);
    if c.None? {
      return Err;
    }
    return Ok(o.value * c.value);
  }
}
