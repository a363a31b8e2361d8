/** Day 1: sonar sweep. Counts how often a depth reading, or the sum of a
    sliding window of three readings, is larger than the previous one. */
module Day01 {
  import opened Wrappers
  import Text

  /** The number of indices `i` with `k <= i < |a|` whose reading exceeds
      the one `k` places earlier. */
  function CountGaps(a: seq<int>, k: nat): (n: nat)
    requires k >= 1
    ensures n <= if |a| <= k then 0 else |a| - k
  {
    if |a| <= k then 0
    else CountGaps(a[..|a| - 1], k) + (if a[|a| - 1] > a[|a| - 1 - k] then 1 else 0)
  }

  /** The increases counted by part 1: readings larger than their predecessor. */
  function CountIncreases(a: seq<int>): (n: nat)
    ensures |a| <= 1 ==> n == 0
    ensures |a| >= 1 ==> n <= |a| - 1
  {
    CountGaps(a, 1)
  }

  /** Sums of the consecutive three-element windows. */
  function WindowSums(a: seq<int>): (w: seq<int>)
    ensures |w| == if |a| < 3 then 0 else |a| - 2
    ensures forall i :: 0 <= i < |w| ==> w[i] == a[i] + a[i + 1] + a[i + 2]
  {
    if |a| < 3 then []
    else
      WindowSums(a[..|a| - 1]) + [a[|a| - 3] + a[|a| - 2] + a[|a| - 1]]
  }

  /** Extending a prefix by one reading adds one gap exactly when that
      reading exceeds the one `k` places before it. */
  lemma CountGapsOfPrefix(a: seq<int>, k: nat, i: nat)
    requires k >= 1 && i < |a|
    ensures CountGaps(a[..i + 1], k) == CountGaps(a[..i], k) + (if i >= k && a[i] > a[i - k] then 1 else 0)
  {
    assert a[..i + 1][..i] == a[..i];
  }

  /** Two consecutive window sums share two readings, so the later one is
      larger exactly when the reading it gains exceeds the one it drops: the
      window increases are the readings larger than the one three before. */
  lemma {:induction false} WindowIncreasesAreGapsOfThree(a: seq<int>)
    ensures CountIncreases(WindowSums(a)) == CountGaps(a, 3)
  {
    if |a| > 3 {
      var n := |a|;
      var w := WindowSums(a);
      WindowIncreasesAreGapsOfThree(a[..n - 1]);
      assert w[..|w| - 1] == WindowSums(a[..n - 1]);
    }
  }

  /** Each line parsed as an `i32`; the first line that does not parse makes
      the whole parse fail. */
  function ParseReadings(lines: seq<string>): Result<seq<int>> {
    Text.ParseAll(lines, Text.I32_MIN, Text.I32_MAX)
  }

  function InputLines(input: string): seq<string> {
    Text.Lines(Text.Trim(input))
  }

  /** The loop of `solve_part1` over the lines: the number of readings
      larger than the previous one, or an error at the first line that is
      not an `i32`. */
  method CountReadingIncreases(lines: seq<string>) returns (r: Result<int>)
    ensures r.Ok? <==> ParseReadings(lines).Ok?
    ensures r.Ok? ==> r.value == CountIncreases(ParseReadings(lines).value)
  {
    var increases := 0;
    var prev: Option<int> := None;
    ghost var readings: seq<int> := [];
    for i := 0 to |lines|
      invariant |readings| == i
      invariant forall j :: 0 <= j < i ==> Text.ParseInt(lines[j], Text.I32_MIN, Text.I32_MAX) == Some(readings[j])
      invariant increases == CountIncreases(readings)
      invariant prev == if i == 0 then None else Some(readings[i - 1])
    {
      var reading := Text.ParseInt(lines[i], Text.I32_MIN, Text.I32_MAX);
      if reading.None? {
        return Err;
      }
      if prev.Some? && reading.value > prev.value {
        increases := increases + 1;
      }
      ghost var next := readings + [reading.value];
      CountGapsOfPrefix(next, 1, i);
      assert next[..i] == readings && next[..i + 1] == next;
      readings := next;
      prev := Some(reading.value);
    }
    assert ParseReadings(lines).value == readings;
    return Ok(increases);
  }

  /** `solve_part1`: the lines of the trimmed input, counted as above. */
  method SolvePart1(input: string) returns (r: Result<int>)
    ensures r.Ok? <==> ParseReadings(InputLines(input)).Ok?
    ensures r.Ok? ==> r.value == CountIncreases(ParseReadings(InputLines(input)).value)
  {
    r := CountReadingIncreases(InputLines(input));
  }

  /** The parse of part 2, which unwraps: it panics on a line that is not an
      `i32` only when there is at least one window. */
  predicate Part2Parses(lines: seq<string>) {
    |lines| < 3 || ParseReadings(lines).Ok?
  }

  /** The loop of `solve_part2` over the lines: the number of three-reading
      windows whose sum exceeds the previous window's; equivalently, of
      readings larger than the one three before. */
  method CountWindowIncreases(lines: seq<string>) returns (r: Result<int>)
    requires Part2Parses(lines)
    ensures r.Ok?
    ensures |lines| < 3 ==> r.value == 0
    ensures |lines| >= 3 ==>
              var a := ParseReadings(lines).value;
              r.value == CountIncreases(WindowSums(a)) && r.value == CountGaps(a, 3)
  {
    if |lines| < 3 {
      return Ok(0);
    }
    ghost var a := ParseReadings(lines).value;
    var increases := 0;
    var prev: Option<int> := None;
    for i := 0 to |lines| - 2
      invariant increases == CountGaps(a[..i + 2], 3)
      invariant prev == if i == 0 then None else Some(a[i - 1] + a[i] + a[i + 1])
    {
      WindowOfLines(lines, i);
      var sum := Text.ParseInt(lines[i], Text.I32_MIN, Text.I32_MAX).value
               + Text.ParseInt(lines[i + 1], Text.I32_MIN, Text.I32_MAX).value
               + Text.ParseInt(lines[i + 2], Text.I32_MIN, Text.I32_MAX).value;
      if prev.Some? && sum > prev.value {
        increases := increases + 1;
      }
      CountGapsOfPrefix(a, 3, i + 2);
      prev := Some(sum);
    }
    assert a[..|lines|] == a;
    WindowIncreasesAreGapsOfThree(a);
    return Ok(increases);
  }

  /** The three lines of a window parse, and their values are the readings
      of that window. */
  lemma WindowOfLines(lines: seq<string>, i: nat)
    requires ParseReadings(lines).Ok? && i + 2 < |lines|
    ensures Text.ParseInt(lines[i], Text.I32_MIN, Text.I32_MAX) == Some(ParseReadings(lines).value[i])
    ensures Text.ParseInt(lines[i + 1], Text.I32_MIN, Text.I32_MAX) == Some(ParseReadings(lines).value[i + 1])
    ensures Text.ParseInt(lines[i + 2], Text.I32_MIN, Text.I32_MAX) == Some(ParseReadings(lines).value[i + 2])
  {
  }

  /** `solve_part2`: the lines of the trimmed input, counted as above. */
  method SolvePart2(input: string) returns (r: Result<int>)
    requires Part2Parses(InputLines(input))
    ensures r.Ok?
    ensures |InputLines(input)| < 3 ==> r.value == 0
    ensures |InputLines(input)| >= 3 ==>
              var a := ParseReadings(InputLines(input)).value;
              r.value == CountIncreases(WindowSums(a)) && r.value == CountGaps(a, 3)
  {
    r := CountWindowIncreases(InputLines(input));
  }

  /** The sample sweep: seven increases, five window increases. */
  lemma SampleSweep()
    ensures var a := [199, 200, 208, 210, 200, 207, 240, 269, 260, 263];
            CountIncreases(a) == 7 && CountGaps(a, 3) == 5
  {
    var a := [199, 200, 208, 210, 200, 207, 240, 269, 260, 263];
    var ones := [0, 0, 1, 2, 3, 3, 4, 5, 6, 6, 7];
    var threes := [0, 0, 0, 0, 1, 1, 1, 2, 3, 4, 5];
    for k := 1 to 11
      invariant CountGaps(a[..k - 1], 1) == ones[k - 1]
      invariant CountGaps(a[..k - 1], 3) == threes[k - 1]
    {
      assert a[..k][..k - 1] == a[..k - 1];
    }
    assert a[..10] == a;
  }
}
