/** Day 6: lanternfish. Simulates fish timers day by day, once as a list of
    timers and once as a histogram of nine counters. */
module Day06 {
  import opened Wrappers
  import Text

  /** Timer a newborn fish starts with, and the one a parent resets to. */
  const NEWBORN: int := 8
  const RESET: int := 6

  /** The number of fish whose timer is `t`. */
  function CountOf(fish: seq<int>, t: int): (n: nat)
    ensures n <= |fish|
  {
    if fish == [] then 0
    else CountOf(fish[..|fish| - 1], t) + (if fish[|fish| - 1] == t then 1 else 0)
  }

  lemma {:induction false} CountOfAppend(a: seq<int>, b: seq<int>, t: int)
    ensures CountOf(a + b, t) == CountOf(a, t) + CountOf(b, t)
    decreases |b|
  {
    if b != [] {
      assert (a + b)[..|a + b| - 1] == a + b[..|b| - 1];
      CountOfAppend(a, b[..|b| - 1], t);
    } else {
      assert a + b == a;
    }
  }

  /** Every pre-existing fish one day older: a timer at 0 resets to 6, any
      other timer counts down. */
  function Aged(fish: seq<int>): (r: seq<int>)
    ensures |r| == |fish|
    ensures forall i :: 0 <= i < |fish| ==> r[i] == if fish[i] == 0 then RESET else fish[i] - 1
  {
    seq(|fish|, i requires 0 <= i < |fish| => if fish[i] == 0 then RESET else fish[i] - 1)
  }

  /** `n` newborn fish. */
  function Newborns(n: nat): (r: seq<int>)
    ensures |r| == n && forall i :: 0 <= i < n ==> r[i] == NEWBORN
  {
    seq(n, _ => NEWBORN)
  }

  /** The school after one day: the aged school followed by one newborn per
      fish whose timer was 0. */
  function DayAfter(fish: seq<int>): seq<int> {
    Aged(fish) + Newborns(CountOf(fish, 0))
  }

  function DaysAfter(fish: seq<int>, days: nat): seq<int> {
    if days == 0 then fish else DayAfter(DaysAfter(fish, days - 1))
  }

  /** `simulate_day`: walks the fish present at the start of the day (those
      appended during the walk are not visited), resetting a timer at 0 and
      appending a newborn, or counting the timer down. */
  method SimulateDay(fish: seq<int>) returns (r: seq<int>)
    ensures r == DayAfter(fish)
  {
    r := fish;
    ghost var born := 0;
    for i := 0 to |fish|
      invariant |r| == |fish| + born
      invariant forall j :: 0 <= j < i ==> r[j] == Aged(fish)[j]
      invariant forall j :: i <= j < |fish| ==> r[j] == fish[j]
      invariant born == CountOf(fish[..i], 0) && r[|fish|..] == Newborns(born)
    {
      assert fish[..i + 1][..i] == fish[..i];
      if r[i] == 0 {
        assert Newborns(born + 1) == Newborns(born) + [NEWBORN];
        assert (r[i := RESET] + [NEWBORN])[|fish|..] == r[|fish|..] + [NEWBORN];
        r := r[i := RESET] + [NEWBORN];
        born := born + 1;
      } else {
        r := r[i := r[i] - 1];
      }
    }
    assert fish[..|fish|] == fish;
    assert r[..|fish|] == Aged(fish);
    assert r == r[..|fish|] + r[|fish|..];
  }

  /** The school grows by the number of fish whose timer was 0. */
  lemma DayAfterLength(fish: seq<int>)
    ensures |DayAfter(fish)| == |fish| + CountOf(fish, 0)
  {
  }

  predicate TimersInRange(fish: seq<int>) {
    forall i :: 0 <= i < |fish| ==> 0 <= fish[i] <= NEWBORN
  }

  /** Timers stay between 0 and 8. */
  lemma DayAfterInRange(fish: seq<int>)
    requires TimersInRange(fish)
    ensures TimersInRange(DayAfter(fish))
  {
    var r := DayAfter(fish);
    forall i | 0 <= i < |r| ensures 0 <= r[i] <= NEWBORN {
      if i < |fish| {
        assert r[i] == Aged(fish)[i];
      } else {
        assert r[i] == Newborns(CountOf(fish, 0))[i - |fish|];
      }
    }
  }

  /** The histogram of timers 0 to 8. */
  function Histogram(fish: seq<int>): (h: seq<int>)
    ensures |h| == 9 && forall t :: 0 <= t < 9 ==> h[t] == CountOf(fish, t)
  {
    seq(9, t => CountOf(fish, t))
  }

  /** `simulate_day_with_map` on values: the counters rotated left by one,
      with the new last counter (the fish at 0) also added to counter 6. */
  function StepCounts(c: seq<int>): (r: seq<int>)
    requires |c| == 9
    ensures |r| == 9
  {
    var rotated := c[1..] + [c[0]];
    rotated[RESET := rotated[RESET] + rotated[NEWBORN]]
  }

  function CountsAfter(c: seq<int>, days: nat): (r: seq<int>)
    requires |c| == 9
    ensures |r| == 9
  {
    if days == 0 then c else StepCounts(CountsAfter(c, days - 1))
  }

  /** `simulate_day_with_map`: rotates the counters in place and adds the
      new counter 8 into counter 6. */
  method SimulateDayWithMap(counts: array<int>)
    requires counts.Length == 9
    modifies counts
    ensures counts[..] == StepCounts(old(counts[..]))
  {
    var first := counts[0];
    for i := 0 to 8
      invariant forall j :: 0 <= j < i ==> counts[j] == old(counts[j + 1])
      invariant forall j :: i <= j < 9 ==> counts[j] == old(counts[j])
    {
      counts[i] := counts[i + 1];
    }
    counts[8] := first;
    counts[6] := counts[6] + counts[8];
  }

  /** The sum of the first `n` counters. */
  function PrefixTotal(c: seq<int>, n: nat): int
    requires n <= |c|
  {
    if n == 0 then 0 else PrefixTotal(c, n - 1) + c[n - 1]
  }

  /** The sum of the nine counters. */
  function Total(c: seq<int>): int
    requires |c| == 9
  {
    c[0] + c[1] + c[2] + c[3] + c[4] + c[5] + c[6] + c[7] + c[8]
  }

  /** The summing loop adds up all nine counters. */
  lemma PrefixTotalIsTotal(c: seq<int>)
    requires |c| == 9
    ensures PrefixTotal(c, 9) == Total(c)
  {
    assert PrefixTotal(c, 1) == c[0];
    assert PrefixTotal(c, 2) == c[0] + c[1];
    assert PrefixTotal(c, 3) == c[0] + c[1] + c[2];
    assert PrefixTotal(c, 4) == c[0] + c[1] + c[2] + c[3];
    assert PrefixTotal(c, 5) == c[0] + c[1] + c[2] + c[3] + c[4];
    assert PrefixTotal(c, 6) == c[0] + c[1] + c[2] + c[3] + c[4] + c[5];
    assert PrefixTotal(c, 7) == c[0] + c[1] + c[2] + c[3] + c[4] + c[5] + c[6];
    assert PrefixTotal(c, 8) == c[0] + c[1] + c[2] + c[3] + c[4] + c[5] + c[6] + c[7];
  }

  /** Counting every timer from 0 to 8 counts the whole school. */
  lemma {:induction false} TotalOfHistogram(fish: seq<int>)
    requires TimersInRange(fish)
    ensures Total(Histogram(fish)) == |fish|
    decreases |fish|
  {
    if fish != [] {
      var front := fish[..|fish| - 1];
      TotalOfHistogram(front);
      var h, g := Histogram(fish), Histogram(front);
      var last := fish[|fish| - 1];
      assert forall t :: 0 <= t < 9 ==> h[t] == g[t] + (if t == last then 1 else 0);
    }
  }

  /** A histogram step adds the count of fish at 0 to the total. */
  lemma TotalAfterStep(c: seq<int>)
    requires |c| == 9
    ensures Total(StepCounts(c)) == Total(c) + c[0]
  {
    var r := StepCounts(c);
    assert r[6] == c[7] + c[0] && r[8] == c[0];
    assert forall t :: 0 <= t < 8 && t != 6 ==> r[t] == c[t + 1];
  }

  /** The aged school has no fish at 8; at 6 it has the fish that were at 7
      and those that were at 0; at any other timer the fish one above. */
  lemma {:induction false} CountOfAged(fish: seq<int>, t: int)
    requires TimersInRange(fish) && 0 <= t < 9
    ensures CountOf(Aged(fish), t) ==
              if t == NEWBORN then 0
              else if t == RESET then CountOf(fish, 7) + CountOf(fish, 0)
              else CountOf(fish, t + 1)
    decreases |fish|
  {
    if fish != [] {
      var front := fish[..|fish| - 1];
      CountOfAged(front, t);
      assert Aged(fish)[..|fish| - 1] == Aged(front);
    }
  }

  lemma {:induction false} CountOfNewborns(n: nat, t: int)
    ensures CountOf(Newborns(n), t) == if t == NEWBORN then n else 0
  {
    if n > 0 {
      CountOfNewborns(n - 1, t);
      assert Newborns(n)[..n - 1] == Newborns(n - 1);
    }
  }

  /** The two simulations agree: the histogram of the school a day later is
      one histogram step applied to the histogram of today's school. */
  lemma HistogramCommutes(fish: seq<int>)
    requires TimersInRange(fish)
    ensures Histogram(DayAfter(fish)) == StepCounts(Histogram(fish))
  {
    var h := Histogram(DayAfter(fish));
    var s := StepCounts(Histogram(fish));
    forall t | 0 <= t < 9 ensures h[t] == s[t] {
      CountOfAppend(Aged(fish), Newborns(CountOf(fish, 0)), t);
      CountOfAged(fish, t);
      CountOfNewborns(CountOf(fish, 0), t);
    }
  }

  /** Over any number of days the histogram simulation tracks the list
      simulation, so both parts count the same school. */
  lemma {:induction false} HistogramTracksDays(fish: seq<int>, days: nat)
    requires TimersInRange(fish)
    ensures TimersInRange(DaysAfter(fish, days))
    ensures Histogram(DaysAfter(fish, days)) == CountsAfter(Histogram(fish), days)
    ensures Total(CountsAfter(Histogram(fish), days)) == |DaysAfter(fish, days)|
  {
    if days > 0 {
      HistogramTracksDays(fish, days - 1);
      var before := DaysAfter(fish, days - 1);
      DayAfterInRange(before);
      HistogramCommutes(before);
    }
    TotalOfHistogram(DaysAfter(fish, days));
  }

  /** The comma-separated timers of the trimmed input, each a `u8`. */
  function ParseFish(input: string): (r: Result<seq<int>>)
    ensures r.Ok? ==> forall i :: 0 <= i < |r.value| ==> 0 <= r.value[i] <= Text.U8_MAX
  {
    Text.ParseAll(Text.Split(Text.Trim(input), ","), 0, Text.U8_MAX)
  }

  /** The histogram loop of `solve_part2`: one counter per timer, each
      incremented once per fish with that timer. */
  method BuildHistogram(fish: seq<int>) returns (counts: array<int>)
    requires TimersInRange(fish)
    ensures fresh(counts) && counts[..] == Histogram(fish)
  {
    counts := new int[9](_ => 0);
    for i := 0 to |fish|
      invariant counts[..] == Histogram(fish[..i])
    {
      assert fish[..i + 1][..i] == fish[..i];
      counts[fish[i]] := counts[fish[i]] + 1;
    }
    assert fish[..|fish|] == fish;
  }

  /** The day loop of `solve_part1`. */
  method SimulateDays(fish: seq<int>, days: nat) returns (school: seq<int>)
    ensures school == DaysAfter(fish, days)
  {
    school := fish;
    for day := 0 to days
      invariant school == DaysAfter(fish, day)
    {
      school := SimulateDay(school);
    }
  }

  /** `solve_part1`: the size of the school after 80 days. */
  method SolvePart1(input: string) returns (r: Result<int>)
    ensures r.Ok? <==> ParseFish(input).Ok?
    ensures r.Ok? ==> r.value == |DaysAfter(ParseFish(input).value, 80)|
  {
    var parsed := ParseFish(input);
    if parsed.Err? {
      return Err;
    }
    var school := SimulateDays(parsed.value, 80);
    return Ok(|school|);
  }

  /** The summing loop of `solve_part2`. */
  method SumCounters(counts: array<int>) returns (total: int)
    requires counts.Length == 9
    ensures total == Total(counts[..])
  {
    total := 0;
    for i := 0 to 9
      invariant total == PrefixTotal(counts[..], i)
    {
      total := total + counts[i];
    }
    PrefixTotalIsTotal(counts[..]);
  }

  /** The histogram simulation of `solve_part2` over `days` days: the
      number of fish at the end. */
  method SimulateWithMap(fish: seq<int>, days: nat) returns (total: int)
    requires TimersInRange(fish)
    ensures total == Total(CountsAfter(Histogram(fish), days))
  {
    var counts := BuildHistogram(fish);
    for day := 0 to days
      invariant counts[..] == CountsAfter(Histogram(fish), day)
    {
      SimulateDayWithMap(counts);
    }
    total := SumCounters(counts);
  }

  /** `solve_part2`: the histogram of the timers (a timer above 8 indexes
      past the nine counters, so the source panics on it), stepped 256
      times and summed. It counts the same school as the list simulation. */
  method SolvePart2(input: string) returns (r: Result<int>)
    requires ParseFish(input).Ok? ==> TimersInRange(ParseFish(input).value)
    ensures r.Ok? <==> ParseFish(input).Ok?
    ensures r.Ok? ==> r.value == Total(CountsAfter(Histogram(ParseFish(input).value), 256))
    ensures r.Ok? ==> r.value == |DaysAfter(ParseFish(input).value, 256)|
  {
    var parsed := ParseFish(input);
    if parsed.Err? {
      return Err;
    }
    var total := SimulateWithMap(parsed.value, 256);
    HistogramTracksDays(parsed.value, 256);
    return Ok(total);
  }
}
