/** Day 7: the treachery of whales. Finds the alignment position that costs
    the crabs the least fuel, under a linear and a triangular fuel rule. */
module Day07 {
  import opened Wrappers
  import Text

  datatype FuelRule = Linear | Summation

  /** `linear_fuel`: the distance between position and center. */
  function LinearFuel(position: int, center: int): (f: nat) {
    if center >= position then center - position else position - center
  }

  /** The linear fuel is symmetric and zero exactly when the crab is already
      at the center. */
  lemma LinearFuelProperties(p: int, c: int)
    ensures LinearFuel(p, c) == LinearFuel(c, p)
    ensures LinearFuel(p, c) == 0 <==> p == c
    ensures LinearFuel(p, c) >= c - p && LinearFuel(p, c) >= p - c
  {
  }

  /** 1 + 2 + ... + d. */
  function Triangle(d: nat): nat {
    if d == 0 then 0 else Triangle(d - 1) + d
  }

  /** `summation_fuel`: d(d+1)/2 for the distance d. */
  function SummationFuel(position: int, center: int): nat {
    var d := LinearFuel(position, center);
    d * (d + 1) / 2
  }

  /** The closed form is the triangular number: each further step costs one
      more unit than the step before. */
  lemma {:induction false} SummationFuelIsTriangle(d: nat)
    ensures d * (d + 1) / 2 == Triangle(d)
  {
    if d > 0 {
      SummationFuelIsTriangle(d - 1);
      assert d * (d + 1) == (d - 1) * d + 2 * d;
    }
  }

  function Fuel(rule: FuelRule, position: int, center: int): nat {
    match rule
    case Linear => LinearFuel(position, center)
    case Summation => SummationFuel(position, center)
  }

  /** The fuel all crabs spend to align at `center`. */
  function TotalFuel(positions: seq<int>, rule: FuelRule, center: int): nat {
    if positions == [] then 0
    else TotalFuel(positions[..|positions| - 1], rule, center) + Fuel(rule, positions[|positions| - 1], center)
  }

  function Min(s: seq<int>): (m: int)
    requires |s| >= 1
    ensures m in s && forall i :: 0 <= i < |s| ==> m <= s[i]
  {
    if |s| == 1 then s[0]
    else
      var m := Min(s[..|s| - 1]);
      assert m in s[..|s| - 1];
      if s[|s| - 1] < m then s[|s| - 1] else m
  }

  function Max(s: seq<int>): (m: int)
    requires |s| >= 1
    ensures m in s && forall i :: 0 <= i < |s| ==> s[i] <= m
  {
    if |s| == 1 then s[0]
    else
      var m := Max(s[..|s| - 1]);
      assert m in s[..|s| - 1];
      if s[|s| - 1] > m then s[|s| - 1] else m
  }

  /** `find_best_fuel`: tries every center from the smallest to the largest
      position and keeps the least total fuel. The source unwraps the
      minimum and maximum, so it needs at least one position; then the loop
      runs at least once and the result is always `Some`. */
  method FindBestFuel(positions: seq<int>, rule: FuelRule) returns (r: Option<int>)
    requires |positions| >= 1
    ensures r.Some?
    ensures forall c :: Min(positions) <= c <= Max(positions) ==> r.value <= TotalFuel(positions, rule, c)
    ensures exists c :: Min(positions) <= c <= Max(positions) && r.value == TotalFuel(positions, rule, c)
  {
    var min := Min(positions);
    var max := Max(positions);
    var best: Option<int> := None;
    ghost var at := min;
    for center := min to max + 1
      invariant best.None? <==> center == min
      invariant best.Some? ==> min <= at < center && best.value == TotalFuel(positions, rule, at)
      invariant best.Some? ==> forall c :: min <= c < center ==> best.value <= TotalFuel(positions, rule, c)
    {
      var fuel := TotalFuel(positions, rule, center);
      if best.Some? {
        if fuel < best.value {
          best := Some(fuel);
          at := center;
        }
      } else {
        best := Some(fuel);
        at := center;
      }
    }
    return best;
  }

  /** `parse_position`: the comma-separated positions of the trimmed input,
      each a `u32`. There is always at least one. */
  function ParsePositions(input: string): (r: Result<seq<int>>)
    ensures r.Ok? ==> |r.value| >= 1
  {
    Text.ParseAll(Text.Split(Text.Trim(input), ","), 0, Text.U32_MAX)
  }

  /** `solve_part1` and `solve_part2`: the least total fuel over the
      centers between the extreme positions, under the given rule. */
  method Solve(input: string, rule: FuelRule) returns (r: Result<int>)
    ensures r.Ok? <==> ParsePositions(input).Ok?
    ensures r.Ok? ==>
              var ps := ParsePositions(input).value;
              (forall c :: Min(ps) <= c <= Max(ps) ==> r.value <= TotalFuel(ps, rule, c)) &&
              (exists c :: Min(ps) <= c <= Max(ps) && r.value == TotalFuel(ps, rule, c))
  {
    var parsed := ParsePositions(input);
    if parsed.Err? {
      return Err;
    }
    var best := FindBestFuel(parsed.value, rule);
    return Ok(best.value);
  }

  function SamplePositions(): seq<int> {
    [16, 1, 2, 0, 4, 2, 7, 1, 2, 14]
  }

  /** Adding one more crab to the total. */
  lemma TotalFuelNext(positions: seq<int>, k: nat, rule: FuelRule, center: int)
    requires k < |positions|
    ensures TotalFuel(positions[..k + 1], rule, center) == TotalFuel(positions[..k], rule, center) + Fuel(rule, positions[k], center)
  {
    assert positions[..k + 1][..k] == positions[..k];
  }

  /** In the sample, aligning at 2 costs 37 under the linear rule. */
  lemma SampleLinearFuel()
    ensures TotalFuel(SamplePositions(), Linear, 2) == 37
  {
    var ps := SamplePositions();
    var partial := [0, 14, 15, 15, 17, 19, 19, 24, 25, 25, 37];
    for k := 0 to 10
      invariant TotalFuel(ps[..k], Linear, 2) == partial[k]
    {
      TotalFuelNext(ps, k, Linear, 2);
    }
    assert ps[..10] == ps;
  }

  /** In the sample, aligning at 5 costs 168 under the triangular rule. */
  lemma SampleSummationFuel()
    ensures TotalFuel(SamplePositions(), Summation, 5) == 168
  {
    var ps := SamplePositions();
    var partial := [0, 66, 76, 82, 97, 98, 104, 107, 117, 123, 168];
    for k := 0 to 10
      invariant TotalFuel(ps[..k], Summation, 5) == partial[k]
    {
      TotalFuelNext(ps, k, Summation, 5);
    }
    assert ps[..10] == ps;
  }
}
