/** Day 2: dive. Interprets "forward", "up" and "down" commands, first as
    direct moves and then as moves steered by an aim. */
module Day02 {
  import opened Wrappers
  import Text

  datatype Command = Forward | Up | Down

  datatype Step = Step(command: Command, value: int)

  /** The submarine's position; `aim` stays 0 under the part 1 rules. */
  datatype Position = Position(horizontal: int, depth: int, aim: int)

  /** The command word; any other word makes the source panic. */
  function CommandOf(word: string): (r: Option<Command>)
    ensures r == Some(Forward) <==> word == "forward"
    ensures r == Some(Up) <==> word == "up"
    ensures r == Some(Down) <==> word == "down"
  {
    if word == "forward" then Some(Forward)
    else if word == "up" then Some(Up)
    else if word == "down" then Some(Down)
    else None
  }

  /** The pieces of a line split on single spaces. */
  function Parts(line: string): seq<string> {
    Text.Split(line, " ")
  }

  /** The value after the first space, parsed as an `i32`. */
  function ValueOf(line: string): Option<int>
    requires |Parts(line)| >= 2
  {
    Text.ParseInt(Parts(line)[1], Text.I32_MIN, Text.I32_MAX)
  }

  /** A line the source reads without panicking: it has a second piece
      (`unwrap`), and when that piece parses the first piece is a known
      command (the `match` arm `_ => panic!`). */
  predicate LineReadable(line: string) {
    |Parts(line)| >= 2 && (ValueOf(line).Some? ==> CommandOf(Parts(line)[0]).Some?)
  }

  /** The step a readable line describes, or `None` when its value is not
      an `i32`. */
  function LineStep(line: string): (r: Option<Step>)
    requires LineReadable(line)
    ensures r.Some? <==> ValueOf(line).Some?
    ensures r.Some? ==> ValueOf(line) == Some(r.value.value) && CommandOf(Parts(line)[0]) == Some(r.value.command)
  {
    match ValueOf(line)
    case None => None
    case Some(v) => Some(Step(CommandOf(Parts(line)[0]).value, v))
  }

  /** No line before the first parse error panics. */
  predicate NoPanic(lines: seq<string>)
    decreases |lines|, 0
  {
    lines == [] ||
    (NoPanic(lines[..|lines| - 1]) &&
     (ParseSteps(lines[..|lines| - 1]).Ok? ==> LineReadable(lines[|lines| - 1])))
  }

  /** The commands of the lines, or an error at the first value that is not
      an `i32`. */
  function ParseSteps(lines: seq<string>): (r: Result<seq<Step>>)
    requires NoPanic(lines)
    ensures r.Ok? ==> |r.value| == |lines|
    decreases |lines|, 1
  {
    if lines == [] then Ok([])
    else
      var front := lines[..|lines| - 1];
      var last := lines[|lines| - 1];
      match ParseSteps(front)
      case Err => Err
      case Ok(steps) =>
        match LineStep(last)
        case None => Err
        case Some(step) =>
          Ok(steps + [step])
  }

  /** A successful parse reads every line: each is readable, and its step
      is its command word with its value. */
  lemma {:induction false} ParseStepsReadsEachLine(lines: seq<string>, i: nat)
    requires NoPanic(lines) && ParseSteps(lines).Ok? && i < |lines|
    ensures LineReadable(lines[i]) && LineStep(lines[i]) == Some(ParseSteps(lines).value[i])
    decreases |lines|
  {
    var front := lines[..|lines| - 1];
    if i < |front| {
      ParseStepsReadsEachLine(front, i);
    }
  }

  /** One part 1 move: "forward" adds to horizontal, "up" subtracts from
      depth, "down" adds to depth. */
  function Move(p: Position, s: Step): Position {
    match s.command
    case Forward => p.(horizontal := p.horizontal + s.value)
    case Up => p.(depth := p.depth - s.value)
    case Down => p.(depth := p.depth + s.value)
  }

  /** One part 2 move: "up" and "down" change only the aim, "forward" moves
      horizontally and descends by aim times the value. */
  function AimedMove(p: Position, s: Step): Position {
    match s.command
    case Forward => p.(horizontal := p.horizontal + s.value, depth := p.depth + p.aim * s.value)
    case Up => p.(aim := p.aim - s.value)
    case Down => p.(aim := p.aim + s.value)
  }

  function Origin(): Position {
    Position(0, 0, 0)
  }

  /** The position after following the steps under the part 1 rules. */
  function Follow(steps: seq<Step>): Position {
    if steps == [] then Origin() else Move(Follow(steps[..|steps| - 1]), steps[|steps| - 1])
  }

  /** The position after following the steps under the part 2 rules. */
  function FollowAimed(steps: seq<Step>): Position {
    if steps == [] then Origin() else AimedMove(FollowAimed(steps[..|steps| - 1]), steps[|steps| - 1])
  }

  /** The total of the values of the steps with the given command. */
  function Total(steps: seq<Step>, c: Command): int {
    if steps == [] then 0
    else Total(steps[..|steps| - 1], c) + (if steps[|steps| - 1].command == c then steps[|steps| - 1].value else 0)
  }

  /** Part 1 ends at horizontal = the forward total and depth = downs minus
      ups, and never changes the aim. */
  lemma {:induction false} FollowTotals(steps: seq<Step>)
    ensures Follow(steps) == Position(Total(steps, Forward), Total(steps, Down) - Total(steps, Up), 0)
  {
    if steps != [] {
      FollowTotals(steps[..|steps| - 1]);
    }
  }

  /** Part 1's answer in terms of the totals of each direction. */
  lemma DirectProduct(steps: seq<Step>)
    ensures Follow(steps).horizontal * Follow(steps).depth == Total(steps, Forward) * (Total(steps, Down) - Total(steps, Up))
  {
    FollowTotals(steps);
  }

  /** Part 2 moves horizontally exactly as part 1 does, and its aim is part
      1's depth. */
  lemma {:induction false} AimIsDirectDepth(steps: seq<Step>)
    ensures FollowAimed(steps).horizontal == Follow(steps).horizontal
    ensures FollowAimed(steps).aim == Follow(steps).depth
  {
    if steps != [] {
      AimIsDirectDepth(steps[..|steps| - 1]);
    }
  }

  /** Part 2's depth is the sum, over forward steps, of the value times the
      aim reached before that step. */
  function AimedDescent(steps: seq<Step>): int {
    if steps == [] then 0
    else
      var front := steps[..|steps| - 1];
      var s := steps[|steps| - 1];
      AimedDescent(front) + (if s.command == Forward then Follow(front).depth * s.value else 0)
  }

  lemma {:induction false} AimedDepthIsDescent(steps: seq<Step>)
    ensures FollowAimed(steps).depth == AimedDescent(steps)
  {
    if steps != [] {
      AimedDepthIsDescent(steps[..|steps| - 1]);
      AimIsDirectDepth(steps[..|steps| - 1]);
    }
  }

  function InputLines(input: string): seq<string> {
    Text.Lines(Text.Trim(input))
  }

  /** Reading one line: split on spaces, parse the second piece as an
      `i32`, then match the first piece against the command words. */
  method ReadStep(line: string) returns (step: Option<Step>)
    requires LineReadable(line)
    ensures step == LineStep(line)
  {
    var parts := Text.Split(line, " ");
    var value := Text.ParseInt(parts[1], Text.I32_MIN, Text.I32_MAX);
    if value.None? {
      return None;
    }
    var command := CommandOf(parts[0]).value;
    return Some(Step(command, value.value));
  }

  /** The loop of `solve_part1`: horizontal times depth after the direct
      moves, or an error at the first value that is not an `i32`. */
  method Dive(lines: seq<string>) returns (r: Result<int>)
    requires NoPanic(lines)
    ensures r.Ok? <==> ParseSteps(lines).Ok?
    ensures r.Ok? ==> r.value == Follow(ParseSteps(lines).value).horizontal * Follow(ParseSteps(lines).value).depth
  {
    var horizontal := 0;
    var depth := 0;
    ghost var steps: seq<Step> := [];
    for i := 0 to |lines|
      invariant NoPanic(lines[..i]) && ParseSteps(lines[..i]) == Ok(steps)
      invariant Follow(steps) == Position(horizontal, depth, 0)
    {
      ReadNextLine(lines, i);
      var read := ReadStep(lines[i]);
      if read.None? {
        return Err;
      }
      var step := read.value;
      match step.command {
        case Forward => horizontal := horizontal + step.value;
        case Up => depth := depth - step.value;
        case Down => depth := depth + step.value;
      }
      assert (steps + [step])[..i] == steps;
      steps := steps + [step];
    }
    assert lines[..|lines|] == lines;
    return Ok(horizontal * depth);
  }

  /** The loop of `solve_part2`: horizontal times depth after the aimed
      moves, or an error at the first value that is not an `i32`. */
  method AimedDive(lines: seq<string>) returns (r: Result<int>)
    requires NoPanic(lines)
    ensures r.Ok? <==> ParseSteps(lines).Ok?
    ensures r.Ok? ==> r.value == FollowAimed(ParseSteps(lines).value).horizontal * FollowAimed(ParseSteps(lines).value).depth
  {
    var horizontal := 0;
    var depth := 0;
    var aim := 0;
    ghost var steps: seq<Step> := [];
    for i := 0 to |lines|
      invariant NoPanic(lines[..i]) && ParseSteps(lines[..i]) == Ok(steps)
      invariant FollowAimed(steps) == Position(horizontal, depth, aim)
    {
      ReadNextLine(lines, i);
      var read := ReadStep(lines[i]);
      if read.None? {
        return Err;
      }
      var step := read.value;
      assert (steps + [step])[..i] == steps;
      assert FollowAimed(steps + [step]) == AimedMove(Position(horizontal, depth, aim), step);
      match step.command {
        case Forward =>
          horizontal := horizontal + step.value;
          depth := depth + aim * step.value;
        case Up => aim := aim - step.value;
        case Down => aim := aim + step.value;
      }
      steps := steps + [step];
    }
    assert lines[..|lines|] == lines;
    return Ok(horizontal * depth);
  }

  /** Reading line `i` after a successful prefix: the line does not panic,
      and the parse of the longer prefix either fails for the whole input or
      extends the steps by that line's step. */
  lemma ReadNextLine(lines: seq<string>, i: nat)
    requires NoPanic(lines) && i < |lines|
    requires NoPanic(lines[..i]) && ParseSteps(lines[..i]).Ok?
    ensures LineReadable(lines[i]) && NoPanic(lines[..i + 1])
    ensures LineStep(lines[i]).None? ==> ParseSteps(lines).Err?
    ensures LineStep(lines[i]).Some? ==>
              ParseSteps(lines[..i + 1]) == Ok(ParseSteps(lines[..i]).value + [LineStep(lines[i]).value])
  {
    NoPanicPrefix(lines, i + 1);
    assert lines[..i + 1][..i] == lines[..i];
    assert lines[..i + 1][i] == lines[i];
    if LineStep(lines[i]).None? {
      ParseErrorPersists(lines, i + 1);
    }
  }

  /** Freedom from panics holds for every prefix. */
  lemma {:induction false} NoPanicPrefix(lines: seq<string>, n: nat)
    requires NoPanic(lines) && n <= |lines|
    ensures NoPanic(lines[..n])
    decreases |lines|
  {
    if n < |lines| {
      assert lines[..|lines| - 1][..n] == lines[..n];
      NoPanicPrefix(lines[..|lines| - 1], n);
    } else {
      assert lines[..n] == lines;
    }
  }

  /** Once a prefix fails to parse, so does every longer input. */
  lemma {:induction false} ParseErrorPersists(lines: seq<string>, n: nat)
    requires NoPanic(lines) && n <= |lines|
    requires NoPanic(lines[..n]) && ParseSteps(lines[..n]).Err?
    ensures ParseSteps(lines).Err?
    decreases |lines|
  {
    if n < |lines| {
      assert lines[..|lines| - 1][..n] == lines[..n];
      ParseErrorPersists(lines[..|lines| - 1], n);
    } else {
      assert lines[..n] == lines;
    }
  }

  /** `solve_part1`; `DirectProduct` gives the answer in terms of the
      totals of each direction. */
  method SolvePart1(input: string) returns (r: Result<int>)
    requires NoPanic(InputLines(input))
    ensures r.Ok? <==> ParseSteps(InputLines(input)).Ok?
    ensures r.Ok? ==>
              var position := Follow(ParseSteps(InputLines(input)).value);
              r.value == position.horizontal * position.depth
  {
    r := Dive(InputLines(input));
  }

  /** `solve_part2`. */
  method SolvePart2(input: string) returns (r: Result<int>)
    requires NoPanic(InputLines(input))
    ensures r.Ok? <==> ParseSteps(InputLines(input)).Ok?
    ensures r.Ok? ==>
              var steps := ParseSteps(InputLines(input)).value;
              r.value == Total(steps, Forward) * AimedDescent(steps)
  {
    var lines := InputLines(input);
    r := AimedDive(lines);
    if r.Ok? {
      var steps := ParseSteps(lines).value;
      FollowTotals(steps);
      AimIsDirectDepth(steps);
      AimedDepthIsDescent(steps);
    }
  }

  /** The sample course. */
  function SampleSteps(): seq<Step> {
    [Step(Forward, 5), Step(Down, 5), Step(Forward, 8), Step(Up, 3), Step(Down, 8), Step(Forward, 2)]
  }

  /** Under the part 1 rules the sample course gives 150. */
  lemma SampleCourseDirect(steps: seq<Step>)
    requires steps == SampleSteps()
    ensures Follow(steps).horizontal * Follow(steps).depth == 150
  {
    assert Follow(steps[..1]) == Position(5, 0, 0) by {
      assert steps[..1][..0] == steps[..0];
    }
    assert Follow(steps[..2]) == Position(5, 5, 0) by {
      assert steps[..2][..1] == steps[..1];
    }
    assert Follow(steps[..3]) == Position(13, 5, 0) by {
      assert steps[..3][..2] == steps[..2];
    }
    assert Follow(steps[..4]) == Position(13, 2, 0) by {
      assert steps[..4][..3] == steps[..3];
    }
    assert Follow(steps[..5]) == Position(13, 10, 0) by {
      assert steps[..5][..4] == steps[..4];
    }
    assert Follow(steps[..6]) == Position(15, 10, 0) by {
      assert steps[..6][..5] == steps[..5];
    }
    assert steps[..6] == steps;
  }

  /** Under the part 2 rules the sample course gives 900. */
  lemma SampleCourseAimed(steps: seq<Step>)
    requires steps == SampleSteps()
    ensures FollowAimed(steps).horizontal * FollowAimed(steps).depth == 900
  {
    assert FollowAimed(steps[..1]) == Position(5, 0, 0) by {
      assert steps[..1][..0] == steps[..0];
    }
    assert FollowAimed(steps[..2]) == Position(5, 0, 5) by {
      assert steps[..2][..1] == steps[..1];
    }
    assert FollowAimed(steps[..3]) == Position(13, 40, 5) by {
      assert steps[..3][..2] == steps[..2];
    }
    assert FollowAimed(steps[..4]) == Position(13, 40, 2) by {
      assert steps[..4][..3] == steps[..3];
    }
    assert FollowAimed(steps[..5]) == Position(13, 40, 10) by {
      assert steps[..5][..4] == steps[..4];
    }
    assert FollowAimed(steps[..6]) == Position(15, 60, 10) by {
      assert steps[..6][..5] == steps[..5];
    }
    assert steps[..6] == steps;
  }
}
