/** Day 10: syntax scoring. Each line is scanned with a stack of open
    brackets; the first closer that does not match the innermost open
    bracket makes the line corrupted, and a line that ends with open
    brackets left is incomplete and is scored by the closers it lacks. */
module Day10 {
  import opened Wrappers
  import Text
  import Sorting

  predicate IsOpener(c: char) {
    c == '(' || c == '[' || c == '{' || c == '<'
  }

  predicate IsCloser(c: char) {
    c == ')' || c == ']' || c == '}' || c == '>'
  }

  /** The opener a closer must meet. */
  function OpenerOf(c: char): (o: char)
    requires IsCloser(c)
    ensures IsOpener(o)
  {
    match c
    case ')' => '('
    case ']' => '['
    case '}' => '{'
    case '>' => '<'
  }

  /** The closer that completes an opener. */
  function CloserOf(o: char): (c: char)
    requires IsOpener(o)
    ensures IsCloser(c) && OpenerOf(c) == o
  {
    match o
    case '(' => ')'
    case '[' => ']'
    case '{' => '}'
    case '<' => '>'
  }

  /** The state of the scan of one line: still going with the open brackets
      on the stack (innermost last), stopped at the first illegal closer, or
      stopped by a character that is not a bracket (the source panics). */
  datatype Scan = Open(stack: seq<char>) | Corrupted(illegal: char) | Invalid

  /** One character of the scan. A closer met with an empty stack is
      skipped; a closer whose popped opener does not match stops the scan. */
  function Step(state: Scan, c: char): (r: Scan)
    ensures state.Open? && IsOpener(c) ==> r == Open(state.stack + [c])
    ensures state.Open? && IsCloser(c) && state.stack != [] ==>
              r == (if state.stack[|state.stack| - 1] == OpenerOf(c)
                    then Open(state.stack[..|state.stack| - 1]) else Corrupted(c))
    ensures state.Open? && IsCloser(c) && state.stack == [] ==> r == state
    ensures state.Open? && !IsOpener(c) && !IsCloser(c) ==> r == Scan.Invalid
    ensures !state.Open? ==> r == state
  {
    match state
    case Open(stack) =>
      if IsOpener(c) then Open(stack + [c])
      else if IsCloser(c) then
        if stack == [] then state
        else if stack[|stack| - 1] == OpenerOf(c) then Open(stack[..|stack| - 1])
        else Corrupted(c)
      else Scan.Invalid
    case _ => state
  }

  /** The scan of `s` from `state`, one character at a time. */
  function Feed(state: Scan, s: string): (r: Scan)
    ensures !state.Open? ==> r == state
  {
    if s == [] then state else Step(Feed(state, s[..|s| - 1]), s[|s| - 1])
  }

  /** The scan of a whole (trimmed) line from an empty stack. */
  function Run(line: string): Scan {
    Feed(Open([]), line)
  }

  /** Scanning is a fold: a line can be scanned in two pieces. */
  lemma {:induction false} FeedAppend(state: Scan, a: string, b: string)
    ensures Feed(state, a + b) == Feed(Feed(state, a), b)
    decreases |b|
  {
    if b != [] {
      assert (a + b)[..|a + b| - 1] == a + b[..|b| - 1];
      FeedAppend(state, a, b[..|b| - 1]);
    } else {
      assert a + b == a;
    }
  }

  /** Once a line is corrupted, nothing after the illegal closer matters:
      the source breaks out of the line. */
  lemma CorruptionIsFinal(a: string, b: string)
    requires Run(a).Corrupted?
    ensures Run(a + b) == Run(a)
  {
    FeedAppend(Open([]), a, b);
  }

  /** The closers that complete a stack, innermost first. */
  function Completion(stack: seq<char>): (r: string)
    requires forall i :: 0 <= i < |stack| ==> IsOpener(stack[i])
    ensures |r| == |stack|
  {
    if stack == [] then []
    else [CloserOf(stack[|stack| - 1])] + Completion(stack[..|stack| - 1])
  }

  /** Appending the completion of an incomplete line closes every open
      bracket without corrupting it. */
  lemma {:induction false} CompletionCloses(stack: seq<char>)
    requires forall i :: 0 <= i < |stack| ==> IsOpener(stack[i])
    ensures Feed(Open(stack), Completion(stack)) == Open([])
    decreases |stack|
  {
    if stack != [] {
      var n := |stack|;
      var c := CloserOf(stack[n - 1]);
      assert Feed(Open(stack), [c]) == Open(stack[..n - 1]) by {
        assert [c][..0] == [];
      }
      FeedAppend(Open(stack), [c], Completion(stack[..n - 1]));
      CompletionCloses(stack[..n - 1]);
    }
  }

  /** Every stack the scan builds holds only openers. */
  lemma {:induction false} StackHoldsOpeners(s: string)
    ensures Run(s).Open? ==> forall i :: 0 <= i < |Run(s).stack| ==> IsOpener(Run(s).stack[i])
  {
    if s != [] {
      StackHoldsOpeners(s[..|s| - 1]);
    }
  }

  /** The part 1 points of an illegal closer. */
  function SyntaxPoints(c: char): (p: nat)
    requires IsCloser(c)
    ensures p in {3, 57, 1197, 25137}
  {
    match c
    case ')' => 3
    case ']' => 57
    case '}' => 1197
    case '>' => 25137
  }

  /** The part 2 value of an opener left on the stack. */
  function CompletionValue(o: char): (v: nat)
    requires IsOpener(o)
    ensures 1 <= v <= 4
  {
    match o
    case '(' => 1
    case '[' => 2
    case '{' => 3
    case '<' => 4
  }

  /** The completion score: the stack is read from the innermost opener out,
      multiplying by 5 and adding each opener's value. */
  function CompletionScore(stack: seq<char>): (p: nat)
    requires forall i :: 0 <= i < |stack| ==> IsOpener(stack[i])
    ensures p == 0 <==> stack == []
  {
    if stack == [] then 0 else 5 * CompletionScore(stack[1..]) + CompletionValue(stack[0])
  }

  /** The completion score is a base-5 numeral whose digits are the opener
      values, so two different stacks never score the same. */
  lemma {:induction false} CompletionScoreInjective(s: seq<char>, t: seq<char>)
    requires forall i :: 0 <= i < |s| ==> IsOpener(s[i])
    requires forall i :: 0 <= i < |t| ==> IsOpener(t[i])
    requires CompletionScore(s) == CompletionScore(t)
    ensures s == t
    decreases |s|
  {
    if s != [] {
      var p := CompletionScore(s);
      assert p % 5 == CompletionValue(s[0]) && p / 5 == CompletionScore(s[1..]);
      assert p % 5 == CompletionValue(t[0]) && p / 5 == CompletionScore(t[1..]);
      CompletionScoreInjective(s[1..], t[1..]);
      assert s == [s[0]] + s[1..] && t == [t[0]] + t[1..];
    }
  }

  /** The lines the solvers read: the trimmed input's lines, each trimmed. */
  function InputLines(input: string): (r: seq<string>)
    ensures |r| == |Text.Lines(Text.Trim(input))|
  {
    var lines := Text.Lines(Text.Trim(input));
    seq(|lines|, i requires 0 <= i < |lines| => Text.Trim(lines[i]))
  }

  /** No line reaches a non-bracket character before it is corrupted. */
  predicate NoPanic(lines: seq<string>) {
    forall i :: 0 <= i < |lines| ==> !Run(lines[i]).Invalid?
  }

  function LinePoints(line: string): (p: nat)
    ensures p > 0 <==> Run(line).Corrupted?
  {
    match Run(line)
    case Corrupted(c) =>
      assert IsCloser(c) by { CorruptedAtCloser(line); }
      SyntaxPoints(c)
    case _ => 0
  }

  /** The scan only stops at a closer. */
  lemma {:induction false} CorruptedAtCloser(s: string)
    ensures Run(s).Corrupted? ==> IsCloser(Run(s).illegal)
  {
    if s != [] {
      CorruptedAtCloser(s[..|s| - 1]);
    }
  }

  /** The total syntax error score of the lines. */
  function ErrorScore(lines: seq<string>): nat {
    if lines == [] then 0 else ErrorScore(lines[..|lines| - 1]) + LinePoints(lines[|lines| - 1])
  }

  /** Only corrupted lines score, and each of them scores. */
  lemma {:induction false} ErrorScoreZero(lines: seq<string>)
    ensures ErrorScore(lines) == 0 <==> forall i :: 0 <= i < |lines| ==> !Run(lines[i]).Corrupted?
  {
    if lines != [] {
      var front := lines[..|lines| - 1];
      ErrorScoreZero(front);
      assert forall i :: 0 <= i < |front| ==> front[i] == lines[i];
    }
  }

  /** The completion score of an incomplete line, and 0 for a corrupted
      or complete one. */
  function LineCompletion(line: string): (p: nat)
    ensures p > 0 <==> Run(line).Open? && Run(line).stack != []
  {
    match Run(line)
    case Open(stack) =>
      StackHoldsOpeners(line);
      CompletionScore(stack)
    case _ => 0
  }

  /** The completion scores of the incomplete lines, in input order;
      corrupted and complete lines contribute nothing. */
  function IncompleteScores(lines: seq<string>): seq<int> {
    if lines == [] then []
    else
      var front := IncompleteScores(lines[..|lines| - 1]);
      var p := LineCompletion(lines[|lines| - 1]);
      if p > 0 then front + [p] else front
  }

  /** The inner loop of both parts: push openers, pop on closers, stop at
      the first mismatch. */
  method ScanLine(line: string) returns (r: Scan)
    ensures r == Run(line)
  {
    var opens: seq<char> := [];
    var i := 0;
    while i < |line|
      invariant 0 <= i <= |line|
      invariant Run(line[..i]) == Open(opens)
    {
      var c := line[i];
      assert line[..i + 1] == line[..i] + [c];
      FeedAppend(Open([]), line[..i], [c]);
      assert Feed(Open(opens), [c]) == Step(Open(opens), c) by { assert [c][..0] == []; }
      if IsOpener(c) {
        opens := opens + [c];
      } else if IsCloser(c) {
        if opens != [] {
          var open := opens[|opens| - 1];
          opens := opens[..|opens| - 1];
          if open != OpenerOf(c) {
            CorruptionIsFinal(line[..i + 1], line[i + 1..]);
            assert line[..i + 1] + line[i + 1..] == line;
            return Corrupted(c);
          }
        }
      } else {
        CorruptionOrPanicIsFinal(line[..i + 1], line[i + 1..]);
        assert line[..i + 1] + line[i + 1..] == line;
        return Scan.Invalid;
      }
      i := i + 1;
    }
    assert line[..i] == line;
    return Open(opens);
  }

  /** A panic, like a corruption, ends the scan. */
  lemma CorruptionOrPanicIsFinal(a: string, b: string)
    requires !Run(a).Open?
    ensures Run(a + b) == Run(a)
  {
    FeedAppend(Open([]), a, b);
  }

  /** The completion loop of part 2: the stack walked from the top. */
  method ScoreCompletion(opens: seq<char>) returns (points: nat)
    requires forall i :: 0 <= i < |opens| ==> IsOpener(opens[i])
    ensures points == CompletionScore(opens)
  {
    points := 0;
    var i := |opens|;
    while i > 0
      invariant 0 <= i <= |opens|
      invariant points == CompletionScore(opens[i..])
    {
      i := i - 1;
      assert opens[i..][1..] == opens[i + 1..];
      points := points * 5 + CompletionValue(opens[i]);
    }
  }

  /** The body of the line loop of part 2: the completion score of an
      incomplete line, 0 for any other. */
  method CompleteLine(line: string) returns (points: nat)
    requires !Run(line).Invalid?
    ensures points == LineCompletion(line)
  {
    var scan := ScanLine(line);
    points := 0;
    if scan.Open? && scan.stack != [] {
      StackHoldsOpeners(line);
      points := ScoreCompletion(scan.stack);
    }
  }

  /** The line loop of `solve_part1`: the total syntax error score. */
  method TotalErrorScore(lines: seq<string>) returns (points: nat)
    requires NoPanic(lines)
    ensures points == ErrorScore(lines)
  {
    points := 0;
    for i := 0 to |lines|
      invariant points == ErrorScore(lines[..i])
    {
      assert lines[..i + 1][..i] == lines[..i];
      var scan := ScanLine(lines[i]);
      if scan.Corrupted? {
        CorruptedAtCloser(lines[i]);
        points := points + SyntaxPoints(scan.illegal);
      }
    }
    assert lines[..|lines|] == lines;
  }

  /** `solve_part1`. */
  method SolvePart1(input: string) returns (points: nat)
    requires NoPanic(InputLines(input))
    ensures points == ErrorScore(InputLines(input))
  {
    points := TotalErrorScore(InputLines(input));
  }

  /** The line loop of `solve_part2`: the completion scores of the
      incomplete lines, in order. */
  method CompletionScores(lines: seq<string>) returns (scores: seq<int>)
    requires NoPanic(lines)
    ensures scores == IncompleteScores(lines)
  {
    scores := [];
    for i := 0 to |lines|
      invariant scores == IncompleteScores(lines[..i])
    {
      assert lines[..i + 1][..i] == lines[..i];
      var points := CompleteLine(lines[i]);
      if points > 0 {
        scores := scores + [points];
      }
    }
    assert lines[..|lines|] == lines;
  }

  /** `solve_part2`: the middle of the sorted completion scores. The source
      indexes the sorted scores unconditionally, so at least one line must
      be incomplete. */
  method SolvePart2(input: string) returns (middle: int)
    requires NoPanic(InputLines(input))
    requires IncompleteScores(InputLines(input)) != []
    ensures var sorted := Sorting.Sort(IncompleteScores(InputLines(input)));
            middle == sorted[|sorted| / 2]
  {
    var scores := CompletionScores(InputLines(input));
    var sorted := Sorting.Sort(scores);
    middle := sorted[|sorted| / 2];
  }
}
