/** Day 8: seven segment search. Counts the output patterns that can only
    show 1, 4, 7 or 8, and deduces each display's wiring from its signal
    patterns to read its four-digit output. */
module Day08 {
  import opened Wrappers
  import Text
  import Sums

  // --- Patterns ----------------------------------------------------------------

  /** The distinct characters of a pattern: the `HashSet` its characters
      are inserted into. */
  function Chars(s: string): (r: set<char>)
    ensures forall c :: c in r <==> c in s
  {
    set i | 0 <= i < |s| :: s[i]
  }

  predicate NoRepeats(s: string) {
    forall i, j :: 0 <= i < j < |s| ==> s[i] != s[j]
  }

  /** A pattern without repeated characters has as many distinct
      characters as characters. */
  lemma {:induction false} NoRepeatsChars(s: string)
    requires NoRepeats(s)
    ensures |Chars(s)| == |s|
  {
    if s != [] {
      var front := s[..|s| - 1];
      NoRepeatsChars(front);
      assert Chars(s) == Chars(front) + {s[|s| - 1]};
      assert s[|s| - 1] !in Chars(front);
    }
  }

  // --- Lines -------------------------------------------------------------------

  /** The two sides of a line, split at " | ". */
  function Sides(line: string): (r: seq<string>)
    ensures |r| >= 1
  {
    Text.Split(line, " | ")
  }

  /** The second side is unwrapped: a line without " | " panics. */
  predicate HasOutput(line: string) {
    |Sides(line)| >= 2
  }

  /** The patterns of one side: trimmed, then split at single spaces. */
  function Words(side: string): seq<string> {
    Text.Split(Text.Trim(side), " ")
  }

  function SignalPatterns(line: string): seq<string> {
    Words(Sides(line)[0])
  }

  function OutputPatterns(line: string): seq<string>
    requires HasOutput(line)
  {
    Words(Sides(line)[1])
  }

  function InputLines(input: string): seq<string> {
    Text.Lines(Text.Trim(input))
  }

  // --- Part 1 ------------------------------------------------------------------

  /** The segment counts that only one digit has: 2 (one), 3 (seven),
      4 (four) and 7 (eight). */
  predicate Unique(n: nat) {
    n == 2 || n == 3 || n == 4 || n == 7
  }

  /** The output patterns with a unique number of distinct segments. */
  function CountUnique(outputs: seq<string>): (n: nat)
    ensures n <= |outputs|
  {
    if outputs == [] then 0
    else CountUnique(outputs[..|outputs| - 1]) + (if Unique(|Chars(outputs[|outputs| - 1])|) then 1 else 0)
  }

  /** The unique output patterns of all lines. */
  function UniqueInLines(lines: seq<string>): nat
    requires forall i :: 0 <= i < |lines| ==> HasOutput(lines[i])
  {
    if lines == [] then 0
    else UniqueInLines(lines[..|lines| - 1]) + CountUnique(OutputPatterns(lines[|lines| - 1]))
  }

  /** The inner loop of `solve_part1` over one line's output patterns. */
  method CountUniqueOutputs(outputs: seq<string>) returns (count: int)
    ensures count == CountUnique(outputs)
  {
    count := 0;
    for i := 0 to |outputs|
      invariant count == CountUnique(outputs[..i])
    {
      assert outputs[..i + 1][..i] == outputs[..i];
      var n := |Chars(outputs[i])|;
      if n == 2 || n == 3 || n == 4 || n == 7 {
        count := count + 1;
      }
    }
    assert outputs[..|outputs|] == outputs;
  }

  /** `solve_part1`: every line must have an output side. */
  method SolvePart1(input: string) returns (r: Result<int>)
    requires forall i :: 0 <= i < |InputLines(input)| ==> HasOutput(InputLines(input)[i])
    ensures r == Ok(UniqueInLines(InputLines(input)))
  {
    var count := CountUniqueInLines(InputLines(input));
    return Ok(count);
  }

  /** The outer loop of `solve_part1` over the lines. */
  method CountUniqueInLines(lines: seq<string>) returns (count: int)
    requires forall i :: 0 <= i < |lines| ==> HasOutput(lines[i])
    ensures count == UniqueInLines(lines)
  {
    count := 0;
    for i := 0 to |lines|
      invariant count == UniqueInLines(lines[..i])
    {
      assert lines[..i + 1][..i] == lines[..i];
      var sides := Text.Split(lines[i], " | ");
      var found := CountUniqueOutputs(Words(sides[1]));
      count := count + found;
    }
    assert lines[..|lines|] == lines;
  }

  // --- Part 2: the deduction ----------------------------------------------------

  /** The sets filled by the first `retain`. */
  datatype Easy = Easy(one: set<char>, seven: set<char>, four: set<char>, eight: set<char>)

  /** The first `retain`: the characters of every pattern of byte length 2
      go into `one`, of length 3 into `seven`, of length 4 into `four` and
      of length 7 into `eight`. */
  function EasySets(patterns: seq<string>): Easy {
    if patterns == [] then Easy({}, {}, {}, {})
    else
      var e := EasySets(patterns[..|patterns| - 1]);
      var p := patterns[|patterns| - 1];
      var n := Text.ByteLength(p);
      if n == 2 then e.(one := e.one + Chars(p))
      else if n == 3 then e.(seven := e.seven + Chars(p))
      else if n == 4 then e.(four := e.four + Chars(p))
      else if n == 7 then e.(eight := e.eight + Chars(p))
      else e
  }

  /** The patterns the first `retain` keeps, in order. */
  function NotEasy(patterns: seq<string>): seq<string> {
    if patterns == [] then []
    else
      var p := patterns[|patterns| - 1];
      NotEasy(patterns[..|patterns| - 1]) + (if Unique(Text.ByteLength(p)) then [] else [p])
  }

  /** The set filled from the patterns of byte length `n`. */
  function EasySlot(e: Easy, n: nat): set<char>
    requires Unique(n)
  {
    if n == 2 then e.one else if n == 3 then e.seven else if n == 4 then e.four else e.eight
  }

  /** The first `retain` as the source runs it. */
  method TakeEasy(patterns: seq<string>) returns (easy: Easy, rest: seq<string>)
    ensures easy == EasySets(patterns) && rest == NotEasy(patterns)
  {
    easy, rest := Easy({}, {}, {}, {}), [];
    for i := 0 to |patterns|
      invariant easy == EasySets(patterns[..i]) && rest == NotEasy(patterns[..i])
    {
      assert patterns[..i + 1][..i] == patterns[..i];
      var p := patterns[i];
      var n := Text.ByteLength(p);
      if n == 2 {
        easy := easy.(one := easy.one + Chars(p));
      } else if n == 3 {
        easy := easy.(seven := easy.seven + Chars(p));
      } else if n == 4 {
        easy := easy.(four := easy.four + Chars(p));
      } else if n == 7 {
        easy := easy.(eight := easy.eight + Chars(p));
      } else {
        rest := rest + [p];
      }
    }
    assert patterns[..|patterns|] == patterns;
  }

  /** When all patterns of byte length `n` have the same characters `s`,
      the set filled from them is `s`, or empty if there is none. */
  lemma {:induction false} EasySlotIs(patterns: seq<string>, n: nat, s: set<char>)
    requires Unique(n)
    requires forall p :: p in patterns && Text.ByteLength(p) == n ==> Chars(p) == s
    ensures EasySlot(EasySets(patterns), n) == if exists p :: p in patterns && Text.ByteLength(p) == n then s else {}
  {
    if patterns != [] {
      var front := patterns[..|patterns| - 1];
      var p := patterns[|patterns| - 1];
      assert patterns == front + [p];
      EasySlotIs(front, n, s);
      if Text.ByteLength(p) == n {
        assert EasySlot(EasySets(patterns), n) == EasySlot(EasySets(front), n) + s;
      } else {
        assert EasySlot(EasySets(patterns), n) == EasySlot(EasySets(front), n);
        if exists q :: q in patterns && Text.ByteLength(q) == n {
          var q :| q in patterns && Text.ByteLength(q) == n;
          assert q in front;
        }
      }
    }
  }

  /** The first `retain` keeps exactly the patterns whose byte length is
      not 2, 3, 4 or 7. */
  lemma {:induction false} NotEasyMembers(patterns: seq<string>)
    ensures forall p :: p in NotEasy(patterns) <==> p in patterns && !Unique(Text.ByteLength(p))
  {
    if patterns != [] {
      var front := patterns[..|patterns| - 1];
      NotEasyMembers(front);
      assert forall q :: q in patterns <==> q in front || q == patterns[|patterns| - 1];
    }
  }

  /** The sets assigned by the second `retain`. */
  datatype Sixes = Sixes(zero: set<char>, six: set<char>, nine: set<char>)

  datatype SixClass = Zero | Six | Nine

  /** A 6-segment pattern is nine if it contains four, else zero if it
      contains one, else six. */
  function ClassifySix(cs: set<char>, one: set<char>, four: set<char>): SixClass {
    if four <= cs then Nine else if one <= cs then Zero else Six
  }

  function SixSlot(s: Sixes, c: SixClass): set<char> {
    match c
    case Zero => s.zero
    case Six => s.six
    case Nine => s.nine
  }

  /** The second `retain`: each pattern of byte length 6 is classified and
      assigned to its set, a later one replacing an earlier one. */
  function SixSets(rest: seq<string>, one: set<char>, four: set<char>): Sixes {
    if rest == [] then Sixes({}, {}, {})
    else
      var s := SixSets(rest[..|rest| - 1], one, four);
      var p := rest[|rest| - 1];
      if Text.ByteLength(p) != 6 then s
      else
        match ClassifySix(Chars(p), one, four)
        case Nine => s.(nine := Chars(p))
        case Zero => s.(zero := Chars(p))
        case Six => s.(six := Chars(p))
  }

  /** The patterns the second `retain` keeps, in order. */
  function NotSix(rest: seq<string>): seq<string> {
    if rest == [] then []
    else
      var p := rest[|rest| - 1];
      NotSix(rest[..|rest| - 1]) + (if Text.ByteLength(p) == 6 then [] else [p])
  }

  /** The second `retain` as the source runs it. */
  method TakeSixes(rest: seq<string>, one: set<char>, four: set<char>) returns (sixes: Sixes, others: seq<string>)
    ensures sixes == SixSets(rest, one, four) && others == NotSix(rest)
  {
    sixes, others := Sixes({}, {}, {}), [];
    for i := 0 to |rest|
      invariant sixes == SixSets(rest[..i], one, four) && others == NotSix(rest[..i])
    {
      assert rest[..i + 1][..i] == rest[..i];
      var p := rest[i];
      if Text.ByteLength(p) == 6 {
        var cs := Chars(p);
        if four <= cs {
          sixes := sixes.(nine := cs);
        } else if one <= cs {
          sixes := sixes.(zero := cs);
        } else {
          sixes := sixes.(six := cs);
        }
      } else {
        others := others + [p];
      }
    }
    assert rest[..|rest|] == rest;
  }

  /** When all 6-byte patterns of class `c` have the same characters `s`,
      the set of that class is `s`, or empty if there is none. */
  lemma {:induction false} SixSlotIs(rest: seq<string>, one: set<char>, four: set<char>, c: SixClass, s: set<char>)
    requires forall p :: p in rest && Text.ByteLength(p) == 6 && ClassifySix(Chars(p), one, four) == c ==> Chars(p) == s
    ensures SixSlot(SixSets(rest, one, four), c) ==
              if exists p :: p in rest && Text.ByteLength(p) == 6 && ClassifySix(Chars(p), one, four) == c then s else {}
  {
    if rest != [] {
      var front := rest[..|rest| - 1];
      assert forall q :: q in rest <==> q in front || q == rest[|rest| - 1];
      SixSlotIs(front, one, four, c, s);
    }
  }

  /** The second `retain` keeps exactly the patterns whose byte length is
      not 6. */
  lemma {:induction false} NotSixMembers(rest: seq<string>)
    ensures forall p :: p in NotSix(rest) <==> p in rest && Text.ByteLength(p) != 6
  {
    if rest != [] {
      var front := rest[..|rest| - 1];
      NotSixMembers(front);
      assert forall q :: q in rest <==> q in front || q == rest[|rest| - 1];
    }
  }

  /** The sets assigned by the last loop. */
  datatype Fives = Fives(two: set<char>, three: set<char>, five: set<char>)

  datatype FiveClass = Two | Three | Five

  /** A remaining pattern is five if it lacks both the top right and the
      bottom left segment, three if it lacks only the bottom left one, and
      two otherwise. */
  function ClassifyFive(cs: set<char>, topRight: char, bottomLeft: char): FiveClass {
    if topRight !in cs && bottomLeft !in cs then Five
    else if bottomLeft !in cs then Three
    else Two
  }

  function FiveSlot(f: Fives, c: FiveClass): set<char> {
    match c
    case Two => f.two
    case Three => f.three
    case Five => f.five
  }

  /** The last loop: every remaining pattern, whatever its length, is
      classified and assigned to its set, a later one replacing an earlier
      one. */
  function FiveSets(rest: seq<string>, topRight: char, bottomLeft: char): Fives {
    if rest == [] then Fives({}, {}, {})
    else
      var f := FiveSets(rest[..|rest| - 1], topRight, bottomLeft);
      var cs := Chars(rest[|rest| - 1]);
      match ClassifyFive(cs, topRight, bottomLeft)
      case Five => f.(five := cs)
      case Three => f.(three := cs)
      case Two => f.(two := cs)
  }

  /** The last loop as the source runs it. */
  method TakeFives(rest: seq<string>, topRight: char, bottomLeft: char) returns (fives: Fives)
    ensures fives == FiveSets(rest, topRight, bottomLeft)
  {
    fives := Fives({}, {}, {});
    for i := 0 to |rest|
      invariant fives == FiveSets(rest[..i], topRight, bottomLeft)
    {
      assert rest[..i + 1][..i] == rest[..i];
      var cs := Chars(rest[i]);
      if topRight !in cs && bottomLeft !in cs {
        fives := fives.(five := cs);
      } else if bottomLeft !in cs {
        fives := fives.(three := cs);
      } else {
        fives := fives.(two := cs);
      }
    }
    assert rest[..|rest|] == rest;
  }

  /** When all patterns of class `c` have the same characters `s`, the set
      of that class is `s`, or empty if there is none. */
  lemma {:induction false} FiveSlotIs(rest: seq<string>, topRight: char, bottomLeft: char, c: FiveClass, s: set<char>)
    requires forall p :: p in rest && ClassifyFive(Chars(p), topRight, bottomLeft) == c ==> Chars(p) == s
    ensures FiveSlot(FiveSets(rest, topRight, bottomLeft), c) ==
              if exists p :: p in rest && ClassifyFive(Chars(p), topRight, bottomLeft) == c then s else {}
  {
    if rest != [] {
      var front := rest[..|rest| - 1];
      assert forall q :: q in rest <==> q in front || q == rest[|rest| - 1];
      FiveSlotIs(front, topRight, bottomLeft, c, s);
    }
  }

  /** The ten sets the output patterns are compared with, indexed by digit. */
  function Wiring(e: Easy, s: Sixes, f: Fives): (w: seq<set<char>>)
    ensures |w| == 10
  {
    [s.zero, e.one, f.two, f.three, e.four, f.five, s.six, e.seven, e.eight, s.nine]
  }

  /** `pick` stands for the unspecified iteration order of a `HashSet`:
      `next()` on a non-empty set yields one of its elements. */
  ghost predicate Picks(pick: set<char> -> char) {
    forall s: set<char> :: s != {} ==> pick(s) in s
  }

  /** The deduction of one line: `None` where the source panics, because
      `eight` has no segment outside `six` (the top right one) or none
      outside `nine` (the bottom left one). */
  function Deduce(patterns: seq<string>, pick: set<char> -> char): Option<seq<set<char>>> {
    var easy := EasySets(patterns);
    var rest := NotEasy(patterns);
    var sixes := SixSets(rest, easy.one, easy.four);
    if easy.eight - sixes.six == {} || easy.eight - sixes.nine == {} then None
    else
      var topRight := pick(easy.eight - sixes.six);
      var bottomLeft := pick(easy.eight - sixes.nine);
      Some(Wiring(easy, sixes, FiveSets(NotSix(rest), topRight, bottomLeft)))
  }

  /** The first digit, in the order 0 to 9 the source tests them, whose set
      equals `cs`. */
  function DigitOf(wiring: seq<set<char>>, cs: set<char>, from: nat): (r: Option<nat>)
    requires |wiring| == 10 && from <= 10
    ensures r.Some? ==> from <= r.value < 10 && wiring[r.value] == cs
    ensures r.Some? ==> forall d :: from <= d < r.value ==> wiring[d] != cs
    ensures r.None? ==> forall d :: from <= d < 10 ==> wiring[d] != cs
    decreases 10 - from
  {
    if from == 10 then None
    else if wiring[from] == cs then Some(from)
    else DigitOf(wiring, cs, from + 1)
  }

  /** The digit characters of the output patterns, or `None` when one of
      them equals none of the ten sets (the `panic!`). */
  function ReadDigits(wiring: seq<set<char>>, outputs: seq<string>): (r: Option<string>)
    requires |wiring| == 10
    ensures r.Some? ==> |r.value| == |outputs|
  {
    if outputs == [] then Some([])
    else
      match ReadDigits(wiring, outputs[..|outputs| - 1])
      case None => None
      case Some(front) =>
        match DigitOf(wiring, Chars(outputs[|outputs| - 1]), 0)
        case None => None
        case Some(d) => Some(front + [Text.DigitChar(d)])
  }

  /** One display: the digit characters read as a `u32`, an error through
      `?` when they do not fit or there are none. */
  function DisplayValue(patterns: seq<string>, outputs: seq<string>, pick: set<char> -> char): Reading<int> {
    match Deduce(patterns, pick)
    case None => Panics
    case Some(wiring) =>
      match ReadDigits(wiring, outputs)
      case None => Panics
      case Some(digits) =>
        match Text.ParseInt(digits, 0, Text.U32_MAX)
        case None => Invalid
        case Some(v) => Read(v)
  }

  /** One line of `solve_part2`; the output side is unwrapped first. */
  function LineValue(line: string, pick: set<char> -> char): Reading<int> {
    if !HasOutput(line) then Panics
    else DisplayValue(SignalPatterns(line), OutputPatterns(line), pick)
  }

  /** The values of the lines, in order; the first line that panics or
      fails decides the outcome. */
  function LineValues(lines: seq<string>, pick: set<char> -> char): Reading<seq<int>> {
    Collect(seq(|lines|, i requires 0 <= i < |lines| => LineValue(lines[i], pick)))
  }

  /** The body of the loop of `solve_part2` for a line that does not panic. */
  method DecodeLine(line: string, pick: set<char> -> char) returns (r: Result<int>)
    requires !LineValue(line, pick).Panics?
    ensures r.Ok? <==> LineValue(line, pick).Read?
    ensures r.Ok? ==> r.value == LineValue(line, pick).value
  {
    var sides := Text.Split(line, " | ");
    r := DecodeDisplay(Words(sides[0]), Words(sides[1]), pick);
  }

  /** The deduction and reading of one display that does not panic. */
  method DecodeDisplay(patterns: seq<string>, outputs: seq<string>, pick: set<char> -> char) returns (r: Result<int>)
    requires !DisplayValue(patterns, outputs, pick).Panics?
    ensures r.Ok? <==> DisplayValue(patterns, outputs, pick).Read?
    ensures r.Ok? ==> r.value == DisplayValue(patterns, outputs, pick).value
  {
    var easy, rest := TakeEasy(patterns);
    var sixes, others := TakeSixes(rest, easy.one, easy.four);
    var topRight := pick(easy.eight - sixes.six);
    var bottomLeft := pick(easy.eight - sixes.nine);
    var fives := TakeFives(others, topRight, bottomLeft);
    assert Deduce(patterns, pick) == Some(Wiring(easy, sixes, fives));
    var digits := ReadDigits(Wiring(easy, sixes, fives), outputs);
    var value := Text.ParseInt(digits.value, 0, Text.U32_MAX);
    if value.None? {
      return Err;
    }
    return Ok(value.value);
  }

  /** `solve_part2`: the sum of the displays' values, or the error of the
      first line whose digits do not form a `u32`. */
  method SolvePart2(input: string, pick: set<char> -> char) returns (r: Result<int>)
    requires !LineValues(InputLines(input), pick).Panics?
    ensures r.Ok? <==> LineValues(InputLines(input), pick).Read?
    ensures r.Ok? ==> r.value == Sums.SeqSum(LineValues(InputLines(input), pick).value)
  {
    var lines := InputLines(input);
    ghost var rs := seq(|lines|, i requires 0 <= i < |lines| => LineValue(lines[i], pick));
    assert LineValues(lines, pick) == Collect(rs);
    var values: seq<int> := [];
    for i := 0 to |lines|
      invariant Collect(rs[..i]) == Read(values)
    {
      if !rs[i].Read? {
        CollectStops(rs, i);
      }
      var value := DecodeLine(lines[i], pick);
      if value.Err? {
        return Err;
      }
      CollectNext(rs, i);
      values := values + [value.value];
    }
    assert rs[..|lines|] == rs;
    return Ok(Sums.SeqSum(values));
  }

  // --- A correctly wired display -------------------------------------------------

  /** The segments each digit lights on a display wired as designed, named
      'a' (top), 'b' and 'c' (upper left and right), 'd' (middle), 'e' and
      'f' (lower left and right) and 'g' (bottom). */
  function Segments(d: nat): set<char>
    requires d < 10
  {
    if d == 0 then {'a', 'b', 'c', 'e', 'f', 'g'}
    else if d == 1 then {'c', 'f'}
    else if d == 2 then {'a', 'c', 'd', 'e', 'g'}
    else if d == 3 then {'a', 'c', 'd', 'f', 'g'}
    else if d == 4 then {'b', 'c', 'd', 'f'}
    else if d == 5 then {'a', 'b', 'd', 'f', 'g'}
    else if d == 6 then {'a', 'b', 'd', 'e', 'f', 'g'}
    else if d == 7 then {'a', 'c', 'f'}
    else if d == 8 then {'a', 'b', 'c', 'd', 'e', 'f', 'g'}
    else {'a', 'b', 'c', 'd', 'f', 'g'}
  }

  /** What the deduction relies on about each digit: its segment count,
      which of the segments 'c', 'd' and 'e' it lights, and how the source
      classifies it among the 6-segment and the 5-segment digits. */
  lemma SegmentsOf(e: nat)
    requires e < 10
    ensures Segments(e) <= Segments(8)
    ensures |Segments(e)| == 2 <==> e == 1
    ensures |Segments(e)| == 3 <==> e == 7
    ensures |Segments(e)| == 4 <==> e == 4
    ensures |Segments(e)| == 7 <==> e == 8
    ensures |Segments(e)| == 6 <==> e == 0 || e == 6 || e == 9
    ensures |Segments(e)| == 5 <==> e == 2 || e == 3 || e == 5
    ensures 'c' in Segments(e) <==> e != 5 && e != 6
    ensures 'd' in Segments(e) <==> e != 0 && e != 1 && e != 7
    ensures 'e' in Segments(e) <==> e == 0 || e == 2 || e == 6 || e == 8
    ensures |Segments(e)| == 6 ==>
              ClassifySix(Segments(e), Segments(1), Segments(4)) == if e == 9 then Nine else if e == 0 then Zero else Six
    ensures |Segments(e)| == 5 ==>
              ClassifyFive(Segments(e), 'c', 'e') == if e == 5 then Five else if e == 3 then Three else Two
  {
  }

  /** Different digits light different segments. */
  lemma SegmentsDistinct(d: nat, e: nat)
    requires d < 10 && e < 10 && Segments(d) == Segments(e)
    ensures d == e
  {
    SegmentsOf(d);
    SegmentsOf(e);
  }

  /** A display whose seven segment signals are connected, in some order,
      to seven distinct ASCII wires. */
  predicate IsWiring(wire: map<char, char>) {
    wire.Keys == Segments(8)
    && (forall x, y :: x in wire && y in wire && x != y ==> wire[x] != wire[y])
    && forall x :: x in wire ==> wire[x] as int < 0x80
  }

  /** The wires that carry the given segments. */
  function Lit(wire: map<char, char>, segments: set<char>): set<char> {
    set x | x in segments && x in wire :: wire[x]
  }

  lemma LitMember(wire: map<char, char>, a: set<char>, x: char)
    requires IsWiring(wire) && a <= wire.Keys && x in wire
    ensures wire[x] in Lit(wire, a) <==> x in a
  {
  }

  /** Distinct wires preserve inclusion between sets of segments. */
  lemma LitSubset(wire: map<char, char>, a: set<char>, b: set<char>)
    requires IsWiring(wire) && a <= wire.Keys && b <= wire.Keys
    ensures Lit(wire, a) <= Lit(wire, b) <==> a <= b
  {
    if Lit(wire, a) <= Lit(wire, b) {
      forall x | x in a ensures x in b {
        LitMember(wire, b, x);
      }
    }
  }

  lemma LitMinus(wire: map<char, char>, a: set<char>, b: set<char>)
    requires IsWiring(wire) && a <= wire.Keys && b <= wire.Keys
    ensures Lit(wire, a) - Lit(wire, b) == Lit(wire, a - b)
  {
    forall y | y in Lit(wire, a) - Lit(wire, b) ensures y in Lit(wire, a - b) {
      var x :| x in a && x in wire && wire[x] == y;
      LitMember(wire, b, x);
    }
  }

  /** Distinct wires: as many wires as segments. */
  lemma {:induction false} LitCard(wire: map<char, char>, a: set<char>)
    requires IsWiring(wire) && a <= wire.Keys
    ensures |Lit(wire, a)| == |a|
    decreases a
  {
    if a != {} {
      var x :| x in a;
      LitCard(wire, a - {x});
      assert Lit(wire, a) == Lit(wire, a - {x}) + {wire[x]};
      LitMember(wire, a - {x}, x);
    }
  }

  /** A pattern that lights digit `d` without repeating a wire has the
      digit's segment count as its byte length. */
  lemma PatternLength(wire: map<char, char>, p: string, d: nat)
    requires IsWiring(wire) && d < 10 && NoRepeats(p) && Chars(p) == Lit(wire, Segments(d))
    ensures Text.ByteLength(p) == |Segments(d)|
  {
    SegmentsOf(d);
    forall i | 0 <= i < |p| ensures p[i] as int < 0x80 {
      assert p[i] in Lit(wire, Segments(d));
    }
    Text.AsciiByteLength(p);
    NoRepeatsChars(p);
    LitCard(wire, Segments(d));
  }

  /** The signal patterns of a correctly wired display: each lights some
      digit `order[i]` without repeating a wire, and every digit is lit by
      some pattern. */
  ghost predicate ValidPatterns(wire: map<char, char>, patterns: seq<string>, order: seq<nat>) {
    |order| == |patterns|
    && (forall i :: 0 <= i < |patterns| ==>
          order[i] < 10 && NoRepeats(patterns[i]) && Chars(patterns[i]) == Lit(wire, Segments(order[i])))
    && forall d :: 0 <= d < 10 ==> d in order
  }

  /** The set the first `retain` fills from patterns of `n` bytes is the
      wires of the one digit with `n` segments. */
  lemma EasyDigit(wire: map<char, char>, patterns: seq<string>, order: seq<nat>, n: nat, d: nat)
    requires IsWiring(wire) && ValidPatterns(wire, patterns, order)
    requires Unique(n) && d < 10 && |Segments(d)| == n
    requires forall e :: 0 <= e < 10 && |Segments(e)| == n ==> e == d
    ensures EasySlot(EasySets(patterns), n) == Lit(wire, Segments(d))
  {
    forall p | p in patterns && Text.ByteLength(p) == n ensures Chars(p) == Lit(wire, Segments(d)) {
      var i :| 0 <= i < |patterns| && patterns[i] == p;
      PatternLength(wire, p, order[i]);
    }
    assert d in order;
    var i :| 0 <= i < |order| && order[i] == d;
    PatternLength(wire, patterns[i], d);
    assert patterns[i] in patterns;
    EasySlotIs(patterns, n, Lit(wire, Segments(d)));
  }

  /** The first `retain` keeps the patterns of the 5- and 6-segment digits. */
  lemma NotEasyDigits(wire: map<char, char>, patterns: seq<string>, order: seq<nat>, p: string)
    requires IsWiring(wire) && ValidPatterns(wire, patterns, order)
    ensures p in NotEasy(patterns) <==>
              exists i :: 0 <= i < |patterns| && patterns[i] == p && |Segments(order[i])| in {5, 6}
  {
    NotEasyMembers(patterns);
    if p in patterns {
      var i :| 0 <= i < |patterns| && patterns[i] == p;
      PatternLength(wire, p, order[i]);
      SegmentsOf(order[i]);
      forall j | 0 <= j < |patterns| && patterns[j] == p ensures |Segments(order[j])| == |Segments(order[i])| {
        PatternLength(wire, p, order[j]);
      }
    }
  }

  /** The wires of each digit of a correctly wired display, indexed by digit. */
  function Lits(wire: map<char, char>): (w: seq<set<char>>)
    ensures |w| == 10
  {
    seq(10, d requires 0 <= d < 10 => Lit(wire, Segments(d)))
  }

  lemma ClassifySixLit(wire: map<char, char>, e: nat)
    requires IsWiring(wire) && e < 10
    ensures ClassifySix(Lit(wire, Segments(e)), Lit(wire, Segments(1)), Lit(wire, Segments(4)))
            == ClassifySix(Segments(e), Segments(1), Segments(4))
  {
    SegmentsOf(e);
    SegmentsOf(1);
    SegmentsOf(4);
    LitSubset(wire, Segments(4), Segments(e));
    LitSubset(wire, Segments(1), Segments(e));
  }

  lemma ClassifyFiveLit(wire: map<char, char>, e: nat)
    requires IsWiring(wire) && e < 10
    ensures ClassifyFive(Lit(wire, Segments(e)), wire['c'], wire['e']) == ClassifyFive(Segments(e), 'c', 'e')
  {
    SegmentsOf(e);
    LitMember(wire, Segments(e), 'c');
    LitMember(wire, Segments(e), 'e');
  }

  /** The set the second `retain` assigns for class `c` is the wires of the
      one 6-segment digit of that class. */
  lemma SixDigit(wire: map<char, char>, patterns: seq<string>, order: seq<nat>, c: SixClass, d: nat)
    requires IsWiring(wire) && ValidPatterns(wire, patterns, order)
    requires d < 10 && |Segments(d)| == 6 && ClassifySix(Segments(d), Segments(1), Segments(4)) == c
    requires forall e :: 0 <= e < 10 && |Segments(e)| == 6 && ClassifySix(Segments(e), Segments(1), Segments(4)) == c ==> e == d
    ensures SixSlot(SixSets(NotEasy(patterns), Lit(wire, Segments(1)), Lit(wire, Segments(4))), c) == Lit(wire, Segments(d))
  {
    var one, four := Lit(wire, Segments(1)), Lit(wire, Segments(4));
    var rest := NotEasy(patterns);
    forall p | p in rest && Text.ByteLength(p) == 6 && ClassifySix(Chars(p), one, four) == c
      ensures Chars(p) == Lit(wire, Segments(d))
    {
      NotEasyDigits(wire, patterns, order, p);
      var i :| 0 <= i < |patterns| && patterns[i] == p && |Segments(order[i])| in {5, 6};
      PatternLength(wire, p, order[i]);
      ClassifySixLit(wire, order[i]);
    }
    assert d in order;
    var i :| 0 <= i < |order| && order[i] == d;
    var p := patterns[i];
    NotEasyDigits(wire, patterns, order, p);
    PatternLength(wire, p, d);
    ClassifySixLit(wire, d);
    SixSlotIs(rest, one, four, c, Lit(wire, Segments(d)));
  }

  /** A retained 5-segment pattern of class `c` shows the one digit `d` of
      that class. */
  lemma FiveMember(wire: map<char, char>, patterns: seq<string>, order: seq<nat>, c: FiveClass, d: nat, p: string)
    requires IsWiring(wire) && ValidPatterns(wire, patterns, order)
    requires d < 10 && |Segments(d)| == 5 && ClassifyFive(Segments(d), 'c', 'e') == c
    requires forall e :: 0 <= e < 10 && |Segments(e)| == 5 && ClassifyFive(Segments(e), 'c', 'e') == c ==> e == d
    requires p in NotSix(NotEasy(patterns)) && ClassifyFive(Chars(p), wire['c'], wire['e']) == c
    ensures Chars(p) == Lit(wire, Segments(d))
  {
    NotSixMembers(NotEasy(patterns));
    NotEasyDigits(wire, patterns, order, p);
    var i :| 0 <= i < |patterns| && patterns[i] == p && |Segments(order[i])| in {5, 6};
    PatternLength(wire, p, order[i]);
    ClassifyFiveLit(wire, order[i]);
  }

  /** The pattern of digit `d` is retained and of class `c`. */
  lemma FiveWitness(wire: map<char, char>, patterns: seq<string>, order: seq<nat>, c: FiveClass, d: nat)
    requires IsWiring(wire) && ValidPatterns(wire, patterns, order)
    requires d < 10 && |Segments(d)| == 5 && ClassifyFive(Segments(d), 'c', 'e') == c
    ensures exists p :: p in NotSix(NotEasy(patterns)) && ClassifyFive(Chars(p), wire['c'], wire['e']) == c
  {
    NotSixMembers(NotEasy(patterns));
    assert d in order;
    var i :| 0 <= i < |order| && order[i] == d;
    var p := patterns[i];
    NotEasyDigits(wire, patterns, order, p);
    PatternLength(wire, p, d);
    ClassifyFiveLit(wire, d);
    assert p in NotSix(NotEasy(patterns));
  }

  /** The set the last loop assigns for class `c` is the wires of the one
      5-segment digit of that class. */
  lemma FiveDigit(wire: map<char, char>, patterns: seq<string>, order: seq<nat>, c: FiveClass, d: nat)
    requires IsWiring(wire) && ValidPatterns(wire, patterns, order)
    requires d < 10 && |Segments(d)| == 5 && ClassifyFive(Segments(d), 'c', 'e') == c
    requires forall e :: 0 <= e < 10 && |Segments(e)| == 5 && ClassifyFive(Segments(e), 'c', 'e') == c ==> e == d
    ensures FiveSlot(FiveSets(NotSix(NotEasy(patterns)), wire['c'], wire['e']), c) == Lit(wire, Segments(d))
  {
    var rest := NotSix(NotEasy(patterns));
    forall p | p in rest && ClassifyFive(Chars(p), wire['c'], wire['e']) == c
      ensures Chars(p) == Lit(wire, Segments(d))
    {
      FiveMember(wire, patterns, order, c, d, p);
    }
    FiveWitness(wire, patterns, order, c, d);
    FiveSlotIs(rest, wire['c'], wire['e'], c, Lit(wire, Segments(d)));
  }

  /** The first `retain` fills each set with the wires of its digit. */
  lemma EasySetsOf(wire: map<char, char>, patterns: seq<string>, order: seq<nat>)
    requires IsWiring(wire) && ValidPatterns(wire, patterns, order)
    ensures EasySets(patterns) ==
              Easy(Lit(wire, Segments(1)), Lit(wire, Segments(7)), Lit(wire, Segments(4)), Lit(wire, Segments(8)))
  {
    forall e | 0 <= e < 10 {
      SegmentsOf(e);
    }
    EasyDigit(wire, patterns, order, 2, 1);
    EasyDigit(wire, patterns, order, 3, 7);
    EasyDigit(wire, patterns, order, 4, 4);
    EasyDigit(wire, patterns, order, 7, 8);
  }

  /** The second `retain` assigns each set the wires of its digit. */
  lemma SixSetsOf(wire: map<char, char>, patterns: seq<string>, order: seq<nat>)
    requires IsWiring(wire) && ValidPatterns(wire, patterns, order)
    ensures SixSets(NotEasy(patterns), Lit(wire, Segments(1)), Lit(wire, Segments(4))) ==
              Sixes(Lit(wire, Segments(0)), Lit(wire, Segments(6)), Lit(wire, Segments(9)))
  {
    forall e | 0 <= e < 10 {
      SegmentsOf(e);
    }
    SixDigit(wire, patterns, order, Nine, 9);
    SixDigit(wire, patterns, order, Zero, 0);
    SixDigit(wire, patterns, order, Six, 6);
  }

  /** The last loop assigns each set the wires of its digit. */
  lemma FiveSetsOf(wire: map<char, char>, patterns: seq<string>, order: seq<nat>)
    requires IsWiring(wire) && ValidPatterns(wire, patterns, order)
    ensures FiveSets(NotSix(NotEasy(patterns)), wire['c'], wire['e']) ==
              Fives(Lit(wire, Segments(2)), Lit(wire, Segments(3)), Lit(wire, Segments(5)))
  {
    forall e | 0 <= e < 10 {
      SegmentsOf(e);
    }
    FiveDigit(wire, patterns, order, Five, 5);
    FiveDigit(wire, patterns, order, Three, 3);
    FiveDigit(wire, patterns, order, Two, 2);
  }

  /** Eight lacks one segment of six (top right, 'c') and one of nine
      (bottom left, 'e'), so `pick` has only one choice each time. */
  lemma MissingSegments(wire: map<char, char>, pick: set<char> -> char)
    requires IsWiring(wire) && Picks(pick)
    ensures Lit(wire, Segments(8)) - Lit(wire, Segments(6)) == {wire['c']}
    ensures Lit(wire, Segments(8)) - Lit(wire, Segments(9)) == {wire['e']}
    ensures pick({wire['c']}) == wire['c'] && pick({wire['e']}) == wire['e']
  {
    SegmentsOf(6);
    SegmentsOf(9);
    LitMinus(wire, Segments(8), Segments(6));
    LitMinus(wire, Segments(8), Segments(9));
    SegmentDifferences();
  }

  lemma SegmentDifferences()
    ensures Segments(8) - Segments(6) == {'c'} && Segments(8) - Segments(9) == {'e'}
  {
  }

  /** The deduction is sound: on a correctly wired display it recovers the
      wires of every digit, whichever element `pick` takes. */
  lemma DeductionIsCorrect(wire: map<char, char>, patterns: seq<string>, order: seq<nat>, pick: set<char> -> char)
    requires IsWiring(wire) && ValidPatterns(wire, patterns, order) && Picks(pick)
    ensures Deduce(patterns, pick) == Some(Lits(wire))
  {
    assert 'c' in Segments(8) && 'e' in Segments(8);
    EasySetsOf(wire, patterns, order);
    SixSetsOf(wire, patterns, order);
    MissingSegments(wire, pick);
    FiveSetsOf(wire, patterns, order);
    var easy := EasySets(patterns);
    var sixes := SixSets(NotEasy(patterns), easy.one, easy.four);
    var fives := FiveSets(NotSix(NotEasy(patterns)), wire['c'], wire['e']);
    assert Wiring(easy, sixes, fives) == Lits(wire);
  }

  /** Every digit's wires are read back as that digit. */
  lemma ReadsDigit(wire: map<char, char>, d: nat)
    requires IsWiring(wire) && d < 10
    ensures DigitOf(Lits(wire), Lit(wire, Segments(d)), 0) == Some(d)
  {
    assert Lits(wire)[d] == Lit(wire, Segments(d));
    var r := DigitOf(Lits(wire), Lit(wire, Segments(d)), 0);
    SegmentsOf(d);
    SegmentsOf(r.value);
    LitSubset(wire, Segments(d), Segments(r.value));
    LitSubset(wire, Segments(r.value), Segments(d));
    SegmentsDistinct(d, r.value);
  }

  /** The characters of a sequence of digits. */
  function DigitString(digits: seq<nat>): (s: string)
    requires forall i :: 0 <= i < |digits| ==> digits[i] < 10
    ensures |s| == |digits|
  {
    seq(|digits|, i requires 0 <= i < |digits| => Text.DigitChar(digits[i]))
  }

  /** The number the digits spell, most significant first. */
  function Number(digits: seq<nat>): nat {
    if digits == [] then 0 else Number(digits[..|digits| - 1]) * 10 + digits[|digits| - 1]
  }

  /** The output patterns of a correctly wired display each light the digit
      at the same position of `digits`. */
  ghost predicate ShowsDigits(wire: map<char, char>, outputs: seq<string>, digits: seq<nat>) {
    |digits| == |outputs|
    && forall i :: 0 <= i < |outputs| ==> digits[i] < 10 && Chars(outputs[i]) == Lit(wire, Segments(digits[i]))
  }

  lemma {:induction false} ReadsDigits(wire: map<char, char>, outputs: seq<string>, digits: seq<nat>)
    requires IsWiring(wire) && ShowsDigits(wire, outputs, digits)
    ensures ReadDigits(Lits(wire), outputs) == Some(DigitString(digits))
  {
    if outputs != [] {
      var n := |outputs| - 1;
      var front := DigitString(digits[..n]);
      assert ReadDigits(Lits(wire), outputs[..n]) == Some(front) by {
        assert ShowsDigits(wire, outputs[..n], digits[..n]);
        ReadsDigits(wire, outputs[..n], digits[..n]);
      }
      assert DigitOf(Lits(wire), Chars(outputs[n]), 0) == Some(digits[n]) by {
        ReadsDigit(wire, digits[n]);
      }
      ReadDigitsSnoc(Lits(wire), outputs, front, digits[n]);
      DigitStringSnoc(digits);
    }
  }

  lemma ReadDigitsSnoc(wiring: seq<set<char>>, outputs: seq<string>, front: string, d: nat)
    requires |wiring| == 10 && outputs != [] && d < 10
    requires ReadDigits(wiring, outputs[..|outputs| - 1]) == Some(front)
    requires DigitOf(wiring, Chars(outputs[|outputs| - 1]), 0) == Some(d)
    ensures ReadDigits(wiring, outputs) == Some(front + [Text.DigitChar(d)])
  {
  }

  lemma DigitStringSnoc(digits: seq<nat>)
    requires digits != [] && forall i :: 0 <= i < |digits| ==> digits[i] < 10
    ensures DigitString(digits) == DigitString(digits[..|digits| - 1]) + [Text.DigitChar(digits[|digits| - 1])]
  {
    assert DigitString(digits) == DigitString(digits[..|digits| - 1]) + [Text.DigitChar(digits[|digits| - 1])];
  }

  lemma {:induction false} DigitStringValue(digits: seq<nat>)
    requires digits != [] && forall i :: 0 <= i < |digits| ==> digits[i] < 10
    ensures Text.DigitsValue(DigitString(digits), 10) == Some(Number(digits))
  {
    var n := |digits| - 1;
    if n > 0 {
      DigitStringValue(digits[..n]);
      assert DigitString(digits)[..n] == DigitString(digits[..n]);
    }
  }

  /** The value of a correctly wired display: the number its output digits
      spell, or an error when that number does not fit a `u32` or there are
      no output digits, whichever element `pick` takes. */
  lemma DisplayReadsDigits(wire: map<char, char>, patterns: seq<string>, order: seq<nat>,
                           outputs: seq<string>, digits: seq<nat>, pick: set<char> -> char)
    requires IsWiring(wire) && ValidPatterns(wire, patterns, order) && Picks(pick)
    requires ShowsDigits(wire, outputs, digits)
    ensures DisplayValue(patterns, outputs, pick) ==
              if digits != [] && Number(digits) <= Text.U32_MAX then Read(Number(digits)) else Invalid
  {
    DeductionIsCorrect(wire, patterns, order, pick);
    ReadsDigits(wire, outputs, digits);
    if digits != [] {
      DigitStringValue(digits);
      if Number(digits) <= Text.U32_MAX {
        Text.ParseDigits(DigitString(digits), Number(digits), 0, Text.U32_MAX);
      }
    }
  }

  // --- Part 1 on a correctly wired display ----------------------------------------

  /** An output pattern has a unique segment count exactly when it lights
      one, four, seven or eight. */
  lemma UniqueMeansEasyDigit(wire: map<char, char>, p: string, d: nat)
    requires IsWiring(wire) && d < 10 && Chars(p) == Lit(wire, Segments(d))
    ensures Unique(|Chars(p)|) <==> d in {1, 4, 7, 8}
  {
    SegmentsOf(d);
    LitCard(wire, Segments(d));
  }

  /** How many of the digits are one, four, seven or eight. */
  function EasyDigits(digits: seq<nat>): (n: nat)
    ensures n <= |digits|
  {
    if digits == [] then 0
    else EasyDigits(digits[..|digits| - 1]) + (if digits[|digits| - 1] in {1, 4, 7, 8} then 1 else 0)
  }

  /** Part 1 counts the ones, fours, sevens and eights among the outputs. */
  lemma {:induction false} CountUniqueIsEasyDigits(wire: map<char, char>, outputs: seq<string>, digits: seq<nat>)
    requires IsWiring(wire) && ShowsDigits(wire, outputs, digits)
    ensures CountUnique(outputs) == EasyDigits(digits)
  {
    if outputs != [] {
      var n := |outputs| - 1;
      assert ShowsDigits(wire, outputs[..n], digits[..n]);
      CountUniqueIsEasyDigits(wire, outputs[..n], digits[..n]);
      UniqueMeansEasyDigit(wire, outputs[n], digits[n]);
    }
  }
}
