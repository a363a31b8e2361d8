/** Day 14 (crates/day14/src/main.rs): polymer growth by pair insertion.
    A rule `AB -> C` inserts `C` between every adjacent `A`, `B` of the
    polymer, all rules applying at once to the polymer as it stood before
    the step.

    Part 1 grows the polymer itself: it collects the insertions of a step
    and then inserts them into the vector one by one, keeping a histogram
    of its characters. Part 2 never builds the polymer and keeps only the
    number of times each adjacent pair occurs. The source's counting hash
    maps are multisets here: a character or pair with count `n` occurs `n`
    times in the multiset.

    The value layer defines one step as `Step` and the pair multiset as
    `PairBag`; the methods are proved to compute them, and the lemmas show
    that part 2's pair counts follow the polymer of part 1 whenever the
    rules cover every pair that can arise. */
module Day14 {
  import opened Wrappers
  import Text

  type Pair = (char, char)

  /** The insertion rules, the later of two rules for one pair winning. */
  type Rules = map<Pair, char>

  const PART1_STEPS := 10
  const PART2_STEPS := 40

  // --- Reading the manual -------------------------------------------------------------------

  /** One line `AB -> C`: the pair is the first two characters left of the
      arrow, the insertion the first character right of it. A line without
      an arrow or with nothing right of it is an error; a left side shorter
      than two characters makes `pair[1]` panic. */
  function ReadRule(line: string): (r: Reading<(Pair, char)>)
    ensures r.Read? ==> Text.IndexOf(line, " -> ").Some?
  {
    var parts := Text.Split(line, " -> ");
    if |parts| < 2 || parts[1] == [] then Invalid
    else if |parts[0]| < 2 then Panics
    else Read(((parts[0][0], parts[0][1]), parts[1][0]))
  }

  function RuleText(p: Pair, c: char): string {
    [p.0, p.1] + " -> " + [c]
  }

  /** Every rule written out reads back, whatever its characters. */
  lemma ReadRuleText(p: Pair, c: char)
    ensures ReadRule(RuleText(p, c)) == Read((p, c))
  {
    var s := RuleText(p, c);
    var sep := " -> ";
    assert s[0..4][2] != sep[2];
    assert s[1..5][1] != sep[1];
    assert s[2..6] == sep;
    assert Text.IndexFrom(s, sep, 2) == Some(2);
    assert Text.IndexFrom(s, sep, 1) == Some(2);
    assert Text.IndexOf(s, sep) == Some(2);
    assert s[6..] == [c];
    assert Text.Split(s, sep) == [s[..2]] + Text.Split(s[6..], sep);
  }

  function RuleReadings(lines: seq<string>): (rs: seq<Reading<(Pair, char)>>)
    ensures |rs| == |lines| && forall i :: 0 <= i < |lines| ==> rs[i] == ReadRule(lines[i])
  {
    seq(|lines|, i requires 0 <= i < |lines| => ReadRule(lines[i]))
  }

  /** The map the rules build up when inserted in order. */
  function RuleMap(rs: seq<(Pair, char)>): (m: Rules)
    ensures m.Keys == set i | 0 <= i < |rs| :: rs[i].0
  {
    if rs == [] then map[]
    else
      var front := rs[..|rs| - 1];
      assert forall i :: 0 <= i < |front| ==> front[i] == rs[i];
      RuleMap(front)[rs[|rs| - 1].0 := rs[|rs| - 1].1]
  }

  /** A pair maps to the insertion of its last rule. */
  lemma {:induction false} RuleMapLast(rs: seq<(Pair, char)>, i: nat)
    requires i < |rs| && forall j :: i < j < |rs| ==> rs[j].0 != rs[i].0
    ensures RuleMap(rs)[rs[i].0] == rs[i].1
  {
    if i < |rs| - 1 {
      RuleMapLast(rs[..|rs| - 1], i);
    }
  }

  datatype Manual = Manual(template: string, rules: Rules)

  /** The template is everything before the first blank line, the rules
      the lines after it; a missing rules section is an error. */
  function ReadManual(input: string): (r: Reading<Manual>)
    ensures r.Read? ==> |Text.Split(input, "\n\n")| >= 2 && r.value.template == Text.Split(input, "\n\n")[0]
  {
    var parts := Text.Split(input, "\n\n");
    if |parts| < 2 then Invalid
    else
      match Collect(RuleReadings(Text.Lines(parts[1])))
      case Invalid => Invalid
      case Panics => Panics
      case Read(rs) => Read(Manual(parts[0], RuleMap(rs)))
  }

  /** The rules are read exactly when every rule line reads. */
  lemma ReadManualRules(input: string)
    requires |Text.Split(input, "\n\n")| >= 2
    ensures var lines := Text.Lines(Text.Split(input, "\n\n")[1]);
      ReadManual(input).Read? <==> forall i :: 0 <= i < |lines| ==> ReadRule(lines[i]).Read?
  {
    CollectReadsEach(RuleReadings(Text.Lines(Text.Split(input, "\n\n")[1])));
  }

  /** The loop over the rule lines, inserting each rule as it is read. */
  method ParseManual(input: string) returns (r: Result<Manual>)
    requires !ReadManual(input).Panics?
    ensures r.Ok? <==> ReadManual(input).Read?
    ensures r.Ok? ==> r.value == ReadManual(input).value
  {
    var parts := Text.Split(input, "\n\n");
    var template := parts[0];
    if |parts| < 2 {
      return Err;
    }
    var lines := Text.Lines(parts[1]);
    ghost var readings := RuleReadings(lines);
    ghost var rs: seq<(Pair, char)> := [];
    var rules: Rules := map[];
    for i := 0 to |lines|
      invariant Collect(readings[..i]) == Read(rs)
      invariant rules == RuleMap(rs)
    {
      var rule := lines[i];
      var ruleParts := Text.Split(rule, " -> ");
      if |ruleParts| < 2 || ruleParts[1] == [] {
        CollectStops(readings, i);
        return Err;
      }
      if |ruleParts[0]| < 2 {
        CollectStops(readings, i);
        assert false;
      }
      var pair := (ruleParts[0][0], ruleParts[0][1]);
      var insertion := ruleParts[1][0];
      CollectNext(readings, i);
      rules := rules[pair := insertion];
      assert (rs + [(pair, insertion)])[..|rs|] == rs;
      rs := rs + [(pair, insertion)];
    }
    assert readings[..|lines|] == readings;
    return Ok(Manual(template, rules));
  }

  // --- One step of growth -------------------------------------------------------------------

  /** Whether the pair ending at position `w` of the polymer has a rule. */
  predicate Matched(rules: Rules, q: seq<char>, w: int) {
    1 <= w < |q| && (q[w - 1], q[w]) in rules
  }

  /** The character a matched pair gets between its two characters. */
  function Insert(rules: Rules, q: seq<char>, w: int): char
    requires Matched(rules, q, w)
  {
    rules[(q[w - 1], q[w])]
  }

  /** The first `k` characters of the polymer after one step: each with
      the insertion of the pair it ends, if that pair has a rule. */
  function Grown(rules: Rules, q: seq<char>, k: nat): seq<char>
    requires k <= |q|
  {
    if k == 0 then []
    else Grown(rules, q, k - 1) + (if Matched(rules, q, k - 1) then [Insert(rules, q, k - 1)] else []) + [q[k - 1]]
  }

  /** The polymer after one step. */
  function Step(rules: Rules, q: seq<char>): seq<char> {
    Grown(rules, q, |q|)
  }

  /** The insertions the source collects among the first `k` characters,
      in order: the index of the right character of each matched pair and
      the character to insert. */
  function InsertionsTo(rules: Rules, q: seq<char>, k: nat): seq<(nat, char)>
    requires k <= |q|
  {
    if k == 0 then []
    else InsertionsTo(rules, q, k - 1) + (if Matched(rules, q, k - 1) then [(k - 1, Insert(rules, q, k - 1))] else [])
  }

  function Insertions(rules: Rules, q: seq<char>): seq<(nat, char)> {
    InsertionsTo(rules, q, |q|)
  }

  /** The characters of a list of insertions. */
  function Chars(ins: seq<(nat, char)>): (cs: seq<char>)
    ensures |cs| == |ins|
  {
    if ins == [] then [] else Chars(ins[..|ins| - 1]) + [ins[|ins| - 1].1]
  }

  lemma CharsNext(ins: seq<(nat, char)>, x: (nat, char))
    ensures Chars(ins + [x]) == Chars(ins) + [x.1]
  {
    assert (ins + [x])[..|ins|] == ins;
  }

  /** An insertion of a matched pair before `k`, with the rule's character. */
  predicate Entry(rules: Rules, q: seq<char>, k: nat, e: (nat, char)) {
    e.0 < k && Matched(rules, q, e.0) && e.1 == Insert(rules, q, e.0)
  }

  /** Each insertion is that of a matched pair, with its rule's character,
      and they come in the order of the pairs. */
  lemma {:induction false} InsertionsMatched(rules: Rules, q: seq<char>, k: nat)
    requires k <= |q|
    ensures forall n :: 0 <= n < |InsertionsTo(rules, q, k)| ==> Entry(rules, q, k, InsertionsTo(rules, q, k)[n])
    ensures forall n, l :: 0 <= n < l < |InsertionsTo(rules, q, k)| ==>
      InsertionsTo(rules, q, k)[n].0 < InsertionsTo(rules, q, k)[l].0
  {
    if k > 0 {
      InsertionsMatched(rules, q, k - 1);
      var ins := InsertionsTo(rules, q, k);
      var front := InsertionsTo(rules, q, k - 1);
      if Matched(rules, q, k - 1) {
        assert ins == front + [(k - 1, Insert(rules, q, k - 1))];
        forall n | 0 <= n < |front|
          ensures ins[n] == front[n] && Entry(rules, q, k - 1, front[n])
        {
        }
      } else {
        assert ins == front;
      }
    }
  }

  /** Every matched pair has its insertion. */
  lemma {:induction false} InsertionsComplete(rules: Rules, q: seq<char>, k: nat, w: nat)
    requires w < k <= |q| && Matched(rules, q, w)
    ensures exists n :: 0 <= n < |InsertionsTo(rules, q, k)| && InsertionsTo(rules, q, k)[n].0 == w
  {
    var ins := InsertionsTo(rules, q, k);
    var front := InsertionsTo(rules, q, k - 1);
    assert ins[..|front|] == front;
    if w < k - 1 {
      InsertionsComplete(rules, q, k - 1, w);
      var n :| 0 <= n < |front| && front[n].0 == w;
      assert ins[n].0 == w;
    } else {
      assert ins[|front|].0 == w;
    }
  }

  /** Growing `k` characters adds one per matched pair, and ends with the
      last of them. */
  lemma {:induction false} GrownLength(rules: Rules, q: seq<char>, k: nat)
    requires k <= |q|
    ensures |Grown(rules, q, k)| == k + |InsertionsTo(rules, q, k)|
    ensures k > 0 ==> Grown(rules, q, k)[|Grown(rules, q, k)| - 1] == q[k - 1]
  {
    if k > 0 {
      GrownLength(rules, q, k - 1);
    }
  }

  /** Growing fewer characters gives a prefix. */
  lemma {:induction false} GrownPrefix(rules: Rules, q: seq<char>, m: nat, k: nat)
    requires m <= k <= |q|
    ensures Grown(rules, q, m) <= Grown(rules, q, k)
    ensures InsertionsTo(rules, q, m) <= InsertionsTo(rules, q, k)
  {
    if m < k {
      GrownPrefix(rules, q, m, k - 1);
    }
  }

  /** Where the polymer's character `i` lands once grown. */
  function Position(rules: Rules, q: seq<char>, i: nat): nat
    requires i < |q|
  {
    i + |InsertionsTo(rules, q, i + 1)|
  }

  /** In one step every character of the polymer stays, in order: the
      first stays first and the last stays last. */
  lemma StepKeeps(rules: Rules, q: seq<char>, i: nat)
    requires i < |q|
    ensures Position(rules, q, i) < |Step(rules, q)| && Step(rules, q)[Position(rules, q, i)] == q[i]
    ensures i == 0 ==> Position(rules, q, i) == 0
    ensures i == |q| - 1 ==> Position(rules, q, i) == |Step(rules, q)| - 1
  {
    GrownPrefix(rules, q, i + 1, |q|);
    GrownLength(rules, q, i + 1);
    GrownLength(rules, q, |q|);
  }

  /** Exactly the rule's character, or nothing, comes between two
      neighbours of the polymer once grown. */
  lemma StepBetween(rules: Rules, q: seq<char>, i: nat)
    requires i + 1 < |q|
    ensures var p := Position(rules, q, i);
      Position(rules, q, i + 1) < |Step(rules, q)| &&
      (Matched(rules, q, i + 1) ==> Position(rules, q, i + 1) == p + 2 && Step(rules, q)[p + 1] == Insert(rules, q, i + 1)) &&
      (!Matched(rules, q, i + 1) ==> Position(rules, q, i + 1) == p + 1)
  {
    GrownPrefix(rules, q, i + 2, |q|);
    GrownLength(rules, q, i + 1);
    StepKeeps(rules, q, i + 1);
  }

  /** One step adds one character for each matched pair. */
  lemma StepLength(rules: Rules, q: seq<char>)
    ensures |Step(rules, q)| == |q| + |Insertions(rules, q)|
  {
    GrownLength(rules, q, |q|);
  }

  /** The characters inserted among the first `k`, in order. */
  function Added(rules: Rules, q: seq<char>, k: nat): seq<char>
    requires k <= |q|
  {
    if k == 0 then []
    else Added(rules, q, k - 1) + (if Matched(rules, q, k - 1) then [Insert(rules, q, k - 1)] else [])
  }

  lemma {:induction false} GrownCounts(rules: Rules, q: seq<char>, k: nat)
    requires k <= |q|
    ensures multiset(Grown(rules, q, k)) == multiset(q[..k]) + multiset(Added(rules, q, k))
  {
    if k > 0 {
      assert q[..k] == q[..k - 1] + [q[k - 1]];
      GrownCounts(rules, q, k - 1);
    }
  }

  lemma {:induction false} CharsAdded(rules: Rules, q: seq<char>, k: nat)
    requires k <= |q|
    ensures Chars(InsertionsTo(rules, q, k)) == Added(rules, q, k)
  {
    if k > 0 {
      CharsAdded(rules, q, k - 1);
      if Matched(rules, q, k - 1) {
        CharsNext(InsertionsTo(rules, q, k - 1), (k - 1, Insert(rules, q, k - 1)));
      } else {
        assert InsertionsTo(rules, q, k) == InsertionsTo(rules, q, k - 1);
      }
    }
  }

  /** The characters of the grown polymer are those of the polymer and
      those inserted. */
  lemma StepCounts(rules: Rules, q: seq<char>)
    ensures multiset(Step(rules, q)) == multiset(q) + multiset(Chars(Insertions(rules, q)))
  {
    GrownCounts(rules, q, |q|);
    CharsAdded(rules, q, |q|);
    assert q[..|q|] == q;
  }

  /** From character `k` of the polymer, past the pairs without a rule: to
      the next matched pair when insertions remain, to the end otherwise. */
  lemma {:induction false} SkipUnmatched(rules: Rules, p: seq<char>, k: nat, j: nat) returns (m: nat)
    requires k <= |p| && j <= |Insertions(rules, p)| && Insertions(rules, p)[..j] == InsertionsTo(rules, p, k)
    ensures k <= m <= |p| && InsertionsTo(rules, p, m) == InsertionsTo(rules, p, k)
    ensures Grown(rules, p, m) + p[m..] == Grown(rules, p, k) + p[k..]
    ensures j < |Insertions(rules, p)| ==>
      m < |p| && Matched(rules, p, m) && Insertions(rules, p)[j] == (m, Insert(rules, p, m))
    ensures j == |Insertions(rules, p)| ==> m == |p|
    decreases |p| - k
  {
    var ins := Insertions(rules, p);
    if k == |p| {
      assert |ins[..j]| == |ins|;
      return k;
    }
    if Matched(rules, p, k) {
      GrownPrefix(rules, p, k + 1, |p|);
      var grown := InsertionsTo(rules, p, k + 1);
      assert grown == InsertionsTo(rules, p, k) + [(k, Insert(rules, p, k))];
      assert |grown| == j + 1 && grown <= ins;
      assert ins[j] == grown[j];
      return k;
    }
    SkipOne(rules, p, k);
    m := SkipUnmatched(rules, p, k + 1, j);
  }

  /** A pair without a rule adds no insertion and only its own character. */
  lemma SkipOne(rules: Rules, p: seq<char>, k: nat)
    requires k < |p| && !Matched(rules, p, k)
    ensures InsertionsTo(rules, p, k + 1) == InsertionsTo(rules, p, k)
    ensures Grown(rules, p, k + 1) + p[k + 1..] == Grown(rules, p, k) + p[k..]
  {
    assert p[k..] == [p[k]] + p[k + 1..];
  }

  /** The first loop of a step: the insertions of the matched pairs, in
      order, each counted into the histogram as it is found. */
  method CollectInsertions(rules: Rules, polymer: seq<char>, counts: multiset<char>)
      returns (insertions: seq<(nat, char)>, after: multiset<char>)
    ensures insertions == Insertions(rules, polymer)
    ensures after == counts + multiset(Chars(insertions))
  {
    insertions := [];
    after := counts;
    if polymer == [] {
      return;
    }
    FirstCharAddsNothing(rules, polymer);
    var k := 1;
    while k < |polymer|
      invariant 1 <= k <= |polymer|
      invariant insertions == InsertionsTo(rules, polymer, k)
      invariant after == counts + multiset(Added(rules, polymer, k))
    {
      insertions, after := CollectPair(rules, polymer, counts, k - 1, insertions, after);
      k := k + 1;
    }
    CollectDone(rules, polymer, counts, insertions, after);
  }

  /** Once every pair is looked at, the insertions are those of the step
      and the histogram has gained their characters. */
  lemma CollectDone(rules: Rules, q: seq<char>, counts: multiset<char>, insertions: seq<(nat, char)>, after: multiset<char>)
    requires insertions == InsertionsTo(rules, q, |q|)
    requires after == counts + multiset(Added(rules, q, |q|))
    ensures insertions == Insertions(rules, q)
    ensures after == counts + multiset(Chars(insertions))
  {
    CharsAdded(rules, q, |q|);
  }

  /** The first character ends no pair, so it adds nothing. */
  lemma FirstCharAddsNothing(rules: Rules, q: seq<char>)
    requires q != []
    ensures InsertionsTo(rules, q, 1) == [] && Added(rules, q, 1) == []
  {
  }

  /** The body of the first loop: the pair starting at `i`, if it has a
      rule, records its insertion and counts its character. */
  method CollectPair(rules: Rules, polymer: seq<char>, counts: multiset<char>, i: nat,
                     insertions: seq<(nat, char)>, after: multiset<char>)
      returns (insertions': seq<(nat, char)>, after': multiset<char>)
    requires i + 1 < |polymer|
    requires insertions == InsertionsTo(rules, polymer, i + 1)
    requires after == counts + multiset(Added(rules, polymer, i + 1))
    ensures insertions' == InsertionsTo(rules, polymer, i + 1 + 1)
    ensures after' == counts + multiset(Added(rules, polymer, i + 1 + 1))
  {
    PairNext(rules, polymer, i + 1);
    insertions', after' := insertions, after;
    var pair := (polymer[i], polymer[i + 1]);
    if pair in rules {
      var insertion := rules[pair];
      insertions' := insertions' + [(i + 1, insertion)];
      after' := after' + multiset{insertion};
    }
  }

  /** What the pair ending at `w` adds to the insertions and to the
      inserted characters. */
  lemma PairNext(rules: Rules, q: seq<char>, w: nat)
    requires 1 <= w < |q|
    ensures var pair := (q[w - 1], q[w]);
      && InsertionsTo(rules, q, w + 1) == InsertionsTo(rules, q, w) + (if pair in rules then [(w, rules[pair])] else [])
      && multiset(Added(rules, q, w + 1)) == multiset(Added(rules, q, w)) + (if pair in rules then multiset{rules[pair]} else multiset{})
  {
  }


  /** One turn of the second loop: the next insertion is that of the next
      matched pair, and its shifted index is where that pair's character
      goes in the polymer grown so far. */
  lemma {:induction false} InsertNext(rules: Rules, p: seq<char>, ins: seq<(nat, char)>, j: nat, k: nat, next: seq<char>)
      returns (m: nat)
    requires ins == Insertions(rules, p) && j < |ins| && k <= |p|
    requires ins[..j] == InsertionsTo(rules, p, k) && next == Grown(rules, p, k) + p[k..]
    ensures m <= |p| && ins[..j + 1] == InsertionsTo(rules, p, m)
    ensures ins[j].0 + j <= |next| && next[..ins[j].0 + j] + [ins[j].1] + next[ins[j].0 + j..] == Grown(rules, p, m) + p[m..]
  {
    var at := SkipUnmatched(rules, p, k, j);
    var g, c := Grown(rules, p, at), Insert(rules, p, at);
    assert ins[j] == (at, c);
    assert |g| == at + j by {
      GrownLength(rules, p, at);
      assert |InsertionsTo(rules, p, at)| == |ins[..j]| == j;
    }
    assert next[..at + j] == g && next[at + j..] == [p[at]] + p[at + 1..] by {
      assert next == g + p[at..];
      assert p[at..] == [p[at]] + p[at + 1..];
    }
    assert Grown(rules, p, at + 1) == g + [c] + [p[at]];
    assert ins[..j + 1] == InsertionsTo(rules, p, at + 1) by {
      assert ins[..j + 1] == ins[..j] + [ins[j]];
    }
    m := at + 1;
  }

  /** The second loop of a step: each insertion goes in at its index
      shifted by the number inserted before it. */
  method ApplyInsertions(rules: Rules, polymer: seq<char>, insertions: seq<(nat, char)>) returns (next: seq<char>)
    requires insertions == Insertions(rules, polymer)
    ensures next == Step(rules, polymer)
  {
    next := polymer;
    ghost var k: nat := 0;
    for j := 0 to |insertions|
      invariant k <= |polymer|
      invariant insertions[..j] == InsertionsTo(rules, polymer, k)
      invariant next == Grown(rules, polymer, k) + polymer[k..]
    {
      k := InsertNext(rules, polymer, insertions, j, k, next);
      var (index, insertion) := insertions[j];
      next := next[..index + j] + [insertion] + next[index + j..];
    }
    k := SkipUnmatched(rules, polymer, k, |insertions|);
  }

  /** One step of part 1 on the vector and the histogram. */
  method InsertStep(rules: Rules, polymer: seq<char>, counts: multiset<char>) returns (next: seq<char>, after: multiset<char>)
    ensures next == Step(rules, polymer)
    ensures after == counts + multiset(Chars(Insertions(rules, polymer)))
  {
    var insertions;
    insertions, after := CollectInsertions(rules, polymer, counts);
    next := ApplyInsertions(rules, polymer, insertions);
  }

  // --- Part 1 -------------------------------------------------------------------------------

  /** The polymer after `n` steps. */
  function Grow(rules: Rules, template: seq<char>, n: nat): seq<char> {
    if n == 0 then template else Step(rules, Grow(rules, template, n - 1))
  }

  /** Growth never empties a polymer nor fills an empty one. */
  lemma {:induction false} GrowEmpty(rules: Rules, template: seq<char>, n: nat)
    ensures Grow(rules, template, n) == [] <==> template == []
  {
    if n > 0 {
      GrowEmpty(rules, template, n - 1);
      StepLength(rules, Grow(rules, template, n - 1));
    }
  }

  /** The histogram of the template, one character at a time. */
  method Tally(template: seq<char>) returns (counts: multiset<char>)
    ensures counts == multiset(template)
  {
    counts := multiset{};
    for i := 0 to |template|
      invariant counts == multiset(template[..i])
    {
      assert template[..i + 1] == template[..i] + [template[i]];
      counts := counts + multiset{template[i]};
    }
    assert template[..|template|] == template;
  }

  /** `v` is the count of a most common character less that of a least
      common one. */
  predicate IsSpread(counts: multiset<char>, v: int) {
    exists most, least :: most in counts && least in counts && v + counts[least] == counts[most] &&
      forall c :: c in counts ==> counts[least] <= counts[c] <= counts[most]
  }

  /** The spread does not depend on which most or least common character
      is picked. */
  lemma SpreadUnique(counts: multiset<char>, v: int, w: int)
    requires IsSpread(counts, v) && IsSpread(counts, w)
    ensures v == w
  {
    var most, least :| most in counts && least in counts && v + counts[least] == counts[most] &&
      forall c :: c in counts ==> counts[least] <= counts[c] <= counts[most];
    var most', least' :| most' in counts && least' in counts && w + counts[least'] == counts[most'] &&
      forall c :: c in counts ==> counts[least'] <= counts[c] <= counts[most'];
    assert counts[most] == counts[most'] && counts[least] == counts[least'];
  }

  /** `max_by_key` over the counts: a most common character, `None` when
      there are no counts. */
  method MostCommon(counts: multiset<char>) returns (r: Option<char>)
    ensures r.None? <==> counts == multiset{}
    ensures r.Some? ==> r.value in counts && forall c :: c in counts ==> counts[c] <= counts[r.value]
  {
    var left := set c | c in counts;
    r := None;
    while left != {}
      invariant forall c :: c in left ==> c in counts
      invariant r.None? ==> forall c :: c in counts ==> c in left
      invariant r.Some? ==> r.value in counts && forall c :: c in counts && c !in left ==> counts[c] <= counts[r.value]
      decreases left
    {
      var c :| c in left;
      if r.None? || counts[c] >= counts[r.value] {
        r := Some(c);
      }
      left := left - {c};
    }
  }

  /** `min_by_key` over the counts: a least common character, `None` when
      there are no counts. */
  method LeastCommon(counts: multiset<char>) returns (r: Option<char>)
    ensures r.None? <==> counts == multiset{}
    ensures r.Some? ==> r.value in counts && forall c :: c in counts ==> counts[r.value] <= counts[c]
  {
    var left := set c | c in counts;
    r := None;
    while left != {}
      invariant forall c :: c in left ==> c in counts
      invariant r.None? ==> forall c :: c in counts ==> c in left
      invariant r.Some? ==> r.value in counts && forall c :: c in counts && c !in left ==> counts[r.value] <= counts[c]
      decreases left
    {
      var c :| c in left;
      if r.None? || counts[c] < counts[r.value] {
        r := Some(c);
      }
      left := left - {c};
    }
  }

  /** The answer of both parts: most common less least common count, an
      error when there are no counts. */
  method Spread(counts: multiset<char>) returns (r: Result<nat>)
    ensures r.Ok? <==> counts != multiset{}
    ensures r.Ok? ==> IsSpread(counts, r.value)
  {
    var most := MostCommon(counts);
    if most.None? {
      return Err;
    }
    var least := LeastCommon(counts);
    if least.None? {
      assert false;
    }
    return Ok(counts[most.value] - counts[least.value]);
  }

  /** Part 1: ten steps on the polymer itself, the histogram kept along. */
  method SolvePart1(input: string) returns (r: Result<nat>)
    requires !ReadManual(input).Panics?
    ensures r.Ok? <==> ReadManual(input).Read? && ReadManual(input).value.template != []
    ensures r.Ok? ==>
      var manual := ReadManual(input).value;
      IsSpread(multiset(Grow(manual.rules, manual.template, PART1_STEPS)), r.value)
  {
    var manual :- ParseManual(input);
    var rules := manual.rules;
    var counts := Tally(manual.template);
    var polymer := manual.template;
    for step := 0 to PART1_STEPS
      invariant polymer == Grow(rules, manual.template, step)
      invariant counts == multiset(polymer)
    {
      StepCounts(rules, polymer);
      polymer, counts := InsertStep(rules, polymer, counts);
    }
    GrowEmpty(rules, manual.template, PART1_STEPS);
    r := Spread(counts);
  }

  // --- Part 2 -------------------------------------------------------------------------------

  /** The adjacent pairs among the first `k` characters, counted. */
  function PairsTo(s: seq<char>, k: nat): multiset<Pair>
    requires k <= |s|
  {
    if k <= 1 then multiset{} else PairsTo(s, k - 1) + multiset{(s[k - 2], s[k - 1])}
  }

  /** The adjacent pairs of a polymer, counted: `windows(2)` collected into
      a counting map. */
  function PairBag(s: seq<char>): multiset<Pair> {
    PairsTo(s, |s|)
  }

  lemma {:induction false} PairsToSame(s: seq<char>, t: seq<char>, k: nat)
    requires k <= |s| && k <= |t| && s[..k] == t[..k]
    ensures PairsTo(s, k) == PairsTo(t, k)
  {
    if k > 1 {
      assert s[k - 2] == s[..k][k - 2] && s[k - 1] == s[..k][k - 1];
      assert t[k - 2] == t[..k][k - 2] && t[k - 1] == t[..k][k - 1];
      assert s[..k - 1] == s[..k][..k - 1] && t[..k - 1] == t[..k][..k - 1];
      PairsToSame(s, t, k - 1);
    }
  }

  /** One more character adds the pair it closes. */
  lemma PairBagSnoc(s: seq<char>, x: char)
    requires s != []
    ensures PairBag(s + [x]) == PairBag(s) + multiset{(s[|s| - 1], x)}
  {
    PairsToSame(s + [x], s, |s|);
  }

  /** The pair counting loop over the windows of the template. */
  method CountPairs(polymer: seq<char>) returns (pairs: multiset<Pair>)
    ensures pairs == PairBag(polymer)
  {
    pairs := multiset{};
    var windows := if |polymer| < 2 then 0 else |polymer| - 1;
    for i := 0 to windows
      invariant pairs == PairsTo(polymer, if polymer == [] then 0 else i + 1)
    {
      pairs := pairs + multiset{(polymer[i], polymer[i + 1])};
    }
  }

  /** Every element of a multiset mapped to a multiset, all added up. */
  ghost function Sum<T, U>(b: multiset<T>, f: T -> multiset<U>): multiset<U>
    decreases |b|
  {
    if b == multiset{} then multiset{}
    else
      var x :| x in b;
      f(x) + Sum(b - multiset{x}, f)
  }

  lemma SumEmpty<T, U>(b: multiset<T>, f: T -> multiset<U>)
    requires b == multiset{}
    ensures Sum(b, f) == multiset{}
  {
  }

  /** The sum does not depend on which element is taken first. */
  lemma {:induction false} SumPick<T, U>(b: multiset<T>, f: T -> multiset<U>, x: T)
    requires x in b
    ensures Sum(b, f) == f(x) + Sum(b - multiset{x}, f)
    decreases |b|
  {
    var y :| y in b && Sum(b, f) == f(y) + Sum(b - multiset{y}, f);
    if y != x {
      SumPick(b - multiset{y}, f, x);
      SumPick(b - multiset{x}, f, y);
      assert b - multiset{y} - multiset{x} == b - multiset{x} - multiset{y};
    }
  }

  /** Adding one element adds its image. */
  lemma SumAdd<T, U>(b: multiset<T>, f: T -> multiset<U>, x: T)
    ensures Sum(b + multiset{x}, f) == Sum(b, f) + f(x)
  {
    SumPick(b + multiset{x}, f, x);
    assert b + multiset{x} - multiset{x} == b;
  }

  /** `n` copies of `x`. */
  function Copies<T>(x: T, n: nat): (m: multiset<T>)
    ensures m[x] == n
  {
    multiset{}[x := n]
  }

  /** `n` times each element of `m`. */
  function Times<T>(m: multiset<T>, n: nat): multiset<T> {
    if n == 0 then multiset{} else Times(m, n - 1) + m
  }

  /** All the copies of one element contribute their image that many
      times. */
  lemma {:induction false} SumKey<T, U>(b: multiset<T>, f: T -> multiset<U>, x: T)
    ensures Sum(b, f) == Times(f(x), b[x]) + Sum(b[x := 0], f)
    decreases b[x]
  {
    if b[x] > 0 {
      var n := b[x];
      var rest := b - multiset{x};
      var others := Sum(b[x := 0], f);
      assert rest[x] == n - 1;
      assert rest[x := 0] == b[x := 0];
      calc {
        Sum(b, f);
        { SumPick(b, f, x); }
        f(x) + Sum(rest, f);
        { SumKey(rest, f, x); }
        f(x) + (Times(f(x), n - 1) + others);
        { Regroup(f(x), Times(f(x), n - 1), others); }
        Times(f(x), n) + others;
      }
    } else {
      assert b[x := 0] == b;
    }
  }

  lemma Regroup<U>(a: multiset<U>, b: multiset<U>, c: multiset<U>)
    ensures a + (b + c) == (b + a) + c
  {
  }

  /** The new pairs one pair gives: its two halves around the rule's
      character, or none when it has no rule. */
  function Children(rules: Rules, p: Pair): (m: multiset<Pair>)
    ensures p in rules ==> |m| == 2
    ensures p !in rules ==> m == multiset{}
  {
    if p in rules then multiset{(p.0, rules[p]), (rules[p], p.1)} else multiset{}
  }

  function ChildrenOf(rules: Rules): Pair -> multiset<Pair> {
    p => Children(rules, p)
  }

  /** The pair counts after one step of part 2. */
  ghost function PairStep(rules: Rules, pairs: multiset<Pair>): multiset<Pair> {
    Sum(pairs, ChildrenOf(rules))
  }

  /** The pair counts after `n` steps of part 2. */
  ghost function PairSteps(rules: Rules, pairs: multiset<Pair>, n: nat): multiset<Pair> {
    if n == 0 then pairs else PairStep(rules, PairSteps(rules, pairs, n - 1))
  }

  lemma TimesTwo(u: Pair, v: Pair, n: nat)
    ensures Times(multiset{u, v}, n) == Copies(u, n) + Copies(v, n)
  {
    if n > 0 {
      TimesTwo(u, v, n - 1);
    }
  }

  lemma {:induction false} CopiesSize<T>(x: T, n: nat)
    ensures |Copies(x, n)| == n
  {
    if n > 0 {
      CopiesSize(x, n - 1);
      assert Copies(x, n) == Copies(x, n - 1) + multiset{x};
    }
  }

  /** Taking out every copy of one element leaves fewer elements. */
  lemma Fewer<T>(b: multiset<T>, x: T)
    requires x in b
    ensures |b[x := 0]| < |b|
  {
    CopiesSize(x, b[x]);
    assert b == b[x := 0] + Copies(x, b[x]);
  }

  /** What the loop of a part 2 step does with one entry `(pair, count)`. */
  function Deposit(rules: Rules, next: multiset<Pair>, pair: Pair, count: nat): multiset<Pair> {
    if pair in rules then
      var c := rules[pair];
      var once := next[(pair.0, c) := next[(pair.0, c)] + count];
      once[(c, pair.1) := once[(c, pair.1)] + count]
    else next
  }

  lemma Bump(m: multiset<Pair>, x: Pair, n: nat)
    ensures m[x := m[x] + n] == m + Copies(x, n)
  {
  }

  /** Depositing an entry adds the children of its pair, `count` times. */
  lemma DepositAdds(rules: Rules, next: multiset<Pair>, pair: Pair, count: nat)
    ensures Deposit(rules, next, pair, count) == next + Times(Children(rules, pair), count)
  {
    if pair in rules {
      var c := rules[pair];
      TimesTwo((pair.0, c), (c, pair.1), count);
      Bump(next, (pair.0, c), count);
      Bump(next + Copies((pair.0, c), count), (c, pair.1), count);
    } else {
      TimesNone(Children(rules, pair), count);
    }
  }

  /** One turn of the loop keeps the sum of what is deposited and what is
      left. */
  lemma PairTurn(rules: Rules, total: multiset<Pair>, next: multiset<Pair>, left: multiset<Pair>, pair: Pair)
    requires pair in left && total == next + PairStep(rules, left)
    ensures total == Deposit(rules, next, pair, left[pair]) + PairStep(rules, left[pair := 0])
    ensures |left[pair := 0]| < |left|
  {
    SumKey(left, ChildrenOf(rules), pair);
    DepositAdds(rules, next, pair, left[pair]);
    Fewer(left, pair);
  }

  /** The body of the loop of a part 2 step: a pair with a rule adds its
      count to both of its halves. */
  method AddChildren(rules: Rules, next: multiset<Pair>, pair: Pair, count: nat) returns (after: multiset<Pair>)
    ensures after == Deposit(rules, next, pair, count)
  {
    after := next;
    if pair in rules {
      var insertion := rules[pair];
      after := after[(pair.0, insertion) := after[(pair.0, insertion)] + count];
      after := after[(insertion, pair.1) := after[(insertion, pair.1)] + count];
    }
  }

  /** The loop of one part 2 step, consuming the pair counts. */
  method PairStepOnce(rules: Rules, pairs: multiset<Pair>) returns (next: multiset<Pair>)
    ensures next == PairStep(rules, pairs)
  {
    next := multiset{};
    var left := pairs;
    while left != multiset{}
      invariant PairStep(rules, pairs) == next + PairStep(rules, left)
      decreases |left|
    {
      var pair :| pair in left;
      var count := left[pair];
      PairTurn(rules, PairStep(rules, pairs), next, left, pair);
      left := left[pair := 0];
      next := AddChildren(rules, next, pair, count);
    }
  }

  lemma {:induction false} TimesNone<T>(none: multiset<T>, n: nat)
    requires none == multiset{}
    ensures Times(none, n) == none
  {
    if n > 0 {
      TimesNone(none, n - 1);
    }
  }

  /** A pair counts for its first character. */
  function FirstOf(): Pair -> multiset<char> {
    (p: Pair) => multiset{p.0}
  }

  lemma TimesOne<T>(x: T, n: nat)
    ensures Times(multiset{x}, n) == Copies(x, n)
  {
    if n > 0 {
      TimesOne(x, n - 1);
    }
  }

  /** What the character counting loop does with one entry: `n` more of
      character `c`. */
  function Credit(counts: multiset<char>, c: char, n: nat): multiset<char> {
    counts[c := counts[c] + n]
  }

  lemma CreditAdds(counts: multiset<char>, c: char, n: nat)
    ensures Credit(counts, c, n) == counts + Copies(c, n)
  {
  }

  /** One turn of the character counting loop keeps the sum of what is
      counted and what is left. */
  lemma FirstTurn(total: multiset<char>, counts: multiset<char>, left: multiset<Pair>, pair: Pair)
    requires pair in left && total == counts + Sum(left, FirstOf())
    ensures total == Credit(counts, pair.0, left[pair]) + Sum(left[pair := 0], FirstOf())
    ensures |left[pair := 0]| < |left|
  {
    SumKey(left, FirstOf(), pair);
    TimesOne(pair.0, left[pair]);
    CreditAdds(counts, pair.0, left[pair]);
    Fewer(left, pair);
  }

  /** The body of the character counting loop: a pair adds its count to
      its first character. */
  method AddFirst(counts: multiset<char>, pair: Pair, count: nat) returns (after: multiset<char>)
    ensures after == Credit(counts, pair.0, count)
  {
    after := counts[pair.0 := counts[pair.0] + count];
  }

  /** The loop counting every pair for its first character. */
  method FirstCounts(pairs: multiset<Pair>) returns (counts: multiset<char>)
    ensures counts == Sum(pairs, FirstOf())
  {
    counts := multiset{};
    var left := pairs;
    while left != multiset{}
      invariant Sum(pairs, FirstOf()) == counts + Sum(left, FirstOf())
      decreases |left|
    {
      var pair :| pair in left;
      var count := left[pair];
      FirstTurn(Sum(pairs, FirstOf()), counts, left, pair);
      left := left[pair := 0];
      counts := AddFirst(counts, pair, count);
    }
    SumEmpty(left, FirstOf());
  }

  /** The character counts from the pair counts: every pair counts for its
      first character, and the polymer's last character, which ends no
      pair, once more; an error for an empty polymer. */
  method CharCounts(pairs: multiset<Pair>, polymer: seq<char>) returns (r: Result<multiset<char>>)
    ensures r.Ok? <==> polymer != []
    ensures r.Ok? ==> r.value == Sum(pairs, FirstOf()) + multiset{polymer[|polymer| - 1]}
  {
    var counts := FirstCounts(pairs);
    if polymer == [] {
      return Err;
    }
    var last := polymer[|polymer| - 1];
    CreditAdds(counts, last, 1);
    return Ok(counts[last := counts[last] + 1]);
  }

  /** The first characters of the pairs, with the last character, are the
      characters of the polymer. */
  lemma {:induction false} CharsFromPairs(q: seq<char>)
    requires q != []
    ensures Sum(PairBag(q), FirstOf()) + multiset{q[|q| - 1]} == multiset(q)
  {
    if |q| == 1 {
      assert PairBag(q) == multiset{};
    } else {
      var p, x := q[..|q| - 1], q[|q| - 1];
      assert q == p + [x];
      CharsFromPairs(p);
      PairBagSnoc(p, x);
      SumAdd(PairBag(p), FirstOf(), (p[|p| - 1], x));
    }
  }

  /** A step of part 2 doubles the pairs when every pair has a rule. */
  lemma {:induction false} PairStepDoubles(rules: Rules, pairs: multiset<Pair>)
    requires forall p :: p in pairs ==> p in rules
    ensures |PairStep(rules, pairs)| == 2 * |pairs|
    decreases |pairs|
  {
    if pairs != multiset{} {
      var p :| p in pairs;
      SumPick(pairs, ChildrenOf(rules), p);
      PairStepDoubles(rules, pairs - multiset{p});
    }
  }

  /** A step of part 2 leaves no pairs when no pair has a rule. */
  lemma {:induction false} PairStepNone(rules: Rules, pairs: multiset<Pair>)
    requires forall p :: p in pairs ==> p !in rules
    ensures PairStep(rules, pairs) == multiset{}
    decreases |pairs|
  {
    if pairs != multiset{} {
      var p :| p in pairs;
      SumPick(pairs, ChildrenOf(rules), p);
      PairStepNone(rules, pairs - multiset{p});
    }
  }

  /** Every pair of the polymer has a rule. */
  predicate Complete(rules: Rules, q: seq<char>) {
    forall w :: 1 <= w < |q| ==> Matched(rules, q, w)
  }

  /** Growing `k` characters looks only at those characters. */
  lemma {:induction false} GrownSame(rules: Rules, s: seq<char>, t: seq<char>, k: nat)
    requires k <= |s| && k <= |t| && s[..k] == t[..k]
    ensures Grown(rules, s, k) == Grown(rules, t, k)
  {
    if k > 0 {
      assert s[k - 1] == s[..k][k - 1] && t[k - 1] == t[..k][k - 1];
      if k > 1 {
        assert s[k - 2] == s[..k][k - 2] && t[k - 2] == t[..k][k - 2];
      }
      assert s[..k - 1] == s[..k][..k - 1] && t[..k - 1] == t[..k][..k - 1];
      GrownSame(rules, s, t, k - 1);
    }
  }

  /** One more character grows the polymer by the rule's character, if
      any, and itself. */
  lemma StepSnoc(rules: Rules, p: seq<char>, x: char)
    requires p != []
    ensures Step(rules, p + [x]) ==
      Step(rules, p) + (if Matched(rules, p + [x], |p|) then [Insert(rules, p + [x], |p|)] else []) + [x]
  {
    GrownSame(rules, p + [x], p, |p|);
  }

  /** Part 2's step follows part 1's: when every pair of the polymer has a
      rule, the pairs of the grown polymer are the children of its pairs. */
  lemma {:induction false} PairsFollowStep(rules: Rules, q: seq<char>)
    requires Complete(rules, q)
    ensures PairStep(rules, PairBag(q)) == PairBag(Step(rules, q))
  {
    if |q| <= 1 {
      PairsFollowShort(rules, q);
    } else {
      var p, x := q[..|q| - 1], q[|q| - 1];
      assert q == p + [x];
      CompletePrefix(rules, p, x);
      PairsFollowStep(rules, p);
      PairsFollowSnoc(rules, p, x);
    }
  }

  lemma PairsFollowShort(rules: Rules, q: seq<char>)
    requires |q| <= 1
    ensures PairStep(rules, PairBag(q)) == PairBag(Step(rules, q))
  {
    assert PairBag(q) == multiset{};
    SumEmpty(PairBag(q), ChildrenOf(rules));
    if q != [] {
      assert Step(rules, q) == Grown(rules, q, 1) == [q[0]];
    }
  }

  lemma CompletePrefix(rules: Rules, p: seq<char>, x: char)
    requires Complete(rules, p + [x])
    ensures Complete(rules, p)
  {
    forall w | 1 <= w < |p|
      ensures Matched(rules, p, w)
    {
      assert Matched(rules, p + [x], w);
    }
  }

  lemma PairsFollowSnoc(rules: Rules, p: seq<char>, x: char)
    requires p != [] && Complete(rules, p + [x])
    requires PairStep(rules, PairBag(p)) == PairBag(Step(rules, p))
    ensures PairStep(rules, PairBag(p + [x])) == PairBag(Step(rules, p + [x]))
  {
    var q := p + [x];
    assert Matched(rules, q, |p|);
    var c := Insert(rules, q, |p|);
    PairStepSnoc(rules, p, x, c);
    StepPairsSnoc(rules, p, x, c);
  }

  /** A closing pair with a rule adds its two children to part 2's step. */
  lemma PairStepSnoc(rules: Rules, p: seq<char>, x: char, c: char)
    requires p != [] && (p[|p| - 1], x) in rules && rules[(p[|p| - 1], x)] == c
    ensures PairStep(rules, PairBag(p + [x])) == PairStep(rules, PairBag(p)) + multiset{(p[|p| - 1], c), (c, x)}
  {
    var pair := (p[|p| - 1], x);
    PairBagSnoc(p, x);
    SumAdd(PairBag(p), ChildrenOf(rules), pair);
    assert ChildrenOf(rules)(pair) == multiset{(p[|p| - 1], c), (c, x)};
  }

  /** A closing pair with a rule adds the two pairs around its insertion to
      the grown polymer. */
  lemma StepPairsSnoc(rules: Rules, p: seq<char>, x: char, c: char)
    requires p != [] && Matched(rules, p + [x], |p|) && Insert(rules, p + [x], |p|) == c
    ensures PairBag(Step(rules, p + [x])) == PairBag(Step(rules, p)) + multiset{(p[|p| - 1], c), (c, x)}
  {
    var g := Step(rules, p);
    assert Step(rules, p + [x]) == (g + [c]) + [x] by {
      StepSnoc(rules, p, x);
    }
    assert g != [] && g[|g| - 1] == p[|p| - 1] by {
      StepKeeps(rules, p, |p| - 1);
    }
    assert PairBag(g + [c]) == PairBag(g) + multiset{(p[|p| - 1], c)} by {
      PairBagSnoc(g, c);
    }
    assert (g + [c])[|g + [c]| - 1] == c;
    PairBagSnoc(g + [c], x);
  }

  /** Every character of the polymer is in the alphabet. */
  predicate Within(q: seq<char>, alphabet: set<char>) {
    forall c :: c in q ==> c in alphabet
  }

  /** Every pair over the alphabet has a rule, inserting a character of
      the alphabet. */
  predicate Covers(rules: Rules, alphabet: set<char>) {
    forall a, b :: a in alphabet && b in alphabet ==> (a, b) in rules && rules[(a, b)] in alphabet
  }

  lemma {:induction false} GrownWithin(rules: Rules, q: seq<char>, k: nat, alphabet: set<char>)
    requires k <= |q| && Within(q, alphabet) && Covers(rules, alphabet)
    ensures Within(Grown(rules, q, k), alphabet)
  {
    if k > 0 {
      GrownWithin(rules, q, k - 1, alphabet);
      if k >= 2 {
        assert q[k - 2] in q && q[k - 1] in q;
      }
    }
  }

  /** Over a covered alphabet, every pair has a rule and growth stays in
      the alphabet. */
  lemma StepWithin(rules: Rules, q: seq<char>, alphabet: set<char>)
    requires Within(q, alphabet) && Covers(rules, alphabet)
    ensures Complete(rules, q) && Within(Step(rules, q), alphabet)
  {
    GrownWithin(rules, q, |q|, alphabet);
    forall w | 1 <= w < |q|
      ensures Matched(rules, q, w)
    {
      assert q[w - 1] in q && q[w] in q;
    }
  }

  /** Over a covered alphabet, `n` steps of part 2 give the pairs of the
      polymer after `n` steps of part 1, whose last character stays. */
  lemma {:induction false} PairStepsTrack(rules: Rules, t: seq<char>, n: nat, alphabet: set<char>)
    requires Within(t, alphabet) && Covers(rules, alphabet)
    ensures PairSteps(rules, PairBag(t), n) == PairBag(Grow(rules, t, n))
    ensures Within(Grow(rules, t, n), alphabet)
  {
    if n > 0 {
      PairStepsTrack(rules, t, n - 1, alphabet);
      StepWithin(rules, Grow(rules, t, n - 1), alphabet);
      PairsFollowStep(rules, Grow(rules, t, n - 1));
    }
  }

  /** Growth keeps the last character. */
  lemma {:induction false} GrowLast(rules: Rules, t: seq<char>, n: nat)
    requires t != []
    ensures Grow(rules, t, n) != [] && Grow(rules, t, n)[|Grow(rules, t, n)| - 1] == t[|t| - 1]
  {
    if n > 0 {
      var q := Grow(rules, t, n - 1);
      GrowLast(rules, t, n - 1);
      StepKeeps(rules, q, |q| - 1);
    }
  }

  /** Part 2's character counts after `n` steps. */
  ghost function PairCounts(rules: Rules, t: seq<char>, n: nat): multiset<char>
    requires t != []
  {
    Sum(PairSteps(rules, PairBag(t), n), FirstOf()) + multiset{t[|t| - 1]}
  }

  /** Over a covered alphabet, part 2 counts the characters of part 1's
      polymer. */
  lemma CountsAgree(rules: Rules, t: seq<char>, n: nat, alphabet: set<char>)
    requires t != [] && Within(t, alphabet) && Covers(rules, alphabet)
    ensures PairCounts(rules, t, n) == multiset(Grow(rules, t, n))
  {
    PairStepsTrack(rules, t, n, alphabet);
    GrowLast(rules, t, n);
    CharsFromPairs(Grow(rules, t, n));
  }

  /** Without rules for its pairs the counts part 2 keeps lose the
      polymer: no rules and the template `ABA` give one `A` where the
      polymer has two. */
  lemma UncoveredDiverges()
    ensures PairCounts(map[], "ABA", 1) != multiset(Grow(map[], "ABA", 1))
  {
    var t := "ABA";
    PairStepNone(map[], PairBag(t));
    StepKeeps(map[], t, 0);
    StepKeeps(map[], t, 2);
    assert PairSteps(map[], PairBag(t), 1) == multiset{};
    assert PairCounts(map[], t, 1) == multiset{'A'};
    var g := Grow(map[], t, 1);
    assert g[0] == 'A' && g[|g| - 1] == 'A';
    assert multiset(g)['A'] >= 2 by {
      assert |g| >= 2;
      assert g == [g[0]] + g[1..|g| - 1] + [g[|g| - 1]];
    }
  }

  /** The characters of the manual: the template's and the rules'
      insertions. */
  function Alphabet(manual: Manual): set<char> {
    (set c | c in manual.template) + manual.rules.Values
  }

  /** Part 2: forty steps on the pair counts alone. */
  method SolvePart2(input: string) returns (r: Result<nat>)
    requires !ReadManual(input).Panics?
    ensures r.Ok? <==> ReadManual(input).Read? && ReadManual(input).value.template != []
    ensures r.Ok? ==>
      var manual := ReadManual(input).value;
      IsSpread(PairCounts(manual.rules, manual.template, PART2_STEPS), r.value)
    ensures r.Ok? && Covers(ReadManual(input).value.rules, Alphabet(ReadManual(input).value)) ==>
      var manual := ReadManual(input).value;
      IsSpread(multiset(Grow(manual.rules, manual.template, PART2_STEPS)), r.value)
  {
    var manual :- ParseManual(input);
    var rules := manual.rules;
    var pairs := CountPairs(manual.template);
    for step := 0 to PART2_STEPS
      invariant pairs == PairSteps(rules, PairBag(manual.template), step)
    {
      pairs := PairStepOnce(rules, pairs);
    }
    var counts :- CharCounts(pairs, manual.template);
    r := Spread(counts);
    if r.Ok? && Covers(rules, Alphabet(manual)) {
      CountsAgree(rules, manual.template, PART2_STEPS, Alphabet(manual));
      assert counts == multiset(Grow(rules, manual.template, PART2_STEPS));
    }
  }
}
