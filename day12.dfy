/** Day 12: passage pathing. Reads a cave system from "a-b" lines and
    enumerates the paths from a prefix to the end cave, visiting small
    caves at most once (part 1) or allowing one small cave a second visit
    (part 2). */
module Day12 {
  import opened Wrappers
  import Text

  /** A cave: the two named ends, or a small or big cave with its name. */
  datatype Cave = Start | End | Small(name: string) | Big(name: string)

  /** `char::is_uppercase`, restricted to the ASCII letters. */
  predicate IsUpper(ch: char) {
    'A' <= ch <= 'Z'
  }

  predicate AllUpper(s: string) {
    forall i :: 0 <= i < |s| ==> IsUpper(s[i])
  }

  /** The name a cave is displayed with. */
  function Show(c: Cave): string {
    match c
    case Start => "start"
    case End => "end"
    case Small(s) => s
    case Big(s) => s
  }

  /** The caves a name can denote: the ends by their own names, any other
      name as a big cave exactly when all its letters are uppercase (the
      empty name included). */
  predicate WellNamed(c: Cave) {
    match c
    case Start => true
    case End => true
    case Small(s) => s != "start" && s != "end" && !AllUpper(s)
    case Big(s) => s != "start" && s != "end" && AllUpper(s)
  }

  /** `Cave::from`: the cave a name denotes, which displays as that name. */
  function CaveOf(s: string): (c: Cave)
    ensures Show(c) == s && WellNamed(c)
  {
    if s == "start" then Start
    else if s == "end" then End
    else if AllUpper(s) then Big(s)
    else Small(s)
  }

  /** Displaying a well-named cave and reading the name back gives the
      cave again. */
  lemma CaveOfShow(c: Cave)
    requires WellNamed(c)
    ensures CaveOf(Show(c)) == c
  {
  }

  // --- Parsing -------------------------------------------------------------

  /** The connections of a cave system: for each cave, the caves one step
      away, in the order the lines name them. */
  datatype CaveSystem = CaveSystem(connections: map<Cave, seq<Cave>>)

  /** The first piece of a split is a prefix of the text. */
  lemma SplitFirst(s: string, sep: string)
    requires |sep| > 0
    ensures Text.Split(s, sep)[0] <= s
  {
    match Text.IndexOf(s, sep)
    case None =>
    case Some(i) => Text.SplitAt(s, sep, i);
  }

  /** One line of `try_from`: `split('-')` always yields an origin, and
      the line fails when there is no second piece; pieces after the
      second are ignored. */
  function ReadLine(line: string): Result<(Cave, Cave)>
  {
    var parts := Text.Split(line, "-");
    if |parts| < 2 then Err else Ok((CaveOf(parts[0]), CaveOf(parts[1])))
  }

  /** A line gives an edge exactly when it holds a '-'; the origin is the
      name before the first '-' and the destination the name up to the
      next one. */
  lemma ReadLineMeaning(line: string)
    ensures ReadLine(line).Ok? <==> Text.IndexOf(line, "-").Some?
    ensures ReadLine(line).Ok? ==>
      var (o, d) := ReadLine(line).value;
      && Show(o) + "-" + Show(d) <= line
      && Text.IndexOf(Show(o), "-").None?
      && Text.IndexOf(Show(d), "-").None?
  {
    var parts := Text.Split(line, "-");
    Text.SplitPiecesAvoidSep(line, "-");
    match Text.IndexOf(line, "-")
    case None =>
    case Some(i) =>
      var rest := line[i + 1..];
      Text.SplitAt(line, "-", i);
      Text.AroundOccurrence(line, "-", i);
      SplitFirst(rest, "-");
      assert parts[1] == Text.Split(rest, "-")[0];
      assert parts[0] == line[..i];
  }

  /** The edges named by the lines, or `Err` at the first line without a
      '-'. */
  function ReadEdges(lines: seq<string>): Result<seq<(Cave, Cave)>>
  {
    if lines == [] then Ok([])
    else
      var edges :- ReadEdges(lines[..|lines| - 1]);
      var e :- ReadLine(lines[|lines| - 1]);
      Ok(edges + [e])
  }

  /** The lines give edges exactly when every line gives one, and then the
      edges are those of the lines, in order. */
  lemma {:induction false} ReadEdgesEach(lines: seq<string>)
    ensures ReadEdges(lines).Ok? <==> forall i :: 0 <= i < |lines| ==> ReadLine(lines[i]).Ok?
    ensures ReadEdges(lines).Ok? ==> |ReadEdges(lines).value| == |lines|
    ensures ReadEdges(lines).Ok? ==> forall i :: 0 <= i < |lines| ==> ReadLine(lines[i]) == Ok(ReadEdges(lines).value[i])
  {
    if lines != [] {
      var front := lines[..|lines| - 1];
      ReadEdgesEach(front);
      assert forall i :: 0 <= i < |front| ==> front[i] == lines[i];
      var r := ReadEdges(lines);
      if r.Ok? {
        var edges := ReadEdges(front).value;
        assert r.value == edges + [ReadLine(lines[|lines| - 1]).value];
        forall i | 0 <= i < |lines|
          ensures ReadLine(lines[i]) == Ok(r.value[i])
        {
          if i < |front| {
            assert r.value[i] == edges[i];
          }
        }
      }
    }
  }

  /** `entry(from).or_insert_with(Vec::new).push(to)`. */
  function Link(m: map<Cave, seq<Cave>>, from: Cave, to: Cave): map<Cave, seq<Cave>> {
    m[from := (if from in m then m[from] else []) + [to]]
  }

  /** One edge recorded in both directions, origin first. */
  function Connect(m: map<Cave, seq<Cave>>, e: (Cave, Cave)): map<Cave, seq<Cave>> {
    Link(Link(m, e.0, e.1), e.1, e.0)
  }

  /** The connections the edges build, one after the other. */
  function Connections(edges: seq<(Cave, Cave)>): map<Cave, seq<Cave>> {
    if edges == [] then map[]
    else Connect(Connections(edges[..|edges| - 1]), edges[|edges| - 1])
  }

  /** Whether some edge joins `o` and `d`, in either direction. */
  predicate Joined(edges: seq<(Cave, Cave)>, o: Cave, d: Cave) {
    exists i :: 0 <= i < |edges| && (edges[i] == (o, d) || edges[i] == (d, o))
  }

  /** `d` is listed among the connections of `o` exactly when an edge joins
      them, whichever way round the line names them. */
  lemma {:induction false} ConnectionsMeaning(edges: seq<(Cave, Cave)>)
    ensures forall o, d :: (o in Connections(edges) && d in Connections(edges)[o]) <==> Joined(edges, o, d)
  {
    if edges != [] {
      var front := edges[..|edges| - 1];
      var e := edges[|edges| - 1];
      ConnectionsMeaning(front);
      var m := Connections(front);
      var m' := Connections(edges);
      assert m' == Connect(m, e);
      forall o, d
        ensures (o in m' && d in m'[o]) <==> Joined(edges, o, d)
      {
        assert (o in m' && d in m'[o]) <==> (o in m && d in m[o]) || (o, d) == e || (d, o) == e;
        if Joined(front, o, d) {
          var i :| 0 <= i < |front| && (front[i] == (o, d) || front[i] == (d, o));
          assert edges[i] == front[i];
        }
        if Joined(edges, o, d) && !((o, d) == e || (d, o) == e) {
          var i :| 0 <= i < |edges| && (edges[i] == (o, d) || edges[i] == (d, o));
          assert i < |front| && front[i] == edges[i];
        }
      }
    }
  }

  /** Every cave listed as a destination has connections of its own. */
  predicate Closed(m: map<Cave, seq<Cave>>) {
    forall o, d :: o in m && d in m[o] ==> d in m
  }

  lemma ConnectionsClosed(edges: seq<(Cave, Cave)>)
    ensures Closed(Connections(edges))
  {
    ConnectionsMeaning(edges);
    var m := Connections(edges);
    forall o, d | o in m && d in m[o]
      ensures d in m
    {
      var i :| 0 <= i < |edges| && (edges[i] == (o, d) || edges[i] == (d, o));
      assert Joined(edges, d, o);
    }
  }

  function InputLines(input: string): seq<string> {
    Text.Lines(Text.Trim(input))
  }

  /** What `try_from` produces: the system whose connections join exactly
      the caves the lines join, or `Err` when a line has no '-'. */
  function ParseSystem(input: string): (r: Result<CaveSystem>)
    ensures r.Ok? <==> forall i :: 0 <= i < |InputLines(input)| ==> ReadLine(InputLines(input)[i]).Ok?
    ensures r.Ok? ==> Closed(r.value.connections)
    ensures r.Ok? ==> ReadEdges(InputLines(input)).Ok? && var edges := ReadEdges(InputLines(input)).value;
      forall o, d :: (o in r.value.connections && d in r.value.connections[o]) <==> Joined(edges, o, d)
  {
    ReadEdgesEach(InputLines(input));
    var edges :- ReadEdges(InputLines(input));
    ConnectionsMeaning(edges);
    ConnectionsClosed(edges);
    Ok(CaveSystem(Connections(edges)))
  }

  /** The system is read exactly when every line holds a '-'. */
  lemma ParseSystemNeedsDash(input: string)
    ensures ParseSystem(input).Ok? <==> forall i :: 0 <= i < |InputLines(input)| ==> Text.IndexOf(InputLines(input)[i], "-").Some?
  {
    var lines := InputLines(input);
    forall i | 0 <= i < |lines|
      ensures ReadLine(lines[i]).Ok? <==> Text.IndexOf(lines[i], "-").Some?
    {
      ReadLineMeaning(lines[i]);
    }
  }

  lemma ReadEdgesNext(lines: seq<string>, i: nat, edges: seq<(Cave, Cave)>)
    requires i < |lines| && ReadEdges(lines[..i]) == Ok(edges) && ReadLine(lines[i]).Ok?
    ensures ReadEdges(lines[..i + 1]) == Ok(edges + [ReadLine(lines[i]).value])
  {
    assert lines[..i + 1][..i] == lines[..i];
  }

  lemma ConnectionsNext(edges: seq<(Cave, Cave)>, e: (Cave, Cave))
    ensures Connections(edges + [e]) == Connect(Connections(edges), e)
  {
    assert (edges + [e])[..|edges|] == edges;
  }

  /** The two pushes of `try_from` for one line. */
  method Record(connections: map<Cave, seq<Cave>>, origin: Cave, destination: Cave) returns (m: map<Cave, seq<Cave>>)
    ensures m == Connect(connections, (origin, destination))
  {
    m := connections[origin := (if origin in connections then connections[origin] else []) + [destination]];
    m := m[destination := (if destination in m then m[destination] else []) + [origin]];
  }

  /** `CaveSystem::try_from`: reads the lines in order, pushing each
      destination onto the origin's list and the origin onto the
      destination's list. */
  method TryFrom(input: string) returns (r: Result<CaveSystem>)
    ensures r == ParseSystem(input)
  {
    var lines := InputLines(input);
    var connections: map<Cave, seq<Cave>> := map[];
    ghost var edges: seq<(Cave, Cave)> := [];
    for i := 0 to |lines|
      invariant ReadEdges(lines[..i]) == Ok(edges)
      invariant connections == Connections(edges)
    {
      var parts := Text.Split(lines[i], "-");
      if |parts| < 2 {
        assert ReadLine(lines[i]).Err?;
        ReadEdgesEach(lines);
        return Err;
      }
      var origin := CaveOf(parts[0]);
      var destination := CaveOf(parts[1]);
      connections := Record(connections, origin, destination);
      ReadEdgesNext(lines, i, edges);
      ConnectionsNext(edges, (origin, destination));
      edges := edges + [(origin, destination)];
    }
    assert lines[..|lines|] == lines;
    return Ok(CaveSystem(connections));
  }

  // --- Enumerating paths ---------------------------------------------------

  /** No two big caves are adjacent, so a path cannot bounce between big
      caves forever. */
  predicate NoBigPair(m: map<Cave, seq<Cave>>) {
    forall o, d :: o in m && d in m[o] ==> !(o.Big? && d.Big?)
  }

  /** The systems the model explores: `get_paths` terminates on every one
      of them, though it also terminates when an adjacent pair of big caves
      is unreachable from the start. */
  predicate Explorable(m: map<Cave, seq<Cave>>) {
    Closed(m) && NoBigPair(m)
  }

  predicate EndsIn(m: map<Cave, seq<Cave>>, path: seq<Cave>) {
    path != [] && path[|path| - 1] in m
  }

  /** The small caves of the system a path has not entered yet. */
  ghost function SmallLeft(m: map<Cave, seq<Cave>>, path: seq<Cave>): set<Cave> {
    set c | c in m && c.Small? && c !in path
  }

  /** Two visits for each small cave not yet entered, and one for the
      second visit still allowed. */
  ghost function Budget(m: map<Cave, seq<Cave>>, path: seq<Cave>, twice: bool): nat {
    2 * |SmallLeft(m, path)| + (if twice then 1 else 0)
  }

  /** After a big cave the next step enters a cave that is not big. */
  function Rank(path: seq<Cave>): nat {
    if path != [] && path[|path| - 1].Big? then 0 else 1
  }

  /** The flag the recursion continues with after stepping into `d`. */
  function FlagAfter(path: seq<Cave>, twice: bool, d: Cave): bool {
    if d.Small? && d in path then false else twice
  }

  /** A step that `get_paths` recurses on uses up budget, or keeps it and
      leaves a big cave at the end. */
  lemma StepDecreases(m: map<Cave, seq<Cave>>, path: seq<Cave>, twice: bool, d: Cave)
    requires Explorable(m) && EndsIn(m, path) && d in m[path[|path| - 1]]
    requires d.Big? || d.Small?
    requires d.Small? && d in path ==> twice
    ensures var b, b' := Budget(m, path, twice), Budget(m, path + [d], FlagAfter(path, twice, d));
            b' < b || (b' == b && Rank(path + [d]) < Rank(path))
  {
    var s, s' := SmallLeft(m, path), SmallLeft(m, path + [d]);
    if d.Small? && d !in path {
      assert s' == s - {d};
      assert d in s;
    } else {
      assert s' == s;
    }
  }

  /** All paths `get_paths` returns from `path`, in order. */
  function Paths(m: map<Cave, seq<Cave>>, path: seq<Cave>, twice: bool): seq<seq<Cave>>
    requires Explorable(m) && path != []
    decreases Budget(m, path, twice), Rank(path), 2, 0
  {
    var last := path[|path| - 1];
    if last in m then Via(m, path, twice, m[last]) else []
  }

  /** The paths through the destinations `dests`, in order. */
  function Via(m: map<Cave, seq<Cave>>, path: seq<Cave>, twice: bool, dests: seq<Cave>): seq<seq<Cave>>
    requires Explorable(m) && EndsIn(m, path)
    requires forall i :: 0 <= i < |dests| ==> dests[i] in m[path[|path| - 1]]
    decreases Budget(m, path, twice), Rank(path), 1, |dests|
  {
    if dests == [] then []
    else Via(m, path, twice, dests[..|dests| - 1]) + Branch(m, path, twice, dests[|dests| - 1])
  }

  /** The paths through one destination `d`. */
  function Branch(m: map<Cave, seq<Cave>>, path: seq<Cave>, twice: bool, d: Cave): seq<seq<Cave>>
    requires Explorable(m) && EndsIn(m, path) && d in m[path[|path| - 1]]
    decreases Budget(m, path, twice), Rank(path), 0, 0
  {
    match d
    case Start => []
    case End => [path + [d]]
    case Big(_) =>
      StepDecreases(m, path, twice, d);
      Paths(m, path + [d], twice)
    case Small(_) =>
      if d !in path || twice then
        StepDecreases(m, path, twice, d);
        Paths(m, path + [d], FlagAfter(path, twice, d))
      else []
  }

  /** `CaveSystem::get_paths`: `Err` on an empty path, otherwise the
      enumeration above, built by a loop over the destinations that
      recurses into each. */
  method GetPaths(sys: CaveSystem, path: seq<Cave>, twice: bool) returns (r: Result<seq<seq<Cave>>>)
    requires Explorable(sys.connections)
    ensures path == [] <==> r.Err?
    ensures r.Ok? ==> r.value == Paths(sys.connections, path, twice)
    decreases Budget(sys.connections, path, twice), Rank(path)
  {
    if path == [] {
      return Err;
    }
    var m := sys.connections;
    var origin := path[|path| - 1];
    var paths: seq<seq<Cave>> := [];
    if origin in m {
      var dests := m[origin];
      for i := 0 to |dests|
        invariant paths == Via(m, path, twice, dests[..i])
      {
        var d := dests[i];
        assert dests[..i + 1][..i] == dests[..i];
        var more: seq<seq<Cave>>;
        match d {
          case Start =>
            more := [];
          case End =>
            more := [path + [d]];
          case Big(_) =>
            StepDecreases(m, path, twice, d);
            var sub := GetPaths(sys, path + [d], twice);
            more := sub.value;
          case Small(_) =>
            if d !in path {
              StepDecreases(m, path, twice, d);
              var sub := GetPaths(sys, path + [d], twice);
              more := sub.value;
            } else if twice {
              StepDecreases(m, path, twice, d);
              var sub := GetPaths(sys, path + [d], false);
              more := sub.value;
            } else {
              more := [];
            }
        }
        paths := paths + more;
      }
      assert dests[..|dests|] == dests;
    }
    return Ok(paths);
  }

  // --- What the paths are --------------------------------------------------

  /** Whether position `i` of `p` enters a small cave a second time. */
  predicate Repeated(p: seq<Cave>, i: nat)
    requires i < |p|
  {
    p[i].Small? && p[i] in p[..i]
  }

  /** How many positions from `from` on enter a small cave again. */
  function Repeats(p: seq<Cave>, from: nat): nat
    decreases |p| - from
  {
    if from >= |p| then 0
    else (if Repeated(p, from) then 1 else 0) + Repeats(p, from + 1)
  }

  /** No repeat is counted exactly when no position repeats. */
  lemma {:induction false} RepeatsNone(p: seq<Cave>, from: nat)
    ensures Repeats(p, from) == 0 <==> forall i :: from <= i < |p| ==> !Repeated(p, i)
    decreases |p| - from
  {
    if from < |p| {
      RepeatsNone(p, from + 1);
    }
  }

  /** At most one repeat counted means at most one position repeats. */
  lemma {:induction false} RepeatsOnce(p: seq<Cave>, from: nat)
    requires Repeats(p, from) <= 1
    ensures forall i, j :: from <= i < |p| && from <= j < |p| && Repeated(p, i) && Repeated(p, j) ==> i == j
    decreases |p| - from
  {
    if from < |p| {
      RepeatsOnce(p, from + 1);
      if Repeated(p, from) {
        RepeatsNone(p, from + 1);
      }
    }
  }

  /** Position `i` of `p` follows a connection from the cave before it and
      is not the start cave. */
  predicate StepAt(m: map<Cave, seq<Cave>>, p: seq<Cave>, i: nat)
    requires 0 < i < |p|
  {
    p[i - 1] in m && p[i] in m[p[i - 1]] && p[i] != Start
  }

  /** A path `get_paths` may return from `path`: it extends `path`, takes
      one connection per step, never re-enters the start, stops at the
      first end it reaches, and enters small caves again at most once with
      the flag and never without it. */
  ghost predicate Route(m: map<Cave, seq<Cave>>, path: seq<Cave>, twice: bool, p: seq<Cave>) {
    && 0 < |path| < |p|
    && p[..|path|] == path
    && p[|p| - 1] == End
    && (forall i :: |path| <= i < |p| ==> StepAt(m, p, i))
    && (forall i :: |path| <= i < |p| - 1 ==> p[i] != End)
    && Repeats(p, |path|) <= (if twice then 1 else 0)
  }

  /** A route from `path + [d]` is a route from `path` when the step into
      `d` is one `get_paths` takes. */
  lemma RouteBack(m: map<Cave, seq<Cave>>, path: seq<Cave>, twice: bool, d: Cave, p: seq<Cave>)
    requires EndsIn(m, path) && d in m[path[|path| - 1]] && (d.Big? || d.Small?)
    requires d.Small? && d in path ==> twice
    requires Route(m, path + [d], FlagAfter(path, twice, d), p)
    ensures Route(m, path, twice, p)
  {
    var n := |path|;
    assert p[..n] == p[..n + 1][..n] == path;
    assert p[n] == d;
    assert Repeated(p, n) <==> d.Small? && d in path;
  }

  /** A route from `path` through `d` is a route from `path + [d]`. */
  lemma RouteForward(m: map<Cave, seq<Cave>>, path: seq<Cave>, twice: bool, p: seq<Cave>)
    requires Route(m, path, twice, p) && p[|path|] != End
    ensures var d := p[|path|];
      && (d.Big? || d.Small?)
      && (d.Small? && d in path ==> twice)
      && Route(m, path + [d], FlagAfter(path, twice, d), p)
  {
    var n := |path|;
    var d := p[n];
    assert p[..n + 1] == p[..n] + [d] == path + [d];
    assert StepAt(m, p, n);
    assert Repeated(p, n) <==> d.Small? && d in path;
    assert Repeats(p, n) == (if Repeated(p, n) then 1 else 0) + Repeats(p, n + 1);
  }

  /** Every path enumerated is a route. */
  lemma {:induction false} PathsRoutes(m: map<Cave, seq<Cave>>, path: seq<Cave>, twice: bool)
    requires Explorable(m) && path != []
    ensures forall p :: p in Paths(m, path, twice) ==> Route(m, path, twice, p)
    decreases Budget(m, path, twice), Rank(path), 2, 0
  {
    var last := path[|path| - 1];
    if last in m {
      ViaRoutes(m, path, twice, m[last]);
    }
  }

  lemma {:induction false} ViaRoutes(m: map<Cave, seq<Cave>>, path: seq<Cave>, twice: bool, dests: seq<Cave>)
    requires Explorable(m) && EndsIn(m, path)
    requires forall i :: 0 <= i < |dests| ==> dests[i] in m[path[|path| - 1]]
    ensures forall p :: p in Via(m, path, twice, dests) ==> Route(m, path, twice, p)
    decreases Budget(m, path, twice), Rank(path), 1, |dests|
  {
    if dests != [] {
      ViaRoutes(m, path, twice, dests[..|dests| - 1]);
      BranchRoutes(m, path, twice, dests[|dests| - 1]);
    }
  }

  lemma {:induction false} BranchRoutes(m: map<Cave, seq<Cave>>, path: seq<Cave>, twice: bool, d: Cave)
    requires Explorable(m) && EndsIn(m, path) && d in m[path[|path| - 1]]
    ensures forall p :: p in Branch(m, path, twice, d) ==> Route(m, path, twice, p)
    decreases Budget(m, path, twice), Rank(path), 0, 0
  {
    match d
    case Start =>
    case End =>
      var p := path + [d];
      assert p[..|path|] == path;
      assert Repeats(p, |path|) == 0;
    case _ =>
      if d.Big? || d !in path || twice {
        var t := FlagAfter(path, twice, d);
        StepDecreases(m, path, twice, d);
        PathsRoutes(m, path + [d], t);
        forall p | p in Paths(m, path + [d], t)
          ensures Route(m, path, twice, p)
        {
          RouteBack(m, path, twice, d, p);
        }
      }
  }

  /** `Via` enumerates the paths of each destination it goes through. */
  lemma {:induction false} ViaHas(m: map<Cave, seq<Cave>>, path: seq<Cave>, twice: bool, dests: seq<Cave>, k: nat, p: seq<Cave>)
    requires Explorable(m) && EndsIn(m, path)
    requires forall i :: 0 <= i < |dests| ==> dests[i] in m[path[|path| - 1]]
    requires k < |dests| && p in Branch(m, path, twice, dests[k])
    ensures p in Via(m, path, twice, dests)
    decreases |dests|
  {
    if k < |dests| - 1 {
      var front := dests[..|dests| - 1];
      assert front[k] == dests[k];
      ViaHas(m, path, twice, front, k, p);
    }
  }

  /** Every route is enumerated. */
  lemma {:induction false} RouteEnumerated(m: map<Cave, seq<Cave>>, path: seq<Cave>, twice: bool, p: seq<Cave>)
    requires Explorable(m) && Route(m, path, twice, p)
    ensures p in Paths(m, path, twice)
    decreases Budget(m, path, twice), Rank(path)
  {
    var n := |path|;
    var last := path[n - 1];
    var d := p[n];
    assert StepAt(m, p, n);
    assert p[n - 1] == last;
    var dests := m[last];
    var k :| 0 <= k < |dests| && dests[k] == d;
    if d == End {
      assert p == p[..n] + [d];
    } else {
      RouteForward(m, path, twice, p);
      StepDecreases(m, path, twice, d);
      RouteEnumerated(m, path + [d], FlagAfter(path, twice, d), p);
    }
    ViaHas(m, path, twice, dests, k, p);
  }

  /** The paths from `path` are exactly its routes. */
  lemma PathsAreRoutes(m: map<Cave, seq<Cave>>, path: seq<Cave>, twice: bool)
    requires Explorable(m) && path != []
    ensures forall p :: p in Paths(m, path, twice) <==> Route(m, path, twice, p)
  {
    PathsRoutes(m, path, twice);
    forall p | Route(m, path, twice, p)
      ensures p in Paths(m, path, twice)
    {
      RouteEnumerated(m, path, twice, p);
    }
  }

  /** Without the flag no path enters a small cave it has entered before. */
  lemma SmallCavesOnce(m: map<Cave, seq<Cave>>, path: seq<Cave>, p: seq<Cave>)
    requires Explorable(m) && path != [] && p in Paths(m, path, false)
    ensures forall i :: |path| <= i < |p| ==> !Repeated(p, i)
  {
    PathsRoutes(m, path, false);
    RepeatsNone(p, |path|);
  }

  /** With the flag a path enters at most one small cave a second time. */
  lemma OneSmallTwice(m: map<Cave, seq<Cave>>, path: seq<Cave>, p: seq<Cave>)
    requires Explorable(m) && path != [] && p in Paths(m, path, true)
    ensures forall i, j :: |path| <= i < |p| && |path| <= j < |p| && Repeated(p, i) && Repeated(p, j) ==> i == j
  {
    PathsRoutes(m, path, true);
    RepeatsOnce(p, |path|);
  }

  // --- Solutions -----------------------------------------------------------

  /** `solve_part1` and `solve_part2`: the number of paths from the start
      cave, without (part 1) or with (part 2) one repeated small cave. */
  method Solve(input: string, twice: bool) returns (r: Result<nat>)
    requires ParseSystem(input).Ok? ==> NoBigPair(ParseSystem(input).value.connections)
    ensures r.Ok? <==> ParseSystem(input).Ok?
    ensures r.Ok? ==> r.value == |Paths(ParseSystem(input).value.connections, [Start], twice)|
  {
    var sys :- TryFrom(input);
    var paths := GetPaths(sys, [Start], twice);
    return Ok(|paths.value|);
  }

  method SolvePart1(input: string) returns (r: Result<nat>)
    requires ParseSystem(input).Ok? ==> NoBigPair(ParseSystem(input).value.connections)
    ensures r.Ok? <==> ParseSystem(input).Ok?
    ensures r.Ok? ==> r.value == |Paths(ParseSystem(input).value.connections, [Start], false)|
  {
    r := Solve(input, false);
  }

  method SolvePart2(input: string) returns (r: Result<nat>)
    requires ParseSystem(input).Ok? ==> NoBigPair(ParseSystem(input).value.connections)
    ensures r.Ok? <==> ParseSystem(input).Ok?
    ensures r.Ok? ==> r.value == |Paths(ParseSystem(input).value.connections, [Start], true)|
  {
    r := Solve(input, true);
  }
}
