/**
  Accounting: what the printed lines and the summary counters of a traversal say about each other,
  and how much work a traversal can do, on every graph.
 */
module TraversalReport {
  import opened ImportGraph
  import R = Reachability

  /** How many lines of each kind a trace holds. */
  datatype Counts = Counts(
    node: nat, header: nat, revisit: nat, limit: nat, table: nat, skipped: nat, unresolved: nat, edge: nat)
  {
    function Add(e: Event): Counts {
      match e
      case NodeLine(_, _) => this.(node := node + 1)
      case HeaderLine(_, _) => this.(header := header + 1)
      case RevisitLine(_, _) => this.(revisit := revisit + 1)
      case LimitLine(_, _, _) => this.(limit := limit + 1)
      case TableLine(_, _) => this.(table := table + 1)
      case SkippedEntry(_, _) => this.(skipped := skipped + 1)
      case UnresolvedLine(_, _, _) => this.(unresolved := unresolved + 1)
      case EdgeLine(_, _, _) => this.(edge := edge + 1)
    }

    /** Every entry into the traversal prints exactly one of these. */
    function Entries(): nat {
      node + header + revisit + limit
    }
  }

  function Tally(trace: seq<Event>): Counts {
    if trace == [] then Counts(0, 0, 0, 0, 0, 0, 0, 0)
    else Tally(trace[..|trace| - 1]).Add(trace[|trace| - 1])
  }

  lemma TallyAppend(trace: seq<Event>, e: Event)
    ensures Tally(trace + [e]) == Tally(trace).Add(e)
  {
    assert (trace + [e])[..|trace|] == trace;
  }

  /** The counters agree with the visited set and with the lines printed so far. */
  ghost predicate Balanced(st: State) {
    var c := Tally(st.trace);
    && st.nodes == |st.visited| == c.node + c.header
    && st.nodes <= NODE_LIMIT
    && st.invalid == c.header + c.table + c.skipped
    && st.missing == c.unresolved
  }

  /** Import tables never yield more steps than the descriptor limit. */
  ghost predicate BoundedTables(g: Graph) {
    forall path :: g.expand(path).Imports? ==> |g.expand(path).steps| <= 1024
  }

  lemma {:induction false} VisitAccounts(g: Graph, path: string, depth: nat, st: State)
    requires Balanced(st)
    ensures Balanced(Visit(g, path, depth, st))
    ensures var c, d := Tally(st.trace), Tally(Visit(g, path, depth, st).trace);
      && d.edge + c.Entries() + 1 == c.edge + d.Entries()
      && c.node <= d.node
      && (BoundedTables(g) ==> d.edge - c.edge <= STEP_LIMIT * (d.node - c.node))
    decreases Remaining(depth)
  {
    hide Walk, Tally;
    TallyAppend(st.trace, LimitLine(depth, st.nodes, path));
    TallyAppend(st.trace, RevisitLine(depth, path));
    TallyAppend(st.trace, HeaderLine(depth, path));
    TallyAppend(st.trace, NodeLine(depth, path));
    if !AtLimit(depth, st) && g.Key(path) !in st.visited && g.expand(path).Imports? {
      WalkAccounts(g, path, g.expand(path).steps, depth, Enter(g, path, st).Print(NodeLine(depth, path)));
    }
  }

  lemma {:induction false} WalkAccounts(g: Graph, path: string, steps: seq<Step>, depth: nat, st: State)
    requires depth <= DEPTH_LIMIT && Balanced(st)
    ensures Balanced(Walk(g, path, steps, depth, st))
    ensures var c, d := Tally(st.trace), Tally(Walk(g, path, steps, depth, st).trace);
      && d.edge + c.Entries() == c.edge + d.Entries()
      && c.node <= d.node
      && (BoundedTables(g) ==> d.edge - c.edge <= |steps| + STEP_LIMIT * (d.node - c.node))
    decreases Remaining(depth), |steps|
  {
    hide Visit, Tally;
    if steps != [] {
      match steps[0] {
        case BrokenTable => TallyAppend(st.trace, TableLine(depth, path));
        case BadEntry => TallyAppend(st.trace, SkippedEntry(depth, path));
        case Unresolved(name) => TallyAppend(st.trace, UnresolvedLine(depth + 1, name, path));
        case Edge(name, target) =>
          TallyAppend(st.trace, EdgeLine(depth + 1, name, target));
          VisitAccounts(g, target, depth + 1, st.Print(EdgeLine(depth + 1, name, target)));
      }
      WalkAccounts(g, path, steps[1..], depth, Take(g, path, steps[0], depth, st));
    }
  }

  lemma NothingCountedAtStart()
    ensures Tally(START.trace) == Counts(0, 0, 0, 0, 0, 0, 0, 0)
  {
  }

  /** Every run's report balances, and its summary is what the lines say. */
  lemma ReportConservation(g: Graph, root: string)
    ensures var r := Run(g, root); var c := Tally(r.trace);
      && c.edge + 1 == c.node + c.revisit + c.limit + c.header
      && r.nodes == |r.visited| == c.node + c.header
      && r.missing == c.unresolved
      && r.invalid == c.header + c.table + c.skipped
  {
    hide Visit, Tally;
    NothingCountedAtStart();
    VisitAccounts(g, root, 0, START);
  }

  /** Cyclic or not, at most 512 nodes are expanded and the traversal is entered at most
      1 + 512 * 1024 times. */
  lemma WorkBound(g: Graph, root: string)
    requires BoundedTables(g)
    ensures var r := Run(g, root);
      && r.nodes <= 512
      && Tally(r.trace).Entries() <= 1 + 512 * 1024
  {
    hide Visit, Tally;
    NothingCountedAtStart();
    VisitAccounts(g, root, 0, START);
  }

  /** How often a key was expanded, that is, opened and reported as node or as bad header. */
  function Expansions(g: Graph, trace: seq<Event>, key: string): nat {
    if trace == [] then 0
    else
      var last := trace[|trace| - 1];
      Expansions(g, trace[..|trace| - 1], key)
      + if (last.NodeLine? || last.HeaderLine?) && g.Key(last.path) == key then 1 else 0
  }

  lemma ExpansionsAppend(g: Graph, trace: seq<Event>, e: Event, key: string)
    ensures Expansions(g, trace + [e], key) == Expansions(g, trace, key)
      + if (e.NodeLine? || e.HeaderLine?) && g.Key(e.path) == key then 1 else 0
  {
    assert (trace + [e])[..|trace|] == trace;
  }

  ghost predicate ExpandedOnce(g: Graph, st: State, key: string) {
    Expansions(g, st.trace, key) == if key in st.visited then 1 else 0
  }

  lemma {:induction false} VisitExpandsOnce(g: Graph, path: string, depth: nat, st: State, key: string)
    requires ExpandedOnce(g, st, key)
    ensures ExpandedOnce(g, Visit(g, path, depth, st), key)
    decreases Remaining(depth)
  {
    hide Walk, Expansions;
    ExpansionsAppend(g, st.trace, LimitLine(depth, st.nodes, path), key);
    ExpansionsAppend(g, st.trace, RevisitLine(depth, path), key);
    ExpansionsAppend(g, st.trace, HeaderLine(depth, path), key);
    ExpansionsAppend(g, st.trace, NodeLine(depth, path), key);
    if !AtLimit(depth, st) && g.Key(path) !in st.visited && g.expand(path).Imports? {
      WalkExpandsOnce(g, path, g.expand(path).steps, depth, Enter(g, path, st).Print(NodeLine(depth, path)), key);
    }
  }

  lemma {:induction false} WalkExpandsOnce(
      g: Graph, path: string, steps: seq<Step>, depth: nat, st: State, key: string)
    requires depth <= DEPTH_LIMIT && ExpandedOnce(g, st, key)
    ensures ExpandedOnce(g, Walk(g, path, steps, depth, st), key)
    decreases Remaining(depth), |steps|
  {
    hide Visit, Expansions;
    if steps != [] {
      match steps[0] {
        case BrokenTable => ExpansionsAppend(g, st.trace, TableLine(depth, path), key);
        case BadEntry => ExpansionsAppend(g, st.trace, SkippedEntry(depth, path), key);
        case Unresolved(name) => ExpansionsAppend(g, st.trace, UnresolvedLine(depth + 1, name, path), key);
        case Edge(name, target) =>
          ExpansionsAppend(g, st.trace, EdgeLine(depth + 1, name, target), key);
          VisitExpandsOnce(g, target, depth + 1, st.Print(EdgeLine(depth + 1, name, target)), key);
      }
      WalkExpandsOnce(g, path, steps[1..], depth, Take(g, path, steps[0], depth, st), key);
    }
  }

  /** Each case-folded path is expanded once if it is visited and never otherwise. */
  lemma EachPathExpandedOnce(g: Graph, root: string, key: string)
    ensures Expansions(g, Run(g, root).trace, key) == if key in Run(g, root).visited then 1 else 0
  {
    hide Visit;
    VisitExpandsOnce(g, root, 0, START, key);
  }

  // ----- how the lines follow each other -----

  ghost predicate IsEntry(e: Event) {
    e.NodeLine? || e.HeaderLine? || e.RevisitLine? || e.LimitLine?
  }

  /** The line printed on entering the path the EDGE line names, at the same depth. */
  ghost predicate Answers(edge: Event, entry: Event) {
    edge.EdgeLine? && IsEntry(entry) && edge.depth == entry.depth
    && edge.path == if entry.LimitLine? then entry.target else entry.path
  }

  /** Each EDGE line is answered by the next line, and only EDGE lines are answered. */
  ghost predicate Linked(trace: seq<Event>) {
    forall i :: 0 < i < |trace| && (IsEntry(trace[i]) || trace[i - 1].EdgeLine?) ==> Answers(trace[i - 1], trace[i])
  }

  ghost predicate Answered(trace: seq<Event>) {
    trace != [] && Linked(trace) && !trace[|trace| - 1].EdgeLine?
  }

  /** Ready to enter `path`: at the very beginning, or right after the EDGE line to it. */
  ghost predicate Awaiting(trace: seq<Event>, path: string, depth: nat) {
    trace == []
    || (Linked(trace) && (var e := trace[|trace| - 1]; e.EdgeLine? && e.depth == depth && e.path == path))
  }

  lemma AnswerEdge(trace: seq<Event>, path: string, depth: nat, e: Event)
    requires Awaiting(trace, path, depth)
    requires IsEntry(e) && e.depth == depth && path == if e.LimitLine? then e.target else e.path
    ensures Answered(trace + [e])
  {
  }

  lemma PrintOther(trace: seq<Event>, e: Event)
    requires Answered(trace) && !IsEntry(e)
    ensures Linked(trace + [e])
    ensures e.EdgeLine? ==> Awaiting(trace + [e], e.path, e.depth)
    ensures !e.EdgeLine? ==> Answered(trace + [e])
  {
  }

  lemma {:induction false} VisitAnswers(g: Graph, path: string, depth: nat, st: State)
    requires Awaiting(st.trace, path, depth)
    ensures Answered(Visit(g, path, depth, st).trace)
    decreases Remaining(depth)
  {
    hide Walk, Awaiting, Answered;
    AnswerEdge(st.trace, path, depth, LimitLine(depth, st.nodes, path));
    AnswerEdge(st.trace, path, depth, RevisitLine(depth, path));
    AnswerEdge(st.trace, path, depth, HeaderLine(depth, path));
    AnswerEdge(st.trace, path, depth, NodeLine(depth, path));
    if !AtLimit(depth, st) && g.Key(path) !in st.visited && g.expand(path).Imports? {
      WalkAnswers(g, path, g.expand(path).steps, depth, Enter(g, path, st).Print(NodeLine(depth, path)));
    }
  }

  lemma {:induction false} WalkAnswers(g: Graph, path: string, steps: seq<Step>, depth: nat, st: State)
    requires depth <= DEPTH_LIMIT && Answered(st.trace)
    ensures Answered(Walk(g, path, steps, depth, st).trace)
    decreases Remaining(depth), |steps|
  {
    hide Visit, Awaiting, Answered;
    if steps != [] {
      match steps[0] {
        case BrokenTable => PrintOther(st.trace, TableLine(depth, path));
        case BadEntry => PrintOther(st.trace, SkippedEntry(depth, path));
        case Unresolved(name) => PrintOther(st.trace, UnresolvedLine(depth + 1, name, path));
        case Edge(name, target) =>
          PrintOther(st.trace, EdgeLine(depth + 1, name, target));
          VisitAnswers(g, target, depth + 1, st.Print(EdgeLine(depth + 1, name, target)));
      }
      WalkAnswers(g, path, steps[1..], depth, Take(g, path, steps[0], depth, st));
    }
  }

  /** In every report the line after an EDGE line is the NODE, REVISIT, LIMIT or header-INVALID line of
      the same path and depth, and apart from the first line no such line stands anywhere else. */
  lemma EdgesAreAnswered(g: Graph, root: string)
    ensures Answered(Run(g, root).trace)
  {
    hide Visit;
    VisitAnswers(g, root, 0, START);
  }

  // ----- what the lines say about the import tables -----

  /** The line printed or counted for one step of the import table of `path`. */
  function LineOf(step: Step, depth: nat, path: string): Event {
    match step
    case BrokenTable => TableLine(depth, path)
    case BadEntry => SkippedEntry(depth, path)
    case Unresolved(name) => UnresolvedLine(depth + 1, name, path)
    case Edge(name, target) => EdgeLine(depth + 1, name, target)
  }

  /** The lines of the steps stand at the positions `at`, in this order and all behind `node`. */
  ghost predicate LinesAt(
      trace: seq<Event>, steps: seq<Step>, depth: nat, path: string, node: int, at: seq<nat>) {
    && |at| == |steps|
    && (forall k :: 0 <= k < |at| ==> node < at[k] < |trace| && trace[at[k]] == LineOf(steps[k], depth, path))
    && (forall k, l :: 0 <= k < l < |at| ==> at[k] < at[l])
  }

  /** The steps of the table behind the NODE line at `i` have their lines behind it, in table order. */
  ghost predicate Reported(g: Graph, trace: seq<Event>, i: nat)
    requires i < |trace| && trace[i].NodeLine?
  {
    var node := trace[i];
    && g.expand(node.path).Imports?
    && exists at :: LinesAt(trace, g.expand(node.path).steps, node.depth, node.path, i, at)
  }

  ghost predicate ReportedFrom(g: Graph, trace: seq<Event>, n: nat) {
    forall i :: n <= i < |trace| && trace[i].NodeLine? ==> Reported(g, trace, i)
  }

  /** A line that stands for a step of the table behind some NODE line. */
  ghost predicate Sourced(g: Graph, trace: seq<Event>, e: Event) {
    exists depth, path, step :: NodeLine(depth, path) in trace && g.expand(path).Imports?
      && step in g.expand(path).steps && e == LineOf(step, depth, path)
  }

  ghost predicate AllSourced(g: Graph, trace: seq<Event>) {
    forall e :: e in trace && !IsEntry(e) ==> Sourced(g, trace, e)
  }

  lemma TakePrints(g: Graph, path: string, step: Step, depth: nat, st: State)
    requires depth <= DEPTH_LIMIT
    ensures st.trace + [LineOf(step, depth, path)] <= Take(g, path, step, depth, st).trace
    ensures !step.Edge? ==> st.trace + [LineOf(step, depth, path)] == Take(g, path, step, depth, st).trace
  {
    hide Visit;
    if step.Edge? {
      R.VisitExtends(g, step.target, depth + 1, st.Print(LineOf(step, depth, path)));
    }
  }

  lemma ReportedGrows(g: Graph, trace: seq<Event>, longer: seq<Event>, i: nat)
    requires trace <= longer && i < |trace| && trace[i].NodeLine? && Reported(g, trace, i)
    ensures Reported(g, longer, i)
  {
    var node := trace[i];
    var at :| LinesAt(trace, g.expand(node.path).steps, node.depth, node.path, i, at);
    assert LinesAt(longer, g.expand(node.path).steps, node.depth, node.path, i, at);
  }

  lemma ReportedFromGrows(g: Graph, trace: seq<Event>, longer: seq<Event>, n: nat)
    requires trace <= longer
    requires ReportedFrom(g, trace, n) && ReportedFrom(g, longer, |trace|)
    ensures ReportedFrom(g, longer, n)
  {
    hide Reported;
    forall i | n <= i < |longer| && longer[i].NodeLine? ensures Reported(g, longer, i) {
      if i < |trace| {
        ReportedGrows(g, trace, longer, i);
      }
    }
  }

  lemma {:induction false} VisitReports(g: Graph, path: string, depth: nat, st: State)
    ensures ReportedFrom(g, Visit(g, path, depth, st).trace, |st.trace|)
    decreases Remaining(depth)
  {
    hide Walk, LinesAt;
    if !AtLimit(depth, st) && g.Key(path) !in st.visited && g.expand(path).Imports? {
      var entered := Enter(g, path, st).Print(NodeLine(depth, path));
      var at := WalkReports(g, path, g.expand(path).steps, depth, entered);
      R.WalkExtends(g, path, g.expand(path).steps, depth, entered);
      assert entered.trace[|st.trace|] == NodeLine(depth, path);
    }
  }

  lemma OneMoreLine(
      trace: seq<Event>, steps: seq<Step>, depth: nat, path: string, start: nat, last: int, rest: seq<nat>)
    requires steps != [] && start <= last && start < |trace| && trace[start] == LineOf(steps[0], depth, path)
    requires LinesAt(trace, steps[1..], depth, path, last, rest)
    ensures LinesAt(trace, steps, depth, path, start - 1, [start] + rest)
  {
    hide LineOf;
  }

  lemma {:induction false} WalkReports(g: Graph, path: string, steps: seq<Step>, depth: nat, st: State)
    returns (at: seq<nat>)
    requires depth <= DEPTH_LIMIT
    ensures ReportedFrom(g, Walk(g, path, steps, depth, st).trace, |st.trace|)
    ensures LinesAt(Walk(g, path, steps, depth, st).trace, steps, depth, path, |st.trace| - 1, at)
    decreases Remaining(depth), |steps|
  {
    at := [];
    if steps != [] {
      hide Visit, Reported, LineOf, LinesAt;
      var line := LineOf(steps[0], depth, path);
      var next, r := Take(g, path, steps[0], depth, st), Walk(g, path, steps, depth, st);
      TakePrints(g, path, steps[0], depth, st);
      at := WalkReports(g, path, steps[1..], depth, next);
      R.WalkExtends(g, path, steps[1..], depth, next);
      StepReports(g, path, steps[0], depth, st);
      ReportedFromGrows(g, next.trace, r.trace, |st.trace|);
      assert |next.trace| > |st.trace| && next.trace[|st.trace|] == line;
      assert r.trace[|st.trace|] == line;
      OneMoreLine(r.trace, steps, depth, path, |st.trace|, |next.trace| - 1, at);
      at := [|st.trace|] + at;
    }
  }

  lemma StepReports(g: Graph, path: string, step: Step, depth: nat, st: State)
    requires depth <= DEPTH_LIMIT
    ensures ReportedFrom(g, Take(g, path, step, depth, st).trace, |st.trace|)
    decreases Remaining(depth), 0
  {
    hide Visit;
    TakePrints(g, path, step, depth, st);
    if step.Edge? {
      VisitReports(g, step.target, depth + 1, st.Print(LineOf(step, depth, path)));
    }
  }

  lemma SourcedGrows(g: Graph, trace: seq<Event>, e: Event)
    requires AllSourced(g, trace)
    requires IsEntry(e) || Sourced(g, trace, e)
    ensures AllSourced(g, trace + [e])
  {
    var longer := trace + [e];
    forall x | x in longer && !IsEntry(x) ensures Sourced(g, longer, x) {
      assert Sourced(g, trace, x);
      var depth, path, step :| NodeLine(depth, path) in trace && g.expand(path).Imports?
        && step in g.expand(path).steps && x == LineOf(step, depth, path);
      assert NodeLine(depth, path) in longer;
    }
  }

  lemma StaysPrinted(trace: seq<Event>, longer: seq<Event>, e: Event)
    requires trace <= longer && e in trace
    ensures e in longer
  {
  }

  lemma {:induction false} VisitIsSourced(g: Graph, path: string, depth: nat, st: State)
    requires AllSourced(g, st.trace)
    ensures AllSourced(g, Visit(g, path, depth, st).trace)
    decreases Remaining(depth)
  {
    hide Walk, AllSourced, Sourced;
    SourcedGrows(g, st.trace, LimitLine(depth, st.nodes, path));
    SourcedGrows(g, st.trace, RevisitLine(depth, path));
    SourcedGrows(g, st.trace, HeaderLine(depth, path));
    SourcedGrows(g, st.trace, NodeLine(depth, path));
    if !AtLimit(depth, st) && g.Key(path) !in st.visited && g.expand(path).Imports? {
      WalkIsSourced(g, path, g.expand(path).steps, depth, Enter(g, path, st).Print(NodeLine(depth, path)));
    }
  }

  lemma {:induction false} WalkIsSourced(g: Graph, path: string, steps: seq<Step>, depth: nat, st: State)
    requires depth <= DEPTH_LIMIT && AllSourced(g, st.trace) && NodeLine(depth, path) in st.trace
    requires g.expand(path).Imports? && forall s :: s in steps ==> s in g.expand(path).steps
    ensures AllSourced(g, Walk(g, path, steps, depth, st).trace)
    decreases Remaining(depth), |steps|
  {
    hide Visit, AllSourced;
    if steps != [] {
      var line := LineOf(steps[0], depth, path);
      TakePrints(g, path, steps[0], depth, st);
      assert steps[0] in g.expand(path).steps;
      assert Sourced(g, st.trace, line);
      SourcedGrows(g, st.trace, line);
      if steps[0].Edge? {
        VisitIsSourced(g, steps[0].target, depth + 1, st.Print(line));
      }
      StaysPrinted(st.trace + [line], Take(g, path, steps[0], depth, st).trace, NodeLine(depth, path));
      WalkIsSourced(g, path, steps[1..], depth, Take(g, path, steps[0], depth, st));
    }
  }

  /** The report and the import tables say the same: the steps of the table behind each NODE line have
      their lines behind it, one each and in table order, and every line that is no entry stands for
      such a step. */
  lemma LinesAreImports(g: Graph, root: string)
    ensures var trace := Run(g, root).trace;
      forall i :: 0 <= i < |trace| && trace[i].NodeLine? ==> Reported(g, trace, i)
    ensures forall e :: e in Run(g, root).trace && !IsEntry(e) ==> Sourced(g, Run(g, root).trace, e)
  {
    hide Visit, Reported, Sourced, IsEntry;
    VisitReports(g, root, 0, START);
    VisitIsSourced(g, root, 0, START);
  }

  // ----- what the entry lines say -----

  /** The keys of the modules opened so far. */
  ghost function Opened(g: Graph, trace: seq<Event>): set<string> {
    set e | e in trace && (e.NodeLine? || e.HeaderLine?) :: g.Key(e.path)
  }

  ghost function OpenCount(trace: seq<Event>): nat {
    Tally(trace).node + Tally(trace).header
  }

  /** What a line says on entering a path, given the lines before it: one too deep or with all nodes spent
      is refused, one opened before is not opened again, and any other is opened. */
  ghost predicate TrueEntry(g: Graph, before: seq<Event>, e: Event) {
    match e
    case LimitLine(depth, nodes, _) => nodes == OpenCount(before) && (depth >= 33 || nodes >= 512)
    case RevisitLine(depth, path) => depth <= 32 && OpenCount(before) < 512 && g.Key(path) in Opened(g, before)
    case HeaderLine(depth, path) =>
      depth <= 32 && OpenCount(before) < 512 && g.Key(path) !in Opened(g, before) && g.expand(path).BadHeader?
    case NodeLine(depth, path) =>
      depth <= 32 && OpenCount(before) < 512 && g.Key(path) !in Opened(g, before) && g.expand(path).Imports?
    case _ => true
  }

  ghost predicate TrueEntries(g: Graph, trace: seq<Event>) {
    forall i :: 0 <= i < |trace| ==> TrueEntry(g, trace[..i], trace[i])
  }

  /** All entry lines are true, and the state holds what they say. */
  ghost predicate Faithful(g: Graph, st: State) {
    TrueEntries(g, st.trace) && st.visited == Opened(g, st.trace) && st.nodes == OpenCount(st.trace)
  }

  lemma PrintTrue(g: Graph, trace: seq<Event>, e: Event)
    requires TrueEntries(g, trace) && TrueEntry(g, trace, e)
    ensures TrueEntries(g, trace + [e])
    ensures Opened(g, trace + [e]) ==
      if e.NodeLine? || e.HeaderLine? then Opened(g, trace) + {g.Key(e.path)} else Opened(g, trace)
    ensures OpenCount(trace + [e]) == OpenCount(trace) + if e.NodeLine? || e.HeaderLine? then 1 else 0
  {
    hide TrueEntry, Tally;
    TallyAppend(trace, e);
    var longer := trace + [e];
    forall i | 0 <= i < |longer| ensures TrueEntry(g, longer[..i], longer[i]) {
      assert longer[..i] == if i < |trace| then trace[..i] else trace;
    }
  }

  lemma {:induction false} VisitIsFaithful(g: Graph, path: string, depth: nat, st: State)
    requires Faithful(g, st)
    ensures Faithful(g, Visit(g, path, depth, st))
    decreases Remaining(depth)
  {
    hide Walk, Opened, OpenCount, TrueEntries;
    var line := if AtLimit(depth, st) then LimitLine(depth, st.nodes, path)
      else if g.Key(path) in st.visited then RevisitLine(depth, path)
      else if g.expand(path).BadHeader? then HeaderLine(depth, path) else NodeLine(depth, path);
    PrintTrue(g, st.trace, line);
    if line.NodeLine? {
      WalkIsFaithful(g, path, g.expand(path).steps, depth, Enter(g, path, st).Print(line));
    }
  }

  lemma {:induction false} WalkIsFaithful(g: Graph, path: string, steps: seq<Step>, depth: nat, st: State)
    requires depth <= DEPTH_LIMIT && Faithful(g, st)
    ensures Faithful(g, Walk(g, path, steps, depth, st))
    decreases Remaining(depth), |steps|
  {
    hide Visit, Opened, OpenCount, TrueEntries;
    if steps != [] {
      var line := LineOf(steps[0], depth, path);
      PrintTrue(g, st.trace, line);
      if steps[0].Edge? {
        VisitIsFaithful(g, steps[0].target, depth + 1, st.Print(line));
      }
      WalkIsFaithful(g, path, steps[1..], depth, Take(g, path, steps[0], depth, st));
    }
  }

  /** Every entry line of every run is true: LIMIT stands exactly for the visits below depth 32 or after
      512 modules, and shows their number; REVISIT for those of an opened module; and only a module that
      was not opened yet has a NODE or header-INVALID line, whichever its headers call for. */
  lemma EntriesAreTrue(g: Graph, root: string)
    ensures TrueEntries(g, Run(g, root).trace)
    ensures Run(g, root).visited == Opened(g, Run(g, root).trace)
  {
    hide Visit;
    NothingCountedAtStart();
    VisitIsFaithful(g, root, 0, START);
  }
}
