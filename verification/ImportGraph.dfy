/**
  The dependency traversal as a function on an arbitrary, possibly cyclic, import graph,
  and what it guarantees. DependencyTree.dfy proves the stateful traversal of image files
  against this function.
 */
module ImportGraph {
  const DEPTH_LIMIT := 32
  const NODE_LIMIT := 512
  const STEP_LIMIT := 1024

  /** What one import descriptor leads to. A broken table is reported; a bad entry is only counted. */
  datatype Step = BrokenTable | BadEntry | Unresolved(name: string) | Edge(name: string, target: string)

  /** What opening a path yields: headers that are refused, or the steps of its import table. */
  datatype Expansion = BadHeader | Imports(steps: seq<Step>)

  function Fold(lower: char -> char, path: string): string {
    seq(|path|, i requires 0 <= i < |path| => lower(path[i]))
  }

  /** `lower` is the case mapping of one character; `expand` fixes the content behind every path. */
  datatype Graph = Graph(lower: char -> char, expand: string -> Expansion) {
    /** The case-folded identity of a path. */
    function Key(path: string): string {
      Fold(lower, path)
    }
  }

  /** One event per line the traversal prints, and SkippedEntry for the bad entries it only counts.
      A LIMIT line shows depth and node count; its target is the path of the EDGE line before it. */
  datatype Event =
    | NodeLine(depth: nat, path: string)
    | HeaderLine(depth: nat, path: string)
    | RevisitLine(depth: nat, path: string)
    | LimitLine(depth: nat, nodes: nat, target: string)
    | TableLine(depth: nat, path: string)
    | SkippedEntry(depth: nat, path: string)
    | UnresolvedLine(depth: nat, name: string, parent: string)
    | EdgeLine(depth: nat, name: string, path: string)

  /** The state shared by all activations of the traversal, with its output so far. */
  datatype State = State(visited: set<string>, nodes: nat, invalid: nat, missing: nat, trace: seq<Event>) {
    function Print(e: Event): State {
      this.(trace := trace + [e])
    }

    function PrintInvalid(e: Event): State {
      this.(invalid := invalid + 1, trace := trace + [e])
    }
  }

  const START := State({}, 0, 0, 0, [])

  function Remaining(depth: nat): nat {
    if depth > DEPTH_LIMIT then 0 else DEPTH_LIMIT + 1 - depth
  }

  predicate AtLimit(depth: nat, st: State) {
    depth > DEPTH_LIMIT || st.nodes >= NODE_LIMIT
  }

  /** The state in which a path is expanded: its key is recorded and counted. */
  function Enter(g: Graph, path: string, st: State): State {
    st.(visited := st.visited + {g.Key(path)}, nodes := st.nodes + 1)
  }

  function Visit(g: Graph, path: string, depth: nat, st: State): State
    decreases Remaining(depth)
  {
    if AtLimit(depth, st) then st.Print(LimitLine(depth, st.nodes, path))
    else if g.Key(path) in st.visited then st.Print(RevisitLine(depth, path))
    else match g.expand(path)
      case BadHeader => Enter(g, path, st).PrintInvalid(HeaderLine(depth, path))
      case Imports(steps) => Walk(g, path, steps, depth, Enter(g, path, st).Print(NodeLine(depth, path)))
  }

  /** The rest of the import loop of `path`. */
  function Walk(g: Graph, path: string, steps: seq<Step>, depth: nat, st: State): State
    requires depth <= DEPTH_LIMIT
    decreases Remaining(depth), |steps|
  {
    if steps == [] then st
    else Walk(g, path, steps[1..], depth, Take(g, path, steps[0], depth, st))
  }

  function Take(g: Graph, path: string, step: Step, depth: nat, st: State): State
    requires depth <= DEPTH_LIMIT
    decreases Remaining(depth), 0
  {
    match step
    case BrokenTable => st.PrintInvalid(TableLine(depth, path))
    case BadEntry => st.PrintInvalid(SkippedEntry(depth, path))
    case Unresolved(name) =>
      st.(missing := st.missing + 1, trace := st.trace + [UnresolvedLine(depth + 1, name, path)])
    case Edge(name, target) =>
      Visit(g, target, depth + 1, st.Print(EdgeLine(depth + 1, name, target)))
  }

  function Run(g: Graph, root: string): State {
    Visit(g, root, 0, START)
  }

  /** Two paths name the same module exactly when they differ in case only. */
  lemma SameModule(g: Graph, p: string, q: string)
    ensures g.Key(p) == g.Key(q) <==> |p| == |q| && forall i :: 0 <= i < |p| ==> g.lower(p[i]) == g.lower(q[i])
  {
    if g.Key(p) == g.Key(q) {
      assert |g.Key(p)| == |p| && |g.Key(q)| == |q|;
      assert forall i :: 0 <= i < |p| ==> g.Key(p)[i] == g.lower(p[i]) && g.Key(q)[i] == g.lower(q[i]);
    }
  }
}
