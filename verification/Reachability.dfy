/**
  What a traversal visits: exactly the reachable modules, unless a limit cuts it off.
 */
module Reachability {
  import opened ImportGraph

  ghost predicate Imported(g: Graph, parent: string, target: string) {
    g.expand(parent).Imports? && exists name :: Edge(name, target) in g.expand(parent).steps
  }

  /** A path of imports from the root; its length in edges is |c| - 1. */
  ghost predicate Chain(g: Graph, root: string, c: seq<string>) {
    && |c| > 0
    && c[0] == root
    && forall i :: 0 < i < |c| ==> Imported(g, c[i - 1], c[i])
  }

  ghost predicate ChainTo(g: Graph, root: string, c: seq<string>, key: string) {
    Chain(g, root, c) && g.Key(c[|c| - 1]) == key
  }

  /** The module is reachable from the root along resolved imports. */
  ghost predicate Reachable(g: Graph, root: string, key: string) {
    exists c :: ChainTo(g, root, c, key)
  }

  ghost predicate ReachableWithin(g: Graph, root: string, key: string, edges: nat) {
    exists c :: ChainTo(g, root, c, key) && |c| <= edges + 1
  }

  /** The keys of the paths at which a LIMIT line was printed. */
  ghost function CutOff(g: Graph, st: State): set<string> {
    set e | e in st.trace && e.LimitLine? :: g.Key(e.target)
  }

  /** The file system ignores case: paths with the same key have the same content. */
  ghost predicate CaseInsensitive(g: Graph) {
    forall p, q :: g.Key(p) == g.Key(q) ==> g.expand(p) == g.expand(q)
  }

  // ----- growth -----

  ghost predicate Extends(st: State, st': State) {
    st.visited <= st'.visited && st.trace <= st'.trace
  }

  lemma {:induction false} VisitExtends(g: Graph, path: string, depth: nat, st: State)
    ensures Extends(st, Visit(g, path, depth, st))
    decreases Remaining(depth)
  {
    hide Walk;
    if !AtLimit(depth, st) && g.Key(path) !in st.visited && g.expand(path).Imports? {
      WalkExtends(g, path, g.expand(path).steps, depth, Enter(g, path, st).Print(NodeLine(depth, path)));
    }
  }

  lemma {:induction false} WalkExtends(g: Graph, path: string, steps: seq<Step>, depth: nat, st: State)
    requires depth <= DEPTH_LIMIT
    ensures Extends(st, Walk(g, path, steps, depth, st))
    decreases Remaining(depth), |steps|
  {
    hide Visit;
    if steps != [] {
      if steps[0].Edge? {
        VisitExtends(g, steps[0].target, depth + 1, st.Print(EdgeLine(depth + 1, steps[0].name, steps[0].target)));
      }
      WalkExtends(g, path, steps[1..], depth, Take(g, path, steps[0], depth, st));
    }
  }

  lemma LimitLinesCutOff(g: Graph, st: State)
    ensures forall e :: e in st.trace && e.LimitLine? ==> g.Key(e.target) in CutOff(g, st)
  {
  }

  lemma CutOffGrows(g: Graph, st: State, st': State)
    requires Extends(st, st')
    ensures CutOff(g, st) <= CutOff(g, st')
  {
  }

  // ----- every visited module is reachable -----

  ghost predicate SoundFrom(g: Graph, root: string, st: State) {
    && (forall k :: k in st.visited ==> ReachableWithin(g, root, k, DEPTH_LIMIT))
    && (forall k :: k in CutOff(g, st) ==> Reachable(g, root, k))
  }

  lemma {:induction false} VisitIsSound(g: Graph, root: string, c: seq<string>, path: string, depth: nat, st: State)
    requires Chain(g, root, c) && |c| == depth + 1 && c[depth] == path
    requires SoundFrom(g, root, st)
    ensures SoundFrom(g, root, Visit(g, path, depth, st))
    decreases Remaining(depth)
  {
    hide Walk;
    assert ChainTo(g, root, c, g.Key(path));
    if !AtLimit(depth, st) && g.Key(path) !in st.visited && g.expand(path).Imports? {
      var entered := Enter(g, path, st).Print(NodeLine(depth, path));
      WalkIsSound(g, root, c, path, g.expand(path).steps, depth, entered);
    }
  }

  lemma {:induction false} WalkIsSound(
      g: Graph, root: string, c: seq<string>, path: string, steps: seq<Step>, depth: nat, st: State)
    requires Chain(g, root, c) && |c| == depth + 1 && c[depth] == path && depth <= DEPTH_LIMIT
    requires g.expand(path).Imports? && forall s :: s in steps ==> s in g.expand(path).steps
    requires SoundFrom(g, root, st)
    ensures SoundFrom(g, root, Walk(g, path, steps, depth, st))
    decreases Remaining(depth), |steps|
  {
    hide Visit;
    if steps != [] {
      if steps[0].Edge? {
        var target := steps[0].target;
        assert Edge(steps[0].name, target) in g.expand(path).steps;
        assert Imported(g, path, target);
        VisitIsSound(g, root, c + [target], target, depth + 1,
          st.Print(EdgeLine(depth + 1, steps[0].name, target)));
      }
      WalkIsSound(g, root, c, path, steps[1..], depth, Take(g, path, steps[0], depth, st));
    }
  }

  /** With or without limits, every visited module is reachable along at most 32 imports. */
  lemma VisitedIsReachable(g: Graph, root: string, key: string)
    requires key in Run(g, root).visited
    ensures ReachableWithin(g, root, key, 32)
  {
    hide Visit;
    VisitIsSound(g, root, [root], root, 0, START);
  }

  // ----- nothing reachable is missed except behind a cut-off -----

  ghost predicate Covered(g: Graph, st: State, path: string) {
    g.Key(path) in st.visited || g.Key(path) in CutOff(g, st)
  }

  /** Every path whose key was added since `before` has all its imports covered. */
  ghost predicate ClosedSince(g: Graph, before: set<string>, st: State) {
    forall p, t :: g.Key(p) in st.visited && g.Key(p) !in before && Imported(g, p, t) ==> Covered(g, st, t)
  }

  lemma {:induction false} VisitCloses(g: Graph, path: string, depth: nat, st: State)
    requires CaseInsensitive(g)
    ensures var r := Visit(g, path, depth, st);
      Extends(st, r) && Covered(g, r, path) && ClosedSince(g, st.visited, r)
    decreases Remaining(depth)
  {
    hide Walk;
    var r := Visit(g, path, depth, st);
    VisitExtends(g, path, depth, st);
    if AtLimit(depth, st) {
      assert r.trace[|st.trace|] == LimitLine(depth, st.nodes, path);
    } else if g.Key(path) !in st.visited && g.expand(path).Imports? {
      var entered := Enter(g, path, st).Print(NodeLine(depth, path));
      WalkExtends(g, path, g.expand(path).steps, depth, entered);
      WalkCloses(g, path, g.expand(path).steps, depth, entered);
    }
  }

  lemma {:induction false} WalkCloses(g: Graph, path: string, steps: seq<Step>, depth: nat, st: State)
    requires CaseInsensitive(g) && depth <= DEPTH_LIMIT
    ensures var r := Walk(g, path, steps, depth, st);
      && Extends(st, r)
      && ClosedSince(g, st.visited, r)
      && (forall name, target :: Edge(name, target) in steps ==> Covered(g, r, target))
    decreases Remaining(depth), |steps|
  {
    hide Visit;
    if steps != [] {
      var next := Take(g, path, steps[0], depth, st);
      if steps[0].Edge? {
        VisitCloses(g, steps[0].target, depth + 1, st.Print(EdgeLine(depth + 1, steps[0].name, steps[0].target)));
      }
      WalkCloses(g, path, steps[1..], depth, next);
      CutOffGrows(g, next, Walk(g, path, steps[1..], depth, next));
    }
  }

  lemma {:induction false} ChainIsCovered(g: Graph, root: string, c: seq<string>, st: State)
    requires Chain(g, root, c)
    requires Covered(g, st, root) && ClosedSince(g, {}, st) && CutOff(g, st) <= st.visited
    ensures g.Key(c[|c| - 1]) in st.visited
    decreases |c|
  {
    if |c| > 1 {
      var shorter := c[..|c| - 1];
      ChainIsCovered(g, root, shorter, st);
      assert Imported(g, c[|c| - 2], c[|c| - 1]);
    }
  }

  /** The visited set is the reachable set exactly when every path at which a limit fired was
      visited by another way. */
  lemma ExactClosure(g: Graph, root: string)
    requires CaseInsensitive(g)
    ensures (forall key :: key in Run(g, root).visited <==> Reachable(g, root, key))
      <==> CutOff(g, Run(g, root)) <= Run(g, root).visited
  {
    hide Visit;
    var r := Run(g, root);
    VisitIsSound(g, root, [root], root, 0, START);
    VisitCloses(g, root, 0, START);
    if CutOff(g, r) <= r.visited {
      forall key | Reachable(g, root, key) ensures key in r.visited {
        var c :| ChainTo(g, root, c, key);
        ChainIsCovered(g, root, c, r);
      }
    }
  }

  /** Without a LIMIT line the traversal is exact. */
  lemma ExactWithoutLimit(g: Graph, root: string, key: string)
    requires CaseInsensitive(g)
    requires forall e :: e in Run(g, root).trace ==> !e.LimitLine?
    ensures key in Run(g, root).visited <==> Reachable(g, root, key)
  {
    hide Visit;
    ExactClosure(g, root);
    assert CutOff(g, Run(g, root)) == {};
  }

  // ----- small graphs are never cut off -----

  lemma {:induction false} VisitWithoutLimit(
      g: Graph, root: string, c: seq<string>, path: string, depth: nat, st: State, modules: set<string>)
    requires forall k :: Reachable(g, root, k) ==> k in modules
    requires |modules| <= DEPTH_LIMIT
    requires Chain(g, root, c) && |c| == depth + 1 && c[depth] == path
    requires st.visited <= modules && depth <= |st.visited| == st.nodes
    ensures var r := Visit(g, path, depth, st);
      r.visited <= modules && |r.visited| == r.nodes && CutOff(g, r) == CutOff(g, st)
    decreases Remaining(depth)
  {
    hide Walk;
    assert ChainTo(g, root, c, g.Key(path));
    SubsetSize(st.visited, modules);
    if g.Key(path) !in st.visited && g.expand(path).Imports? {
      var entered := Enter(g, path, st).Print(NodeLine(depth, path));
      WalkWithoutLimit(g, root, c, path, g.expand(path).steps, depth, entered, modules);
    }
  }

  lemma {:induction false} WalkWithoutLimit(
      g: Graph, root: string, c: seq<string>, path: string, steps: seq<Step>, depth: nat, st: State,
      modules: set<string>)
    requires forall k :: Reachable(g, root, k) ==> k in modules
    requires |modules| <= DEPTH_LIMIT
    requires Chain(g, root, c) && |c| == depth + 1 && c[depth] == path && depth <= DEPTH_LIMIT
    requires g.expand(path).Imports? && forall s :: s in steps ==> s in g.expand(path).steps
    requires st.visited <= modules && depth < |st.visited| == st.nodes
    ensures var r := Walk(g, path, steps, depth, st);
      r.visited <= modules && |r.visited| == r.nodes && CutOff(g, r) == CutOff(g, st)
    decreases Remaining(depth), |steps|
  {
    hide Visit;
    if steps != [] {
      var next := Take(g, path, steps[0], depth, st);
      if steps[0].Edge? {
        var target := steps[0].target;
        assert Edge(steps[0].name, target) in g.expand(path).steps;
        assert Imported(g, path, target);
        var printed := st.Print(EdgeLine(depth + 1, steps[0].name, target));
        VisitWithoutLimit(g, root, c + [target], target, depth + 1, printed, modules);
        VisitExtends(g, target, depth + 1, printed);
        SubsetSize(st.visited, next.visited);
      }
      WalkWithoutLimit(g, root, c, path, steps[1..], depth, next, modules);
    }
  }

  lemma SubsetSize<T>(a: set<T>, b: set<T>)
    requires a <= b
    ensures |a| <= |b|
  {
    assert b == a + (b - a);
  }

  /** When at most 32 modules are reachable neither limit ever fires. */
  lemma NoFalseCutOff(g: Graph, root: string, modules: set<string>)
    requires forall k :: Reachable(g, root, k) ==> k in modules
    requires |modules| <= 32
    ensures forall e :: e in Run(g, root).trace ==> !e.LimitLine?
    ensures CaseInsensitive(g) ==> forall key :: key in Run(g, root).visited <==> Reachable(g, root, key)
  {
    hide Visit;
    VisitWithoutLimit(g, root, [root], root, 0, START, modules);
    var r := Run(g, root);
    assert CutOff(g, r) == {};
    LimitLinesCutOff(g, r);
    if CaseInsensitive(g) {
      ExactClosure(g, root);
    }
  }

  // ----- the traversal is exact when no chain of different modules is too long -----

  /** A path of imports on which no module comes twice. */
  ghost predicate SimpleChain(g: Graph, root: string, c: seq<string>) {
    Chain(g, root, c) && forall i, j :: 0 <= i < j < |c| ==> g.Key(c[i]) != g.Key(c[j])
  }

  /** At most 512 modules are reachable, and at most 33 of them along a path without repetition. */
  ghost predicate WithinLimits(g: Graph, root: string, modules: set<string>) {
    && (forall k :: Reachable(g, root, k) ==> k in modules)
    && |modules| <= 512
    && (forall c :: SimpleChain(g, root, c) ==> |c| <= 33)
  }

  /** Whatever was refused so far was visited by another way. */
  ghost predicate NothingMissed(g: Graph, st: State, modules: set<string>) {
    st.visited <= modules && |st.visited| == st.nodes && CutOff(g, st) <= st.visited
  }

  /** A module that was not visited yet is never at a limit. */
  lemma NewModuleIsWithinLimits(
      g: Graph, root: string, c: seq<string>, path: string, depth: nat, st: State, modules: set<string>)
    requires WithinLimits(g, root, modules) && NothingMissed(g, st, modules)
    requires SimpleChain(g, root, c) && |c| == depth + 1 && c[depth] == path
    requires g.Key(path) !in st.visited
    ensures g.Key(path) in modules && !AtLimit(depth, st)
  {
    assert ChainTo(g, root, c, g.Key(path));
    SubsetSize(st.visited + {g.Key(path)}, modules);
  }

  lemma CutOffPrint(g: Graph, st: State, e: Event)
    ensures CutOff(g, st.Print(e)) == if e.LimitLine? then CutOff(g, st) + {g.Key(e.target)} else CutOff(g, st)
    ensures CutOff(g, st.PrintInvalid(e)) == CutOff(g, st.Print(e))
  {
  }

  lemma StepMissesNothing(g: Graph, path: string, step: Step, depth: nat, st: State, modules: set<string>)
    requires depth <= DEPTH_LIMIT && !step.Edge? && NothingMissed(g, st, modules)
    ensures NothingMissed(g, Take(g, path, step, depth, st), modules)
    ensures Take(g, path, step, depth, st).visited == st.visited
  {
    hide CutOff;
    CutOffPrint(g, st, TableLine(depth, path));
    CutOffPrint(g, st, SkippedEntry(depth, path));
    if step.Unresolved? {
      var line := UnresolvedLine(depth + 1, step.name, path);
      CutOffPrint(g, st.(missing := st.missing + 1), line);
      assert CutOff(g, st.(missing := st.missing + 1)) == CutOff(g, st) by { MissingIsNoCutOff(g, st); }
    }
  }

  lemma MissingIsNoCutOff(g: Graph, st: State)
    ensures CutOff(g, st.(missing := st.missing + 1)) == CutOff(g, st)
    ensures forall k, n :: CutOff(g, st.(visited := st.visited + {k}, nodes := n)) == CutOff(g, st)
  {
  }

  lemma LongerSimpleChain(g: Graph, root: string, c: seq<string>, visited: set<string>)
    requires Chain(g, root, c)
    requires |c| > 1 ==> SimpleChain(g, root, c[..|c| - 1])
    requires forall i :: 0 <= i < |c| - 1 ==> g.Key(c[i]) in visited
    requires g.Key(c[|c| - 1]) !in visited
    ensures SimpleChain(g, root, c)
  {
    assert forall i :: 0 <= i < |c| - 1 ==> c[..|c| - 1][i] == c[i];
  }

  lemma {:induction false} VisitMissesNothing(
      g: Graph, root: string, c: seq<string>, path: string, depth: nat, st: State, modules: set<string>)
    requires WithinLimits(g, root, modules) && NothingMissed(g, st, modules)
    requires Chain(g, root, c) && |c| == depth + 1 && c[depth] == path
    requires depth > 0 ==> SimpleChain(g, root, c[..depth])
    requires forall i :: 0 <= i < depth ==> g.Key(c[i]) in st.visited
    ensures NothingMissed(g, Visit(g, path, depth, st), modules)
    decreases Remaining(depth)
  {
    hide Walk, CutOff, WithinLimits, SimpleChain, Chain;
    CutOffPrint(g, st, LimitLine(depth, st.nodes, path));
    CutOffPrint(g, st, RevisitLine(depth, path));
    if g.Key(path) !in st.visited {
      LongerSimpleChain(g, root, c, st.visited);
      NewModuleIsWithinLimits(g, root, c, path, depth, st, modules);
      var entered := Enter(g, path, st);
      MissingIsNoCutOff(g, st);
      CutOffPrint(g, entered, HeaderLine(depth, path));
      CutOffPrint(g, entered, NodeLine(depth, path));
      if g.expand(path).Imports? {
        WalkMissesNothing(g, root, c, path, g.expand(path).steps, depth, entered.Print(NodeLine(depth, path)), modules);
      }
    }
  }

  lemma {:induction false} WalkMissesNothing(
      g: Graph, root: string, c: seq<string>, path: string, steps: seq<Step>, depth: nat, st: State,
      modules: set<string>)
    requires WithinLimits(g, root, modules) && NothingMissed(g, st, modules)
    requires SimpleChain(g, root, c) && |c| == depth + 1 && c[depth] == path && depth <= DEPTH_LIMIT
    requires g.expand(path).Imports? && forall s :: s in steps ==> s in g.expand(path).steps
    requires forall i :: 0 <= i <= depth ==> g.Key(c[i]) in st.visited
    ensures NothingMissed(g, Walk(g, path, steps, depth, st), modules)
    decreases Remaining(depth), |steps|
  {
    hide Visit, WithinLimits, CutOff;
    if steps != [] {
      var next := Take(g, path, steps[0], depth, st);
      if steps[0].Edge? {
        var target := steps[0].target;
        assert Edge(steps[0].name, target) in g.expand(path).steps;
        assert Imported(g, path, target);
        var line := EdgeLine(depth + 1, steps[0].name, target);
        CutOffPrint(g, st, line);
        assert (c + [target])[..depth + 1] == c;
        VisitMissesNothing(g, root, c + [target], target, depth + 1, st.Print(line), modules);
        VisitExtends(g, target, depth + 1, st.Print(line));
      } else {
        StepMissesNothing(g, path, steps[0], depth, st, modules);
      }
      WalkMissesNothing(g, root, c, path, steps[1..], depth, next, modules);
    }
  }

  /** Within the limits the visited set is the reachable set, whatever LIMIT lines are printed. */
  lemma ExactWithinLimits(g: Graph, root: string, modules: set<string>)
    requires CaseInsensitive(g) && WithinLimits(g, root, modules)
    ensures forall key :: key in Run(g, root).visited <==> Reachable(g, root, key)
  {
    hide Visit;
    VisitMissesNothing(g, root, [root], root, 0, START, modules);
    ExactClosure(g, root);
  }

  ghost function Keys(g: Graph, c: seq<string>): set<string> {
    if c == [] then {} else Keys(g, c[..|c| - 1]) + {g.Key(c[|c| - 1])}
  }

  lemma {:induction false} DifferentKeys(g: Graph, root: string, c: seq<string>, modules: set<string>)
    requires forall i, j :: 0 <= i < j < |c| ==> g.Key(c[i]) != g.Key(c[j])
    requires forall i :: 0 <= i < |c| ==> g.Key(c[i]) in modules
    ensures |Keys(g, c)| == |c| && Keys(g, c) <= modules
    ensures forall k :: k in Keys(g, c) ==> exists i :: 0 <= i < |c| && g.Key(c[i]) == k
  {
    if c != [] {
      DifferentKeys(g, root, c[..|c| - 1], modules);
    }
  }

  lemma ChainModulesAreReachable(g: Graph, root: string, c: seq<string>, i: nat)
    requires Chain(g, root, c) && i < |c|
    ensures Reachable(g, root, g.Key(c[i]))
  {
    assert ChainTo(g, root, c[..i + 1], g.Key(c[i]));
  }

  /** A graph of at most 33 modules is within the limits. */
  lemma SmallGraphIsWithinLimits(g: Graph, root: string, modules: set<string>)
    requires forall k :: Reachable(g, root, k) ==> k in modules
    requires |modules| <= 33
    ensures WithinLimits(g, root, modules)
  {
    forall c | SimpleChain(g, root, c) ensures |c| <= 33 {
      forall i | 0 <= i < |c| ensures g.Key(c[i]) in modules {
        ChainModulesAreReachable(g, root, c, i);
      }
      DifferentKeys(g, root, c, modules);
      SubsetSize(Keys(g, c), modules);
    }
  }

  // ----- both limits are sharp -----

  /** The name of module `i` in the examples. */
  function Name(i: nat): string {
    seq(i, _ => 'x')
  }

  ghost function Names(n: nat): set<string> {
    if n == 0 then {} else Names(n - 1) + {Name(n - 1)}
  }

  lemma {:induction false} NamesElements(n: nat)
    ensures |Names(n)| == n
    ensures forall i: nat :: Name(i) in Names(n) <==> i < n
  {
    if n > 0 {
      NamesElements(n - 1);
      assert forall i: nat :: |Name(i)| == i;
    }
  }

  lemma NamesStep(i: nat)
    ensures Name(i) !in Names(i)
    ensures Names(i + 1) == Names(i) + {Name(i)}
  {
    NamesElements(i);
  }

  function AfterInRow(last: string, i: nat): string {
    if i < DEPTH_LIMIT then Name(i + 1) else last
  }

  /** The first 33 modules import each other in turn, the last of them imports `last`. */
  ghost predicate IsRow(g: Graph, last: string) {
    forall i: nat :: i <= DEPTH_LIMIT ==>
      g.Key(Name(i)) == Name(i) && g.expand(Name(i)) == Imports([Edge("", AfterInRow(last, i))])
  }

  lemma SingleImport(g: Graph, path: string, name: string, target: string, depth: nat, st: State)
    requires g.expand(path) == Imports([Edge(name, target)])
    requires !AtLimit(depth, st) && g.Key(path) !in st.visited
    ensures Visit(g, path, depth, st) == Visit(g, target, depth + 1,
      Enter(g, path, st).Print(NodeLine(depth, path)).Print(EdgeLine(depth + 1, name, target)))
  {
    var steps := [Edge(name, target)];
    var entered := Enter(g, path, st).Print(NodeLine(depth, path));
    var taken := Take(g, path, steps[0], depth, entered);
    assert Visit(g, path, depth, st) == Walk(g, path, steps, depth, entered);
    assert steps[1..] == [];
    assert Walk(g, path, [], depth, taken) == taken;
  }

  lemma LimitFires(g: Graph, path: string, depth: nat, st: State)
    requires AtLimit(depth, st)
    ensures Visit(g, path, depth, st).visited == st.visited
    ensures exists e :: e in Visit(g, path, depth, st).trace && e.LimitLine?
  {
    assert Visit(g, path, depth, st).trace[|st.trace|] == LimitLine(depth, st.nodes, path);
  }

  lemma RowStep(g: Graph, last: string, i: nat)
    requires IsRow(g, last) && i <= DEPTH_LIMIT
    ensures g.Key(Name(i)) == Name(i)
    ensures g.expand(Name(i)) == Imports([Edge("", AfterInRow(last, i))])
  {
    hide Name;
  }

  /** The traversal of a row visits 33 modules and is then refused at the depth limit. */
  lemma {:induction false} RowIsCutOff(g: Graph, last: string, i: nat, st: State)
    requires IsRow(g, last)
    requires i <= DEPTH_LIMIT && st.visited == Names(i) && st.nodes == i
    ensures var r := Visit(g, Name(i), i, st);
      r.visited == Names(DEPTH_LIMIT + 1) && exists e :: e in r.trace && e.LimitLine?
    decreases DEPTH_LIMIT - i
  {
    NamesStep(i);
    RowStep(g, last, i);
    hide Visit, Walk, Names, Name, IsRow;
    var path := Name(i);
    var target := AfterInRow(last, i);
    var printed := Enter(g, path, st).Print(NodeLine(i, path)).Print(EdgeLine(i + 1, "", target));
    SingleImport(g, path, "", target, i, st);
    if i < DEPTH_LIMIT {
      RowIsCutOff(g, last, i + 1, printed);
    } else {
      LimitFires(g, target, i + 1, printed);
    }
  }

  /** A ring of 33 modules. */
  const Ring := Graph(c => c, path => Imports([Edge("", Name(if |path| < 32 then |path| + 1 else 0))]))

  /** A chain of 34 modules. */
  const Row := Graph(c => c, path => Imports(if |path| <= 32 then [Edge("", Name(|path| + 1))] else []))

  lemma RingIsRow()
    ensures IsRow(Ring, "")
  {
    assert Name(0) == "";
  }

  lemma RowIsRow()
    ensures IsRow(Row, Name(33))
  {
  }

  lemma {:induction false} RingChain(c: seq<string>)
    requires Chain(Ring, "", c)
    ensures c[|c| - 1] in Names(33)
    decreases |c|
  {
    NamesElements(33);
    hide Names;
    if |c| > 1 {
      RingChain(c[..|c| - 1]);
      assert Imported(Ring, c[|c| - 2], c[|c| - 1]);
    } else {
      assert Name(0) == "";
    }
  }

  lemma RingModules(k: string)
    requires Reachable(Ring, "", k)
    ensures k in Names(33)
  {
    var c :| ChainTo(Ring, "", c, k);
    RingChain(c);
    assert Ring.Key(c[|c| - 1]) == c[|c| - 1];
  }

  lemma NoCase()
    ensures CaseInsensitive(Ring) && Name(0) == ""
  {
    forall p, q | Ring.Key(p) == Ring.Key(q) ensures p == q {
      assert Ring.Key(p) == p && Ring.Key(q) == q;
    }
  }

  /** With 33 reachable modules the depth limit can fire, although the traversal is still exact. */
  lemma BoundIsTight()
    ensures |Names(33)| == 33
    ensures forall k :: Reachable(Ring, "", k) ==> k in Names(33)
    ensures exists e :: e in Run(Ring, "").trace && e.LimitLine?
    ensures forall k :: k in Run(Ring, "").visited <==> Reachable(Ring, "", k)
  {
    RingIsRow();
    NoCase();
    NamesElements(33);
    hide Names, Visit, Reachable, IsRow, Name, CaseInsensitive;
    forall k | Reachable(Ring, "", k) ensures k in Names(33) {
      RingModules(k);
    }
    RowIsCutOff(Ring, "", 0, START);
    SmallGraphIsWithinLimits(Ring, "", Names(33));
    ExactWithinLimits(Ring, "", Names(33));
  }

  lemma RowChain() returns (c: seq<string>)
    ensures ChainTo(Row, "", c, Name(33)) && |c| == 34
  {
    c := seq(34, i requires 0 <= i => Name(i));
    assert Name(0) == "";
    forall i | 0 < i < |c| ensures Imported(Row, c[i - 1], c[i]) {
      assert Edge("", c[i]) in Row.expand(c[i - 1]).steps;
    }
    assert Row.Key(c[|c| - 1]) == Name(33);
  }

  /** With a chain of 34 modules the traversal is not exact: the last one is reachable and missed. */
  lemma DepthLimitMisses()
    ensures Reachable(Row, "", Name(33))
    ensures Name(33) !in Run(Row, "").visited
  {
    RowIsRow();
    NoCase();
    var c := RowChain();
    NamesElements(33);
    hide Names, Visit, IsRow, Name;
    RowIsCutOff(Row, Name(33), 0, START);
  }

  /** One module that imports 512 others. */
  const Star := Graph(c => c, path => Imports(if path == "" then StarSteps(0) else []))

  /** The imports of the root from `Name(i + 1)` on. */
  function StarSteps(i: nat): seq<Step>
    requires i <= 512
    decreases 512 - i
  {
    if i == 512 then [] else [Edge("", Name(i + 1))] + StarSteps(i + 1)
  }

  lemma {:induction false} LastOfStar(i: nat)
    requires i < 512
    ensures Edge("", Name(512)) in StarSteps(i)
    decreases 512 - i
  {
    hide Name;
    if i + 1 < 512 {
      LastOfStar(i + 1);
    }
  }

  lemma StarLeaf(i: nat, depth: nat, st: State)
    requires 0 < i && !AtLimit(depth, st) && Name(i) !in st.visited
    ensures var r := Visit(Star, Name(i), depth, st);
      r.visited == st.visited + {Name(i)} && r.nodes == st.nodes + 1
  {
    assert Star.Key(Name(i)) == Name(i) && |Name(i)| == i;
    assert Star.expand(Name(i)) == Imports([]);
  }

  lemma {:induction false} StarIsCutOff(i: nat, st: State)
    requires i < 512 && st.visited == Names(i + 1) && st.nodes == i + 1
    ensures Walk(Star, "", StarSteps(i), 0, st).visited == Names(512)
    decreases 512 - i
  {
    NamesStep(i + 1);
    var steps := StarSteps(i);
    assert steps[0] == Edge("", Name(i + 1)) && steps[1..] == StarSteps(i + 1);
    var printed := st.Print(EdgeLine(1, "", Name(i + 1)));
    var next := Visit(Star, Name(i + 1), 1, printed);
    assert Take(Star, "", steps[0], 0, st) == next;
    assert Walk(Star, "", steps, 0, st) == Walk(Star, "", steps[1..], 0, next);
    if i + 1 < 512 {
      hide Visit, Walk, Names, StarSteps, Name;
      StarLeaf(i + 1, 1, printed);
      StarIsCutOff(i + 1, next);
    } else {
      LimitFires(Star, Name(i + 1), 1, printed);
    }
  }

  lemma LastOfStarIsReachable()
    ensures Reachable(Star, "", Name(512))
  {
    LastOfStar(0);
    var c := ["", Name(512)];
    hide Name, StarSteps;
    assert Imported(Star, c[0], c[1]);
    assert Star.Key(c[1]) == c[1];
    assert ChainTo(Star, "", c, Name(512));
  }

  lemma StarStart(entered: State)
    requires entered == Enter(Star, "", START).Print(NodeLine(0, ""))
    ensures Run(Star, "") == Walk(Star, "", StarSteps(0), 0, entered)
    ensures entered.visited == {""}
  {
    hide Walk, StarSteps;
    assert Star.Key("") == "";
  }

  /** With 513 modules the traversal is not exact either, however short the chains are. */
  lemma NodeLimitMisses()
    ensures Reachable(Star, "", Name(512))
    ensures Name(512) !in Run(Star, "").visited
  {
    LastOfStarIsReachable();
    NamesElements(512);
    NamesStep(0);
    NoCase();
    assert Names(0) == {};
    var entered := Enter(Star, "", START).Print(NodeLine(0, ""));
    StarStart(entered);
    hide Visit, Walk, StarSteps, Names, Name, Reachable;
    StarIsCutOff(0, entered);
  }
}
