/**
  The stateful traversal of the import tree of image files, proved against ImportGraph.Visit,
  and what that gives for a concrete file system.
 */
module DependencyTree {
  import opened Wrappers
  import opened PeImage
  import opened SectionLookup
  import IW = ImportWalk
  import G = ImportGraph
  import R = Reachability
  import Report = TraversalReport

  /** The operating system's answers during one traversal. */
  datatype World = World(
    lower: char -> char,
    content: string -> MappedFile,
    isFile: string -> bool,
    loadedModule: string -> Option<string>,
    systemDirectory: Option<string>,
    appDirectory: string)
  {
    /** Beside the application first, then the loaded module of that name, then the system directory. */
    function Resolve(name: string): Option<string> {
      if isFile(appDirectory + name) then Some(appDirectory + name)
      else if loadedModule(name).Some? then loadedModule(name)
      else if systemDirectory.Some? && isFile(systemDirectory.value + "\\" + name)
      then Some(systemDirectory.value + "\\" + name)
      else None
    }
  }

  /** Import names are widened from signed bytes to 16-bit characters. */
  function Wide(name: IW.ImportName): string {
    seq(|name|, i requires 0 <= i < |name| =>
      if name[i] < 0x80 then name[i] as char else (0xFF00 + name[i] as int) as char)
  }

  predicate IsFileName(name: string) {
    name != "" && '\\' !in name && '/' !in name && ':' !in name
  }

  /** Widening neither makes nor hides a path separator. */
  lemma WideKeepsSeparators(name: IW.ImportName)
    ensures IsFileName(Wide(name)) <==> name != [] && 0x5C !in name && 0x2F !in name && 0x3A !in name
  {
    var w := Wide(name);
    assert |w| == |name|;
    assert forall i :: 0 <= i < |name| ==>
      (w[i] == '\\' <==> name[i] == 0x5C) && (w[i] == '/' <==> name[i] == 0x2F) && (w[i] == ':' <==> name[i] == 0x3A);
    assert forall c :: c in w <==> exists i :: 0 <= i < |name| && w[i] == c;
  }

  function StepOf(w: World, entry: IW.Entry): G.Step {
    match entry
    case BrokenTable => G.BrokenTable
    case BadName => G.BadEntry
    case Name(bytes) =>
      var name := Wide(bytes);
      if !IsFileName(name) then G.BadEntry
      else match w.Resolve(name)
        case None => G.Unresolved(name)
        case Some(target) => G.Edge(name, target)
  }

  function StepsOf(w: World, entries: seq<IW.Entry>): (steps: seq<G.Step>)
    ensures |steps| == |entries|
  {
    if entries == [] then [] else [StepOf(w, entries[0])] + StepsOf(w, entries[1..])
  }

  function Expand(w: World, path: string): G.Expansion {
    match IW.Entries(w.content(path))
    case None => G.BadHeader
    case Some(entries) => G.Imports(StepsOf(w, entries))
  }

  function GraphOf(w: World): G.Graph {
    G.Graph(w.lower, path => Expand(w, path))
  }

  /** The import loop of `path` from descriptor `u` on. */
  ghost function LoopFrom(w: World, path: string, h: Layout, u: nat, depth: nat, st: G.State): G.State
    requires depth <= G.DEPTH_LIMIT
  {
    G.Walk(GraphOf(w), path, StepsOf(w, IW.EntriesFrom(w.content(path), h, u)), depth, st)
  }

  lemma LoopStep(w: World, path: string, h: Layout, u: nat, depth: nat, st: G.State)
    requires depth <= G.DEPTH_LIMIT
    ensures u >= IW.DESCRIPTOR_LIMIT ==> LoopFrom(w, path, h, u, depth, st) == st
    ensures u < IW.DESCRIPTOR_LIMIT ==>
      match IW.TreeStep(w.content(path), h, u)
      case None => LoopFrom(w, path, h, u, depth, st) == st
      case Some(BrokenTable) =>
        LoopFrom(w, path, h, u, depth, st) == G.Take(GraphOf(w), path, G.BrokenTable, depth, st)
      case Some(entry) =>
        LoopFrom(w, path, h, u, depth, st) ==
          LoopFrom(w, path, h, u + 1, depth, G.Take(GraphOf(w), path, StepOf(w, entry), depth, st))
  {
    hide IW.TreeStep, StepOf, G.Take;
    var g, entries := GraphOf(w), IW.EntriesFrom(w.content(path), h, u);
    if u < IW.DESCRIPTOR_LIMIT && IW.TreeStep(w.content(path), h, u).Some? {
      var step := StepOf(w, entries[0]);
      assert StepsOf(w, entries)[1..] == StepsOf(w, entries[1..]);
      assert G.Walk(g, path, StepsOf(w, entries), depth, st)
        == G.Walk(g, path, StepsOf(w, entries[1..]), depth, G.Take(g, path, step, depth, st));
      assert IW.TreeStep(w.content(path), h, u).value != IW.BrokenTable ==>
        entries[1..] == IW.EntriesFrom(w.content(path), h, u + 1);
      assert StepOf(w, IW.BrokenTable) == G.BrokenTable by { StepOfBroken(w); }
    }
  }

  lemma StepOfBroken(w: World)
    ensures StepOf(w, IW.BrokenTable) == G.BrokenTable
  {
  }

  lemma NameStepIsNotBroken(w: World, f: MappedFile, pos: size_t)
    ensures IW.NameEntry(f, pos) != IW.BrokenTable && StepOf(w, IW.NameEntry(f, pos)) != G.BrokenTable
  {
  }

  /** How a visit begins: refused headers, no imports, or the loop. */
  lemma VisitStart(w: World, path: string, depth: nat, st: G.State)
    requires !G.AtLimit(depth, st) && GraphOf(w).Key(path) !in st.visited
    ensures var r := G.Visit(GraphOf(w), path, depth, st);
      var entered := G.Enter(GraphOf(w), path, st);
      match OpenImage(w.content(path))
      case Err(_) => r == entered.PrintInvalid(G.HeaderLine(depth, path))
      case Ok(h) =>
        if !h.Amd64() then r == entered.PrintInvalid(G.HeaderLine(depth, path))
        else if !h.HasImports() then r == entered.Print(G.NodeLine(depth, path))
        else r == LoopFrom(w, path, h, 0, depth, entered.Print(G.NodeLine(depth, path)))
  {
    hide OpenImage, IW.EntriesFrom;
  }

  class Traversal {
    const world: World
    var visited: set<string>
    var nodes: nat
    var invalid: nat
    var missing: nat
    ghost var trace: seq<G.Event>

    ghost function Snapshot(): G.State
      reads this
    {
      G.State(visited, nodes, invalid, missing, trace)
    }

    constructor (world: World)
      ensures this.world == world && Snapshot() == G.START
    {
      this.world := world;
      visited, nodes, invalid, missing, trace := {}, 0, 0, 0, [];
    }

    method Visit(path: string, depth: nat)
      modifies this
      ensures Snapshot() == G.Visit(GraphOf(world), path, depth, old(Snapshot()))
      decreases G.Remaining(depth), 1
    {
      hide OpenImage, LoopFrom;
      ghost var before := Snapshot();
      if depth > G.DEPTH_LIMIT || nodes >= G.NODE_LIMIT {
        trace := trace + [G.LimitLine(depth, nodes, path)];
        return;
      }
      var key := G.Fold(world.lower, path);
      if key in visited {
        trace := trace + [G.RevisitLine(depth, path)];
        return;
      }
      VisitStart(world, path, depth, before);
      visited := visited + {key};
      nodes := nodes + 1;
      var file := world.content(path);
      var image := OpenImage(file);
      if image.Err? || !image.value.Amd64() {
        invalid := invalid + 1;
        trace := trace + [G.HeaderLine(depth, path)];
        return;
      }
      var h: Layout := image.value;
      trace := trace + [G.NodeLine(depth, path)];
      if !h.HasImports() {
        return;
      }
      WalkImports(h, path, file, depth);
    }

    /** The import loop of the visit. */
    method WalkImports(h: Layout, path: string, file: MappedFile, depth: nat)
      requires depth <= G.DEPTH_LIMIT && file == world.content(path)
      modifies this
      ensures Snapshot() == LoopFrom(world, path, h, 0, depth, old(Snapshot()))
      decreases G.Remaining(depth), 0
    {
      hide ToOffset, IW.NameEntry, IW.DescriptorName, StepOf, LoopFrom, G.Visit;
      for u := 0 to IW.DESCRIPTOR_LIMIT
        invariant LoopFrom(world, path, h, 0, depth, old(Snapshot())) == LoopFrom(world, path, h, u, depth, Snapshot())
      {
        LoopStep(world, path, h, u, depth, Snapshot());
        var address := h.importRva + u * IMPORT_DESCRIPTOR_SIZE;
        if address > 0xFFFF_FFFF {
          break;
        }
        var offset := ComputeToOffset(file, h, address, IMPORT_DESCRIPTOR_SIZE);
        var nameRva := IW.DescriptorName(file, offset);
        if nameRva.None? {
          invalid := invalid + 1;
          trace := trace + [G.TableLine(depth, path)];
          break;
        }
        if nameRva.value == 0 {
          break;
        }
        var namePos := ComputeToOffset(file, h, nameRva.value, 1);
        var entry := IW.NameEntry(file, namePos);
        NameStepIsNotBroken(world, file, namePos);
        var step := StepOf(world, entry);
        if step.BadEntry? {
          invalid := invalid + 1;
          trace := trace + [G.SkippedEntry(depth, path)];
          continue;
        }
        if step.Unresolved? {
          trace := trace + [G.UnresolvedLine(depth + 1, step.name, path)];
          missing := missing + 1;
          continue;
        }
        trace := trace + [G.EdgeLine(depth + 1, step.name, step.target)];
        Visit(step.target, depth + 1);
      }
      LoopStep(world, path, h, IW.DESCRIPTOR_LIMIT, depth, Snapshot());
    }
  }

  /** The traversal of a root: its summary counters and the set of visited modules. */
  method ReportDependencyTree(world: World, root: string)
    returns (nodes: nat, invalid: nat, missing: nat, visited: set<string>)
    ensures var r := G.Run(GraphOf(world), root);
      nodes == r.nodes && invalid == r.invalid && missing == r.missing && visited == r.visited
  {
    hide G.Visit;
    var traversal := new Traversal(world);
    traversal.Visit(root, 0);
    return traversal.nodes, traversal.invalid, traversal.missing, traversal.visited;
  }

  /** Import tables of real files obey the descriptor limit, so the work bound applies to every world. */
  lemma TreeWorkBound(w: World, root: string)
    ensures var r := G.Run(GraphOf(w), root);
      && r.nodes <= 512
      && Report.Tally(r.trace).Entries() <= 1 + 512 * 1024
  {
    hide G.Visit;
    var g := GraphOf(w);
    forall path ensures g.expand(path).Imports? ==> |g.expand(path).steps| <= G.STEP_LIMIT {
      if OpenImage(w.content(path)).Ok? {
        IW.EntriesAreBounded(w.content(path), OpenImage(w.content(path)).value, 0);
      }
    }
    Report.WorkBound(g, root);
  }

  /** The file system and the case mapping of the traversal agree on which paths are the same file. */
  ghost predicate FilesIgnoreCase(w: World) {
    forall p, q :: GraphOf(w).Key(p) == GraphOf(w).Key(q) ==> w.content(p) == w.content(q)
  }

  /** On any file system that ignores case, the traversal visits exactly the modules reachable along
      resolved imports if and only if every path a limit refused was visited by another way. */
  lemma TreeIsExact(w: World, root: string)
    requires FilesIgnoreCase(w)
    ensures var g := GraphOf(w);
      (forall key :: key in G.Run(g, root).visited <==> R.Reachable(g, root, key))
      <==> R.CutOff(g, G.Run(g, root)) <= G.Run(g, root).visited
  {
    hide G.Visit;
    R.ExactClosure(GraphOf(w), root);
  }

  /** It does so, whatever is refused, if at most 512 modules are reachable and no path of imports runs
      through more than 33 different ones. */
  lemma ShallowTreeIsExact(w: World, root: string, modules: set<string>)
    requires FilesIgnoreCase(w) && R.WithinLimits(GraphOf(w), root, modules)
    ensures var g := GraphOf(w);
      forall key :: key in G.Run(g, root).visited <==> R.Reachable(g, root, key)
  {
    hide G.Visit, R.WithinLimits;
    R.ExactWithinLimits(GraphOf(w), root, modules);
  }

  /** Up to 33 reachable modules the traversal needs no further assumption to be exact. */
  lemma SmallTreeIsExact(w: World, root: string, modules: set<string>)
    requires FilesIgnoreCase(w)
    requires forall k :: R.Reachable(GraphOf(w), root, k) ==> k in modules
    requires |modules| <= 33
    ensures var g := GraphOf(w);
      forall key :: key in G.Run(g, root).visited <==> R.Reachable(g, root, key)
  {
    hide G.Visit, R.WithinLimits;
    R.SmallGraphIsWithinLimits(GraphOf(w), root, modules);
    ShallowTreeIsExact(w, root, modules);
  }

  // ----- what the report says about the files -----

  /** The characters of the name are the bytes, read as signed numbers and widened to 16 bits. */
  ghost predicate Spells(bytes: IW.ImportName, name: string) {
    && |name| == |bytes|
    && forall i :: 0 <= i < |bytes| ==>
         name[i] as int == (if bytes[i] < 0x80 then bytes[i] as int else bytes[i] as int - 0x100) % 0x1_0000
  }

  lemma WideSpells(bytes: IW.ImportName)
    ensures Spells(bytes, Wide(bytes))
    ensures forall name :: Spells(bytes, name) ==> name == Wide(bytes)
  {
    forall name | Spells(bytes, name) ensures name == Wide(bytes) {
      forall i | 0 <= i < |bytes| ensures name[i] == Wide(bytes)[i] {
        assert name[i] as int == Wide(bytes)[i] as int;
      }
    }
  }

  /** A file name without a directory: bytes, none of them a backslash, slash or colon. */
  ghost predicate IsPlain(bytes: IW.ImportName) {
    bytes != [] && 0x5C !in bytes && 0x2F !in bytes && 0x3A !in bytes
  }

  /** The name is nowhere to be found. */
  ghost predicate Missing(w: World, name: string) {
    && !w.isFile(w.appDirectory + name)
    && w.loadedModule(name).None?
    && (w.systemDirectory.Some? ==> !w.isFile(w.systemDirectory.value + "\\" + name))
  }

  /** The name is found there and at no better place. */
  ghost predicate FoundAt(w: World, name: string, target: string) {
    if w.isFile(w.appDirectory + name) then target == w.appDirectory + name
    else if w.loadedModule(name).Some? then w.loadedModule(name) == Some(target)
    else !Missing(w, name) && target == w.systemDirectory.value + "\\" + name
  }

  /** What the line of a table entry must tell: the entry's name as spelled by its bytes, and where it is. */
  ghost predicate Tells(w: World, e: IW.Entry, depth: nat, path: string, line: G.Event) {
    match e
    case BrokenTable => line == G.TableLine(depth, path)
    case BadName => line == G.SkippedEntry(depth, path)
    case Name(bytes) =>
      if !IsPlain(bytes) then line == G.SkippedEntry(depth, path)
      else if line.UnresolvedLine? then
        line.depth == depth + 1 && line.parent == path && Spells(bytes, line.name) && Missing(w, line.name)
      else
        && line.EdgeLine? && line.depth == depth + 1
        && Spells(bytes, line.name) && !Missing(w, line.name) && FoundAt(w, line.name, line.path)
  }

  lemma LineTells(w: World, e: IW.Entry, depth: nat, path: string)
    ensures Tells(w, e, depth, path, Report.LineOf(StepOf(w, e), depth, path))
  {
    if e.Name? {
      WideSpells(e.name);
      WideKeepsSeparators(e.name);
      hide Wide, IsFileName, Spells;
    }
  }

  lemma {:induction false} StepsOfElements(w: World, entries: seq<IW.Entry>)
    ensures forall k :: 0 <= k < |entries| ==> StepsOf(w, entries)[k] == StepOf(w, entries[k])
  {
    hide StepOf;
    if entries != [] {
      StepsOfElements(w, entries[1..]);
    }
  }

  /** The lines at the positions `at` tell of the entries, in table order and behind the NODE line. */
  ghost predicate TellsAll(
      w: World, trace: seq<G.Event>, entries: seq<IW.Entry>, depth: nat, path: string, node: int, at: seq<nat>) {
    && |at| == |entries|
    && (forall k :: 0 <= k < |at| ==> node < at[k] < |trace| && Tells(w, entries[k], depth, path, trace[at[k]]))
    && (forall k, l :: 0 <= k < l < |at| ==> at[k] < at[l])
  }

  /** The report is complete: behind the NODE line of a module stands, in table order, one line for each
      entry of its import table, with the name its bytes spell and the best place that has it, or
      UNRESOLVED if there is none. */
  lemma ReportIsComplete(w: World, root: string, i: nat)
    requires i < |G.Run(GraphOf(w), root).trace| && G.Run(GraphOf(w), root).trace[i].NodeLine?
    ensures var trace := G.Run(GraphOf(w), root).trace; var node := trace[i];
      && IW.Entries(w.content(node.path)).Some?
      && exists at :: TellsAll(w, trace, IW.Entries(w.content(node.path)).value, node.depth, node.path, i, at)
  {
    hide G.Visit, Tells, StepOf, Report.LineOf, IW.Entries;
    var g := GraphOf(w);
    Report.LinesAreImports(g, root);
    var trace := G.Run(g, root).trace;
    var node := trace[i];
    assert Report.Reported(g, trace, i);
    var entries := IW.Entries(w.content(node.path)).value;
    var at :| Report.LinesAt(trace, g.expand(node.path).steps, node.depth, node.path, i, at);
    StepsOfElements(w, entries);
    forall k | 0 <= k < |at| ensures Tells(w, entries[k], node.depth, node.path, trace[at[k]]) {
      LineTells(w, entries[k], node.depth, node.path);
    }
    assert TellsAll(w, trace, entries, node.depth, node.path, i, at);
  }

  /** The line tells of an entry in the table of the module behind some NODE line. */
  ghost predicate IsTrue(w: World, trace: seq<G.Event>, line: G.Event) {
    exists depth, path, e :: G.NodeLine(depth, path) in trace && IW.Entries(w.content(path)).Some?
      && e in IW.Entries(w.content(path)).value && Tells(w, e, depth, path, line)
  }

  lemma LineIsTrue(w: World, trace: seq<G.Event>, line: G.Event)
    requires Report.Sourced(GraphOf(w), trace, line)
    ensures IsTrue(w, trace, line)
  {
    hide StepOf, IW.Entries, Tells, Report.LineOf;
    var depth, path, step :| G.NodeLine(depth, path) in trace && GraphOf(w).expand(path).Imports?
      && step in GraphOf(w).expand(path).steps && line == Report.LineOf(step, depth, path);
    var entries := IW.Entries(w.content(path)).value;
    StepsOfElements(w, entries);
    var k :| 0 <= k < |entries| && StepsOf(w, entries)[k] == step;
    LineTells(w, entries[k], depth, path);
    assert entries[k] in entries;
  }

  /** The report is true: every line that is no entry line tells, in this way, of an entry in the import
      table of a reported module. */
  lemma ReportIsTrue(w: World, root: string)
    ensures var trace := G.Run(GraphOf(w), root).trace;
      forall line :: line in trace && !Report.IsEntry(line) ==> IsTrue(w, trace, line)
  {
    hide G.Visit, IsTrue, Report.Sourced, Report.IsEntry;
    Report.LinesAreImports(GraphOf(w), root);
    var trace := G.Run(GraphOf(w), root).trace;
    forall line | line in trace && !Report.IsEntry(line) ensures IsTrue(w, trace, line) {
      LineIsTrue(w, trace, line);
    }
  }
}
