/**
 The slicer: a breadth-first, depth-limited walk over the classes a root
 class depends on, a merge of explicitly listed classes, and the text that
 concatenates the collected files.

 The file system and the Java parser with its symbol solver are given as an
 environment: the set of files that exist, what parsing a file yields (the
 fully qualified names its type references resolve to, or nothing when
 parsing fails) and each file's contents.
 */
module Slicer {
  import opened Optional
  import opened Names
  import opened Paths
  import opened Ordering
  import opened Traversal
  import opened Output
  import opened Writer

  /** The file system and the parser, as the slicer sees them. */
  datatype Env = Env(files: set<Path>, parse: Path -> Option<set<string>>, read: Path -> string)

  /** A run's settings: `-root`, the `-source` roots in order, the platform
      separator, `-depth`, and the environment. */
  datatype Config = Config(rootName: string, roots: seq<Path>, sep: char, maxDepth: int, env: Env)

  /** How one call of `findDependencies` ended: it returned after finding
      and enqueueing the dependencies, it returned because the class has no
      file, or it threw (the name cannot be split, or the file does not
      parse). */
  datatype Outcome = Completed | NotFound | Failed

  /** The file `convertQualifiedNameToPath` returns for `name`, or None when
      it returns null or throws. */
  function Located(cfg: Config, name: string): (r: Option<Path>)
    ensures r.Some? ==> r.value in cfg.env.files
  {
    if SplitThrows(name) then None
    else FirstExisting(cfg.roots, cfg.sep, cfg.env.files, RelativePath(name, cfg.sep))
  }

  /** The names the located file of `name` refers to, as the parser resolves
      them; none when there is no file or it does not parse. */
  function Referenced(cfg: Config, name: string): set<string> {
    match Located(cfg, name)
    case None => {}
    case Some(p) =>
      match cfg.env.parse(p)
      case None => {}
      case Some(refs) => refs
  }

  /** The dependencies of `name` that the traversal follows: the referenced
      names outside the JDK's packages. */
  function Deps(cfg: Config, name: string): (r: set<string>)
    ensures forall t :: t in r ==> !IsJdk(t)
  {
    set t | t in Referenced(cfg, name) && !IsJdk(t)
  }

  function DepsOf(cfg: Config): string -> set<string> {
    n => Deps(cfg, n)
  }

  /** Every name any existing file refers to. */
  ghost function AllReferenced(cfg: Config): set<string> {
    set p, t | p in cfg.env.files && cfg.env.parse(p).Some? && t in cfg.env.parse(p).value :: t
  }

  /** The names a traversal can ever meet: finite, as the files are. */
  ghost function Universe(cfg: Config): set<string> {
    {cfg.rootName} + AllReferenced(cfg)
  }

  lemma DepsInUniverse(cfg: Config)
    ensures forall n :: Deps(cfg, n) <= Universe(cfg)
  {
    forall n, t | t in Deps(cfg, n) ensures t in Universe(cfg) {
      var p := Located(cfg, n).value;
      assert t in cfg.env.parse(p).value;
    }
  }

  /** The classes within `-depth` dependency steps of the root. */
  ghost function Closure(cfg: Config): set<string> {
    ClosureWithin(DepsOf(cfg), cfg.rootName, cfg.maxDepth, Universe(cfg))
  }

  /** The entries the traversal records for the processed names: each one
      that has a file, mapped to that file. */
  function TraversalFiles(cfg: Config, processed: set<string>): map<string, Path> {
    map n | n in processed && Located(cfg, n).Some? :: Located(cfg, n).value
  }

  /** The entries after merging the explicitly listed classes into `m`. */
  function Merge(cfg: Config, m: map<string, Path>, names: seq<string>): map<string, Path>
    decreases |names|
  {
    if names == [] then m
    else
      var m' := Merge(cfg, m, names[..|names| - 1]);
      var n := names[|names| - 1];
      if n in m' then m'
      else match Located(cfg, n)
        case None => m'
        case Some(p) => m'[n := p]
  }

  /** The merge keeps every existing entry, adds exactly the listed names
      that have a file, each mapped to its file, and nothing else. */
  lemma {:induction false} MergeSpec(cfg: Config, m: map<string, Path>, names: seq<string>)
    ensures Merge(cfg, m, names).Keys == m.Keys + (set n | n in names && Located(cfg, n).Some?)
    ensures forall k :: k in m ==> Merge(cfg, m, names)[k] == m[k]
    ensures forall k :: k in Merge(cfg, m, names) && k !in m ==> Merge(cfg, m, names)[k] == Located(cfg, k).value
    decreases |names|
  {
    if names != [] {
      var front := names[..|names| - 1];
      MergeSpec(cfg, m, front);
      assert forall n :: n in names <==> n in front || n == names[|names| - 1];
    }
  }

  /** One more listed name: kept out when present or without a file. */
  lemma MergeNext(cfg: Config, m: map<string, Path>, names: seq<string>, i: nat)
    requires i < |names|
    ensures Merge(cfg, m, names[..i + 1])
         == if names[i] in Merge(cfg, m, names[..i]) || Located(cfg, names[i]).None?
            then Merge(cfg, m, names[..i])
            else Merge(cfg, m, names[..i])[names[i] := Located(cfg, names[i]).value]
  {
    assert names[..i + 1][..i] == names[..i];
  }

  /** The output of a whole run. */
  ghost function SliceOutput(cfg: Config, includes: seq<string>): string {
    Render(cfg.rootName, cfg.maxDepth, cfg.roots, cfg.sep, cfg.env.read,
           Merge(cfg, TraversalFiles(cfg, Closure(cfg)), includes))
  }

  class CodebaseSlicer {
    const cfg: Config
    /** Names already processed. */
    var processed: set<string>
    /** The breadth-first work queue. */
    var queue: seq<WorkItem>
    /** Qualified name to file, for every class that goes into the slice. */
    var finalFileSet: map<string, Path>
    /** The processed items, in the order they were processed. */
    ghost var log: seq<WorkItem>

    constructor (cfg: Config)
      ensures this.cfg == cfg
      ensures processed == {} && queue == [] && finalFileSet == map[] && log == []
    {
      this.cfg := cfg;
      processed, queue, finalFileSet := {}, [], map[];
      log := [];
    }

    /** `addWork`: enqueue `name` at `depth` unless it was processed, is too
        deep, or is already queued. */
    method AddWork(name: string, depth: int)
      modifies this`queue
      ensures queue == if name !in processed && depth <= cfg.maxDepth && name !in NamesOf(old(queue))
                       then old(queue) + [WorkItem(name, depth)]
                       else old(queue)
    {
      if name !in processed && depth <= cfg.maxDepth {
        if name !in NamesOf(queue) {
          queue := queue + [WorkItem(name, depth)];
        }
      }
    }

    /** `convertQualifiedNameToPath`: the outer class's file under the
        first root where it exists. Splitting a non-empty name made only of
        `$` yields no part, and taking the first part throws. */
    method ConvertQualifiedNameToPath(name: string) returns (r: Option<Path>, threw: bool)
      ensures threw == SplitThrows(name)
      ensures !threw ==> r == FirstExisting(cfg.roots, cfg.sep, cfg.env.files, RelativePath(name, cfg.sep))
      ensures r == Located(cfg, name)
    {
      if SplitThrows(name) {
        return None, true;
      }
      threw := false;
      var relativePath := RelativePath(name, cfg.sep);
      var i := 0;
      while i < |cfg.roots|
        invariant 0 <= i <= |cfg.roots|
        invariant FirstExisting(cfg.roots, cfg.sep, cfg.env.files, relativePath)
               == FirstExisting(cfg.roots[i..], cfg.sep, cfg.env.files, relativePath)
      {
        var candidate := Resolve(cfg.roots[i], cfg.sep, relativePath);
        if candidate in cfg.env.files {
          return Some(candidate), false;
        }
        assert cfg.roots[i..][1..] == cfg.roots[i + 1..];
        i := i + 1;
      }
      return None, false;
    }

    /** `findDependencies`: record the class's file, then enqueue its
        dependencies one step deeper. The entry is made before parsing, so
        it stays when parsing fails. */
    method FindDependencies(item: WorkItem) returns (outcome: Outcome)
      modifies this`queue, this`finalFileSet
      ensures finalFileSet == if Located(cfg, item.name).Some?
                              then old(finalFileSet)[item.name := Located(cfg, item.name).value]
                              else old(finalFileSet)
      ensures Admitting(old(queue), queue, item.depth + 1, cfg.maxDepth, processed, Referenced(cfg, item.name))
      ensures outcome == NotFound <==> !SplitThrows(item.name) && Located(cfg, item.name).None?
      ensures outcome == Completed <==> Located(cfg, item.name).Some? && cfg.env.parse(Located(cfg, item.name).value).Some?
    {
      var filePath, threw := ConvertQualifiedNameToPath(item.name);
      if threw {
        return Failed;
      }
      if filePath.None? {
        return NotFound;
      }
      finalFileSet := finalFileSet[item.name := filePath.value];
      var parsed := cfg.env.parse(filePath.value);
      if parsed.None? {
        return Failed;
      }
      EnqueueReferenced(parsed.value, item.depth + 1);
      return Completed;
    }

    /** The last loop of `findDependencies`: every referenced name outside
        the JDK's packages goes through `addWork` at the given depth. */
    method EnqueueReferenced(referencedTypes: set<string>, depth: int)
      modifies this`queue
      ensures Admitting(old(queue), queue, depth, cfg.maxDepth, processed, referencedTypes)
    {
      ghost var q0 := queue;
      var remaining := referencedTypes;
      while remaining != {}
        invariant remaining <= referencedTypes
        invariant Admitting(q0, queue, depth, cfg.maxDepth, processed, referencedTypes - remaining)
        decreases |remaining|
      {
        var t :| t in remaining;
        ghost var before := queue;
        if !IsJdk(t) {
          AddWork(t, depth);
        }
        AdmitStep(q0, before, queue, t, depth, cfg.maxDepth, processed, referencedTypes - remaining);
        assert referencedTypes - (remaining - {t}) == (referencedTypes - remaining) + {t};
        remaining := remaining - {t};
      }
    }

    /** What the breadth-first loop keeps: the items seen so far (the
        processed ones, then the queue) satisfy `Trace`, the processed
        names are those of the processed items, and each processed name
        with a file has its entry. */
    ghost predicate Traversing()
      reads this
    {
      && Trace(log + queue, |log|, cfg.rootName, cfg.maxDepth, DepsOf(cfg))
      && processed == NamesOf(log)
      && NamesOf(log + queue) <= Universe(cfg)
      && finalFileSet == TraversalFiles(cfg, processed)
    }

    /** The breadth-first loop of `main`: poll an item, mark it processed,
        find its dependencies, ignoring any failure. */
    method Traverse()
      requires processed == {} && queue == [] && finalFileSet == map[] && log == []
      modifies this
      ensures queue == []
      ensures processed == NamesOf(log) == Closure(cfg)
      ensures Trace(log, |log|, cfg.rootName, cfg.maxDepth, DepsOf(cfg))
      ensures finalFileSet == TraversalFiles(cfg, processed)
      ensures DistinctNames(log) && forall i :: 0 <= i < |log| ==> 0 <= log[i].depth <= cfg.maxDepth
      ensures cfg.maxDepth == 0 ==> log == [WorkItem(cfg.rootName, 0)]
      ensures cfg.maxDepth < 0 ==> log == []
    {
      AddWork(cfg.rootName, 0);
      TraversalStarts(cfg, log, queue, processed, finalFileSet);
      while queue != []
        invariant Traversing()
        decreases |Universe(cfg) - processed|
      {
        ghost var (before, name) := (processed, queue[0].name);
        ProcessNext();
        FewerLeft(Universe(cfg), before, processed, name);
      }
      TraverseDone(cfg, log);
    }

    /** One round of the breadth-first loop. */
    method ProcessNext()
      requires Traversing() && queue != []
      modifies this`queue, this`processed, this`log, this`finalFileSet
      ensures Traversing()
      ensures old(queue[0].name) !in old(processed) && old(queue[0].name) in Universe(cfg)
      ensures processed == old(processed) + {old(queue[0].name)}
      ensures log == old(log) + [old(queue[0])]
      ensures Admitting(old(queue[1..]), queue, old(queue[0].depth) + 1, cfg.maxDepth, processed,
                        Referenced(cfg, old(queue[0].name)))
    {
      ghost var (log0, queue0, files0) := (log, queue, finalFileSet);
      PollStep(cfg, log, queue);
      var item := queue[0];
      queue := queue[1..];
      // the loop's skip test never fires: nothing in the queue is
      // processed already or deeper than the bound
      assert item.depth <= cfg.maxDepth && item.name !in processed;
      processed := processed + {item.name};
      log := log + [item];
      ghost var rest := queue;
      var _ := FindDependencies(item);
      VisitStep(cfg, log0, queue0, files0, item, rest, processed, queue, finalFileSet);
    }

    /** The explicit-inclusion loop of `main`: add each listed class that is
        not yet present and has a file; never enqueue anything. A name whose
        lookup throws ends the loop, and the exception leaves `main`. */
    method IncludeExplicit(names: seq<string>) returns (threw: bool)
      modifies this`finalFileSet
      ensures !threw ==> finalFileSet == Merge(cfg, old(finalFileSet), names)
      ensures !threw ==> forall n :: n in names && SplitThrows(n) ==> n in old(finalFileSet)
      ensures threw ==> exists i :: 0 <= i < |names| && SplitThrows(names[i]) && names[i] !in old(finalFileSet)
                                    && (forall j :: 0 <= j < i && SplitThrows(names[j]) ==> names[j] in old(finalFileSet))
                                    && finalFileSet == Merge(cfg, old(finalFileSet), names[..i])
    {
      for i := 0 to |names|
        invariant finalFileSet == Merge(cfg, old(finalFileSet), names[..i])
        invariant forall n :: n in names[..i] && SplitThrows(n) ==> n in old(finalFileSet)
      {
        var className := names[i];
        MergeNext(cfg, old(finalFileSet), names, i);
        assert names[..i + 1] == names[..i] + [className];
        MergeSpec(cfg, old(finalFileSet), names[..i]);
        if className in finalFileSet {
          continue;
        }
        var filePath, thrown := ConvertQualifiedNameToPath(className);
        if thrown {
          return true;
        }
        if filePath.Some? {
          finalFileSet := finalFileSet[className := filePath.value];
        }
      }
      assert names[..|names|] == names;
      return false;
    }

    /** `writeOutput`: the header, then a block per collected file in
        sorted order, each under its root-relative display path. */
    method WriteOutput() returns (out: string)
      ensures out == Render(cfg.rootName, cfg.maxDepth, cfg.roots, cfg.sep, cfg.env.read, finalFileSet)
    {
      var values := CollectValues(finalFileSet);
      var sortedFiles := Sort(values);
      SortedUnique(sortedFiles, Sort(ValueSeq(finalFileSet)));
      var blocks := RenderBlocks(cfg.roots, cfg.sep, cfg.env.read, sortedFiles);
      out := Header(cfg.rootName, cfg.maxDepth) + blocks;
    }
  }

  /** The items appended to `q0` so far are the dependencies among
      `visited` that `addWork` admitted: each once, all at `depth`. */
  ghost predicate Admitting(q0: seq<WorkItem>, queue: seq<WorkItem>, depth: int, maxDepth: int,
                            processed: set<string>, visited: set<string>)
  {
    && |queue| >= |q0| && queue[..|q0|] == q0
    && DistinctNames(queue[|q0|..])
    && NamesOf(queue[|q0|..]) == (if depth <= maxDepth
                                 then (set t | t in visited && !IsJdk(t)) - processed - NamesOf(q0)
                                 else {})
    && (forall w :: w in queue[|q0|..] ==> w.depth == depth)
  }

  /** What `findDependencies` enqueues: referenced names outside the JDK's
      packages, neither processed nor queued before, one step deeper and
      within the bound; and, when that step is allowed, every such name. */
  lemma Admitted(q0: seq<WorkItem>, queue: seq<WorkItem>, depth: int, maxDepth: int,
                 processed: set<string>, visited: set<string>)
    requires Admitting(q0, queue, depth, maxDepth, processed, visited)
    ensures forall w :: w in queue[|q0|..] ==>
              && w.name in visited && !IsJdk(w.name) && w.name !in processed && w.name !in NamesOf(q0)
              && w.depth == depth <= maxDepth
    ensures depth <= maxDepth ==>
              forall t :: t in visited && !IsJdk(t) && t !in processed && t !in NamesOf(q0) ==>
                exists w :: w in queue[|q0|..] && w.name == t
  {
    var added := queue[|q0|..];
    forall w | w in added
      ensures w.name in visited && !IsJdk(w.name) && w.name !in processed && w.name !in NamesOf(q0)
      ensures w.depth <= maxDepth
    {
      assert w.name in NamesOf(added);
    }
    if depth <= maxDepth {
      forall t | t in visited && !IsJdk(t) && t !in processed && t !in NamesOf(q0)
        ensures exists w :: w in added && w.name == t
      {
        assert t in NamesOf(added);
      }
    }
  }

  /** Visiting one more referenced name keeps `Admitting`. */
  lemma AdmitStep(q0: seq<WorkItem>, before: seq<WorkItem>, after: seq<WorkItem>, t: string, depth: int,
                  maxDepth: int, processed: set<string>, visited: set<string>)
    requires Admitting(q0, before, depth, maxDepth, processed, visited)
    requires t !in visited
    requires after == if !IsJdk(t) && t !in processed && depth <= maxDepth && t !in NamesOf(before)
                      then before + [WorkItem(t, depth)]
                      else before
    ensures Admitting(q0, after, depth, maxDepth, processed, visited + {t})
  {
    var tail := before[|q0|..];
    assert before == q0 + tail;
    NamesOfAppend(q0, tail);
    if after == before {
      AdmitSkip(q0, before, t, depth, maxDepth, processed, visited);
    } else {
      AdmitAppend(q0, before, t, depth, maxDepth, processed, visited);
    }
  }

  /** A name `addWork` turns away was not new. */
  lemma AdmitSkip(q0: seq<WorkItem>, before: seq<WorkItem>, t: string, depth: int,
                  maxDepth: int, processed: set<string>, visited: set<string>)
    requires Admitting(q0, before, depth, maxDepth, processed, visited)
    requires t !in visited
    requires NamesOf(before) == NamesOf(q0) + NamesOf(before[|q0|..])
    requires IsJdk(t) || t in processed || depth > maxDepth || t in NamesOf(before)
    ensures Admitting(q0, before, depth, maxDepth, processed, visited + {t})
  {
    var admitted := set u | u in visited && !IsJdk(u);
    var admitted' := set u | u in visited + {t} && !IsJdk(u);
    if depth <= maxDepth {
      if !IsJdk(t) && t !in processed {
        assert t in NamesOf(q0);
      }
      assert admitted' - processed - NamesOf(q0) == admitted - processed - NamesOf(q0);
    }
  }

  /** A name `addWork` accepts is new, and appending it keeps the
      appended names distinct. */
  lemma AdmitAppend(q0: seq<WorkItem>, before: seq<WorkItem>, t: string, depth: int,
                    maxDepth: int, processed: set<string>, visited: set<string>)
    requires Admitting(q0, before, depth, maxDepth, processed, visited)
    requires t !in visited
    requires NamesOf(before) == NamesOf(q0) + NamesOf(before[|q0|..])
    requires !IsJdk(t) && t !in processed && depth <= maxDepth && t !in NamesOf(before)
    ensures Admitting(q0, before + [WorkItem(t, depth)], depth, maxDepth, processed, visited + {t})
  {
    var tail, after := before[|q0|..], before + [WorkItem(t, depth)];
    assert after[..|q0|] == q0;
    assert after[|q0|..] == tail + [WorkItem(t, depth)];
    NamesOfAppend(tail, [WorkItem(t, depth)]);
  }

  /** The head of the queue is unprocessed and within the bound, and
      polling it keeps the order of everything seen. */
  lemma PollStep(cfg: Config, log: seq<WorkItem>, queue: seq<WorkItem>)
    requires Trace(log + queue, |log|, cfg.rootName, cfg.maxDepth, DepsOf(cfg))
    requires NamesOf(log + queue) <= Universe(cfg)
    requires queue != []
    ensures queue[0].depth <= cfg.maxDepth && queue[0].name !in NamesOf(log)
    ensures queue[0].name in Universe(cfg)
    ensures (log + [queue[0]]) + queue[1..] == log + queue
  {
    var seen := log + queue;
    assert seen[|log|] == queue[0];
    forall w | w in log ensures w.name != queue[0].name {
      var k :| 0 <= k < |log| && log[k] == w;
      assert seen[k] == w;
    }
  }

  /** Polling the head of the queue, processing it and appending what
      `findDependencies` admitted keeps the traversal's invariant. */
  lemma VisitStep(cfg: Config, log: seq<WorkItem>, queue: seq<WorkItem>, files: map<string, Path>,
                  item: WorkItem, rest: seq<WorkItem>, processed: set<string>,
                  queue': seq<WorkItem>, files': map<string, Path>)
    requires queue != [] && item == queue[0] && rest == queue[1..]
    requires Trace(log + queue, |log|, cfg.rootName, cfg.maxDepth, DepsOf(cfg))
    requires NamesOf(log + queue) <= Universe(cfg)
    requires files == TraversalFiles(cfg, NamesOf(log))
    requires processed == NamesOf(log) + {item.name}
    requires Admitting(rest, queue', item.depth + 1, cfg.maxDepth, processed, Referenced(cfg, item.name))
    requires files' == if Located(cfg, item.name).Some?
                       then files[item.name := Located(cfg, item.name).value]
                       else files
    ensures Trace((log + [item]) + queue', |log| + 1, cfg.rootName, cfg.maxDepth, DepsOf(cfg))
    ensures processed == NamesOf(log + [item])
    ensures NamesOf((log + [item]) + queue') <= Universe(cfg)
    ensures files' == TraversalFiles(cfg, processed)
  {
    VisitTrace(cfg, log, queue, item, rest, processed, queue');
    VisitUniverse(cfg, log, queue, item, rest, processed, queue');
    NamesOfAppend(log, [item]);
    TraversalFilesAdd(cfg, NamesOf(log), item.name);
  }

  /** The items `findDependencies` appends are the step `TraceStep` takes. */
  lemma VisitTrace(cfg: Config, log: seq<WorkItem>, queue: seq<WorkItem>,
                   item: WorkItem, rest: seq<WorkItem>, processed: set<string>, queue': seq<WorkItem>)
    requires queue != [] && item == queue[0] && rest == queue[1..]
    requires Trace(log + queue, |log|, cfg.rootName, cfg.maxDepth, DepsOf(cfg))
    requires processed == NamesOf(log) + {item.name}
    requires Admitting(rest, queue', item.depth + 1, cfg.maxDepth, processed, Referenced(cfg, item.name))
    ensures Trace((log + [item]) + queue', |log| + 1, cfg.rootName, cfg.maxDepth, DepsOf(cfg))
  {
    var seen, added := log + queue, queue'[|rest|..];
    assert queue' == rest + added;
    assert (log + [item]) + queue' == seen + added;
    assert seen[|log|] == item;
    assert (log + [item]) + rest == seen;
    NamesOfAppend(log + [item], rest);
    NamesOfAppend(log, [item]);
    assert DepsOf(cfg)(item.name) == Deps(cfg, item.name);
    assert StepAdds(seen, |log|, added, cfg.maxDepth, DepsOf(cfg));
    TraceStep(seen, |log|, added, cfg.rootName, cfg.maxDepth, DepsOf(cfg));
  }

  /** The names `findDependencies` appends stay within the universe. */
  lemma VisitUniverse(cfg: Config, log: seq<WorkItem>, queue: seq<WorkItem>,
                      item: WorkItem, rest: seq<WorkItem>, processed: set<string>, queue': seq<WorkItem>)
    requires queue != [] && item == queue[0] && rest == queue[1..]
    requires NamesOf(log + queue) <= Universe(cfg)
    requires Admitting(rest, queue', item.depth + 1, cfg.maxDepth, processed, Referenced(cfg, item.name))
    ensures NamesOf((log + [item]) + queue') <= Universe(cfg)
  {
    var added := queue'[|rest|..];
    assert queue' == rest + added;
    assert (log + [item]) + queue' == (log + queue) + added;
    NamesOfAppend(log + queue, added);
    DepsInUniverse(cfg);
    assert NamesOf(added) <= Deps(cfg, item.name);
  }

  /** The queue holding just the root, or nothing when the bound is
      negative, starts the invariant. */
  lemma TraversalStarts(cfg: Config, log: seq<WorkItem>, queue: seq<WorkItem>, processed: set<string>,
                        files: map<string, Path>)
    requires log == [] && processed == {} && files == map[]
    requires queue == if cfg.rootName !in processed && 0 <= cfg.maxDepth && cfg.rootName !in NamesOf([])
                      then [] + [WorkItem(cfg.rootName, 0)]
                      else []
    ensures Trace(log + queue, |log|, cfg.rootName, cfg.maxDepth, DepsOf(cfg))
    ensures processed == NamesOf(log)
    ensures NamesOf(log + queue) <= Universe(cfg)
    ensures files == TraversalFiles(cfg, processed)
  {
    assert NamesOf([]) == {};
    TraceStart(cfg.rootName, cfg.maxDepth, DepsOf(cfg));
    if 0 <= cfg.maxDepth {
      assert log + queue == [WorkItem(cfg.rootName, 0)];
    } else {
      assert log + queue == [];
    }
  }

  /** An empty queue means the processed names are the closure. */
  lemma TraverseDone(cfg: Config, log: seq<WorkItem>)
    requires Trace(log + [], |log|, cfg.rootName, cfg.maxDepth, DepsOf(cfg))
    ensures Trace(log, |log|, cfg.rootName, cfg.maxDepth, DepsOf(cfg))
    ensures NamesOf(log) == Closure(cfg)
    ensures DistinctNames(log) && forall i :: 0 <= i < |log| ==> 0 <= log[i].depth <= cfg.maxDepth
    ensures cfg.maxDepth == 0 ==> log == [WorkItem(cfg.rootName, 0)]
    ensures cfg.maxDepth < 0 ==> log == []
  {
    assert log + [] == log;
    if cfg.maxDepth == 0 {
      DepthZeroOnlyRoot(log, |log|, cfg.rootName, DepsOf(cfg));
    }
    DepsInUniverse(cfg);
    TraceClosure(log, cfg.rootName, cfg.maxDepth, DepsOf(cfg), Universe(cfg));
  }

  /** Processing a new name of the universe leaves fewer to process. */
  lemma FewerLeft(universe: set<string>, before: set<string>, after: set<string>, name: string)
    requires name in universe && name !in before && after == before + {name}
    ensures |universe - after| < |universe - before|
  {
    assert universe - before == (universe - after) + {name};
  }

  /** Processing one more name adds its entry when it has a file. */
  lemma TraversalFilesAdd(cfg: Config, processed: set<string>, name: string)
    ensures TraversalFiles(cfg, processed + {name})
         == if Located(cfg, name).Some?
            then TraversalFiles(cfg, processed)[name := Located(cfg, name).value]
            else TraversalFiles(cfg, processed)
  {
  }

  /** `main` from the start of the analysis on: traverse from the root, merge
      the `-include` classes, and produce the output text; nothing is
      written when an included name makes the lookup throw. */
  method Slice(cfg: Config, includes: seq<string>) returns (out: Option<string>)
    ensures out == if exists n :: n in includes && SplitThrows(n) then None
                   else Some(SliceOutput(cfg, includes))
  {
    var slicer := new CodebaseSlicer(cfg);
    slicer.Traverse();
    var threw := slicer.IncludeExplicit(includes);
    if threw {
      return None;
    }
    var text := slicer.WriteOutput();
    return Some(text);
  }
}
