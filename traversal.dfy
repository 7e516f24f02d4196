/**
 The breadth-first traversal seen as the sequence of work items in the order
 they were admitted to the queue. The processed items are a prefix of it and
 the queue is the rest, so polling an item and marking it processed leaves
 the sequence as it was, and enqueueing only appends to it.

 `Trace` is the invariant the traversal keeps; the lemmas below derive from it
 that a finished traversal processed exactly the classes within `maxDepth`
 dependency steps of the root, each once, at its shortest distance.
 */
module Traversal {

  /** A class waiting to be processed and its distance from the root. */
  datatype WorkItem = WorkItem(name: string, depth: int)

  function NamesOf(s: seq<WorkItem>): set<string> {
    set w | w in s :: w.name
  }

  lemma NamesOfAppend(a: seq<WorkItem>, b: seq<WorkItem>)
    ensures NamesOf(a + b) == NamesOf(a) + NamesOf(b)
  {
    assert forall w :: w in a + b <==> w in a || w in b;
  }

  ghost predicate DistinctNames(s: seq<WorkItem>) {
    forall i, j :: 0 <= i < j < |s| ==> s[i].name != s[j].name
  }

  /** `n` is reached from `root` in exactly `k` dependency steps. */
  ghost predicate Reach(deps: string -> set<string>, root: string, n: string, k: nat)
    decreases k
  {
    if k == 0 then n == root else exists m :: Reach(deps, root, m, k - 1) && n in deps(m)
  }

  /** `n` is reached from `root` in at most `maxDepth` steps. */
  ghost predicate WithinReach(deps: string -> set<string>, root: string, maxDepth: int, n: string) {
    exists k: nat :: k <= maxDepth && Reach(deps, root, n, k)
  }

  /** The names of `universe` within `maxDepth` steps of `root`. */
  ghost function ClosureWithin(deps: string -> set<string>, root: string, maxDepth: int, universe: set<string>): set<string> {
    set n | n in universe && WithinReach(deps, root, maxDepth, n)
  }

  /** `seen[i]` was enqueued as a dependency of an earlier, processed item,
      one step deeper. */
  ghost predicate HasParent(seen: seq<WorkItem>, done: nat, i: nat, deps: string -> set<string>)
    requires i < |seen|
  {
    exists j :: 0 <= j < done && j < i && seen[i].name in deps(seen[j].name) && seen[i].depth == seen[j].depth + 1
  }

  ghost predicate AllHaveParents(seen: seq<WorkItem>, done: nat, deps: string -> set<string>) {
    forall i :: 0 < i < |seen| ==> HasParent(seen, done, i, deps)
  }

  /** Processing `seen[j]` enqueued or had already seen, no deeper than one
      step below it, each of its dependencies when that step is allowed. */
  ghost predicate Explored(seen: seq<WorkItem>, j: nat, maxDepth: int, deps: string -> set<string>)
    requires j < |seen|
  {
    seen[j].depth + 1 <= maxDepth ==>
      forall n :: n in deps(seen[j].name) ==>
        exists k :: 0 <= k < |seen| && seen[k].name == n && seen[k].depth <= seen[j].depth + 1
  }

  /** The traversal invariant, for items `seen` of which the first `done`
      were processed. */
  ghost predicate Trace(seen: seq<WorkItem>, done: nat, root: string, maxDepth: int, deps: string -> set<string>) {
    && done <= |seen|
    && DistinctNames(seen)
    && (|seen| > 0 <==> maxDepth >= 0)
    && (|seen| > 0 ==> seen[0] == WorkItem(root, 0))
    && (forall i :: 0 <= i < |seen| ==> 0 <= seen[i].depth <= maxDepth)
    && (forall i, k :: 0 <= i <= k < |seen| ==> seen[i].depth <= seen[k].depth)
    && AllHaveParents(seen, done, deps)
    && (forall j :: 0 <= j < done ==> Explored(seen, j, maxDepth, deps))
  }

  /** The traversal starts with the root, at depth 0, when 0 is within the
      bound, and with nothing otherwise. */
  lemma TraceStart(root: string, maxDepth: int, deps: string -> set<string>)
    ensures maxDepth >= 0 ==> Trace([WorkItem(root, 0)], 0, root, maxDepth, deps)
    ensures maxDepth < 0 ==> Trace([], 0, root, maxDepth, deps)
  {
  }

  /** What processing `seen[done]` appends: its dependencies not yet seen,
      each once, one step deeper, or nothing when that step is beyond
      `maxDepth`. */
  ghost predicate StepAdds(seen: seq<WorkItem>, done: nat, added: seq<WorkItem>, maxDepth: int, deps: string -> set<string>)
    requires done < |seen|
  {
    && DistinctNames(added)
    && NamesOf(added) == (if seen[done].depth + 1 <= maxDepth then deps(seen[done].name) - NamesOf(seen) else {})
    && forall w :: w in added ==> w.depth == seen[done].depth + 1
  }

  /** Processing the next item keeps the invariant. */
  lemma TraceStep(seen: seq<WorkItem>, done: nat, added: seq<WorkItem>,
                  root: string, maxDepth: int, deps: string -> set<string>)
    requires Trace(seen, done, root, maxDepth, deps)
    requires done < |seen|
    requires StepAdds(seen, done, added, maxDepth, deps)
    ensures Trace(seen + added, done + 1, root, maxDepth, deps)
  {
    StepBound(seen, done, root, maxDepth, deps);
    StepDistinct(seen, done, added, maxDepth, deps);
    StepDepths(seen, done, added, root, maxDepth, deps);
    StepParents(seen, done, added, root, maxDepth, deps);
    StepExplored(seen, done, added, root, maxDepth, deps);
  }

  /** Every item seen so far is at most one step below the one processed next. */
  lemma StepBound(seen: seq<WorkItem>, done: nat, root: string, maxDepth: int, deps: string -> set<string>)
    requires Trace(seen, done, root, maxDepth, deps)
    requires done < |seen|
    ensures forall i :: 0 <= i < |seen| ==> seen[i].depth <= seen[done].depth + 1
  {
    forall i | 0 < i < |seen| ensures seen[i].depth <= seen[done].depth + 1 {
      assert HasParent(seen, done, i, deps);
      var j :| 0 <= j < done && j < i && seen[i].name in deps(seen[j].name) && seen[i].depth == seen[j].depth + 1;
    }
  }

  lemma StepDistinct(seen: seq<WorkItem>, done: nat, added: seq<WorkItem>, maxDepth: int, deps: string -> set<string>)
    requires DistinctNames(seen)
    requires done < |seen|
    requires StepAdds(seen, done, added, maxDepth, deps)
    ensures DistinctNames(seen + added)
  {
    var s := seen + added;
    forall i, j | 0 <= i < j < |s| ensures s[i].name != s[j].name {
      if j >= |seen| && i < |seen| {
        assert s[j] == added[j - |seen|];
        assert s[j].name in NamesOf(added);
        assert s[i].name in NamesOf(seen);
      } else if i >= |seen| {
        assert s[i] == added[i - |seen|] && s[j] == added[j - |seen|];
      }
    }
  }

  lemma StepDepths(seen: seq<WorkItem>, done: nat, added: seq<WorkItem>,
                   root: string, maxDepth: int, deps: string -> set<string>)
    requires Trace(seen, done, root, maxDepth, deps)
    requires done < |seen|
    requires StepAdds(seen, done, added, maxDepth, deps)
    requires forall i :: 0 <= i < |seen| ==> seen[i].depth <= seen[done].depth + 1
    ensures forall i :: 0 <= i < |seen + added| ==> 0 <= (seen + added)[i].depth <= maxDepth
    ensures forall i, k :: 0 <= i <= k < |seen + added| ==> (seen + added)[i].depth <= (seen + added)[k].depth
  {
    var s := seen + added;
    if added != [] {
      assert added[0] in added;
      assert added[0].name in NamesOf(added);
    }
    forall i | 0 <= i < |s| ensures 0 <= s[i].depth <= maxDepth {
      if i >= |seen| {
        assert s[i] == added[i - |seen|];
      }
    }
    forall i, k | 0 <= i <= k < |s| ensures s[i].depth <= s[k].depth {
      if k >= |seen| {
        assert s[k] == added[k - |seen|];
        if i >= |seen| {
          assert s[i] == added[i - |seen|];
        }
      }
    }
  }

  lemma StepParents(seen: seq<WorkItem>, done: nat, added: seq<WorkItem>,
                    root: string, maxDepth: int, deps: string -> set<string>)
    requires Trace(seen, done, root, maxDepth, deps)
    requires done < |seen|
    requires StepAdds(seen, done, added, maxDepth, deps)
    ensures AllHaveParents(seen + added, done + 1, deps)
  {
    var s := seen + added;
    var done' := done + 1;
    forall i | 0 < i < |s| ensures HasParent(s, done', i, deps) {
      if i < |seen| {
        assert HasParent(seen, done, i, deps);
        var j :| 0 <= j < done && j < i && seen[i].name in deps(seen[j].name) && seen[i].depth == seen[j].depth + 1;
        assert s[i] == seen[i] && s[j] == seen[j];
      } else {
        assert s[i] == added[i - |seen|];
        assert s[i] in added;
        assert s[i].name in NamesOf(added);
        assert s[done] == seen[done];
      }
    }
  }

  lemma StepExplored(seen: seq<WorkItem>, done: nat, added: seq<WorkItem>,
                     root: string, maxDepth: int, deps: string -> set<string>)
    requires Trace(seen, done, root, maxDepth, deps)
    requires done < |seen|
    requires StepAdds(seen, done, added, maxDepth, deps)
    requires forall i :: 0 <= i < |seen| ==> seen[i].depth <= seen[done].depth + 1
    ensures forall j :: 0 <= j < done + 1 ==> Explored(seen + added, j, maxDepth, deps)
  {
    var s := seen + added;
    var d := seen[done].depth;
    forall j | 0 <= j < done + 1 ensures Explored(s, j, maxDepth, deps) {
      assert s[j] == seen[j];
      if j < done {
        assert Explored(seen, j, maxDepth, deps);
        if seen[j].depth + 1 <= maxDepth {
          forall n | n in deps(seen[j].name)
            ensures exists k :: 0 <= k < |s| && s[k].name == n && s[k].depth <= s[j].depth + 1
          {
            var k :| 0 <= k < |seen| && seen[k].name == n && seen[k].depth <= seen[j].depth + 1;
            assert s[k] == seen[k];
          }
        }
      } else if d + 1 <= maxDepth {
        forall n | n in deps(seen[done].name)
          ensures exists k :: 0 <= k < |s| && s[k].name == n && s[k].depth <= d + 1
        {
          if n in NamesOf(seen) {
            var w :| w in seen && w.name == n;
            var k :| 0 <= k < |seen| && seen[k] == w;
            assert s[k] == seen[k];
          } else {
            assert n in NamesOf(added);
            var w :| w in added && w.name == n;
            var k :| 0 <= k < |added| && added[k] == w;
            assert s[|seen| + k] == w;
          }
        }
      }
    }
  }

  /** Every item was reached from the root in exactly its depth. */
  lemma {:induction false} TraceSound(seen: seq<WorkItem>, done: nat, root: string, maxDepth: int,
                                      deps: string -> set<string>, i: nat)
    requires Trace(seen, done, root, maxDepth, deps)
    requires i < |seen|
    ensures Reach(deps, root, seen[i].name, seen[i].depth)
    decreases i
  {
    if i > 0 {
      assert HasParent(seen, done, i, deps);
      var j :| 0 <= j < done && j < i && seen[i].name in deps(seen[j].name) && seen[i].depth == seen[j].depth + 1;
      TraceSound(seen, done, root, maxDepth, deps, j);
    }
  }

  /** When the queue is empty, every class within `maxDepth` steps was
      processed, no deeper than its distance. */
  lemma {:induction false} TraceComplete(seen: seq<WorkItem>, root: string, maxDepth: int,
                                         deps: string -> set<string>, n: string, k: nat) returns (i: nat)
    requires Trace(seen, |seen|, root, maxDepth, deps)
    requires k <= maxDepth && Reach(deps, root, n, k)
    ensures i < |seen| && seen[i].name == n && seen[i].depth <= k
    decreases k
  {
    if k == 0 {
      i := 0;
    } else {
      var m :| Reach(deps, root, m, k - 1) && n in deps(m);
      var j := TraceComplete(seen, root, maxDepth, deps, m, k - 1);
      assert Explored(seen, j, maxDepth, deps);
      var k' :| 0 <= k' < |seen| && seen[k'].name == n && seen[k'].depth <= seen[j].depth + 1;
      i := k';
    }
  }

  /** Each processed class's depth is its shortest distance from the root. */
  lemma TraceShortest(seen: seq<WorkItem>, root: string, maxDepth: int, deps: string -> set<string>, i: nat)
    requires Trace(seen, |seen|, root, maxDepth, deps)
    requires i < |seen|
    ensures Reach(deps, root, seen[i].name, seen[i].depth)
    ensures forall k: nat :: k < seen[i].depth ==> !Reach(deps, root, seen[i].name, k)
  {
    TraceSound(seen, |seen|, root, maxDepth, deps, i);
    forall k: nat | k < seen[i].depth ensures !Reach(deps, root, seen[i].name, k) {
      if Reach(deps, root, seen[i].name, k) {
        var i' := TraceComplete(seen, root, maxDepth, deps, seen[i].name, k);
        assert false;
      }
    }
  }

  /** A finished traversal processed exactly the classes within `maxDepth`
      steps of the root. */
  lemma TraceClosure(seen: seq<WorkItem>, root: string, maxDepth: int, deps: string -> set<string>, universe: set<string>)
    requires Trace(seen, |seen|, root, maxDepth, deps)
    requires root in universe
    requires forall m :: deps(m) <= universe
    ensures NamesOf(seen) == ClosureWithin(deps, root, maxDepth, universe)
  {
    forall n | n in NamesOf(seen) ensures n in ClosureWithin(deps, root, maxDepth, universe) {
      var w :| w in seen && w.name == n;
      var i :| 0 <= i < |seen| && seen[i] == w;
      TraceSound(seen, |seen|, root, maxDepth, deps, i);
      var k: nat := w.depth;
      assert k <= maxDepth && Reach(deps, root, n, k);
      if k > 0 {
        var m :| Reach(deps, root, m, k - 1) && n in deps(m);
      }
    }
    forall n | n in ClosureWithin(deps, root, maxDepth, universe) ensures n in NamesOf(seen) {
      var k: nat :| k <= maxDepth && Reach(deps, root, n, k);
      var i := TraceComplete(seen, root, maxDepth, deps, n, k);
      assert seen[i] in seen;
    }
  }

  /** Split into the processed items and the queue, the invariant says the
      queue holds each name once, none of them processed, none deeper than
      the bound. */
  lemma QueueClean(log: seq<WorkItem>, queue: seq<WorkItem>, root: string, maxDepth: int,
                   deps: string -> set<string>)
    requires Trace(log + queue, |log|, root, maxDepth, deps)
    ensures DistinctNames(log) && DistinctNames(queue)
    ensures forall i :: 0 <= i < |queue| ==> queue[i].name !in NamesOf(log) && queue[i].depth <= maxDepth
  {
    var seen := log + queue;
    assert forall i :: 0 <= i < |log| ==> log[i] == seen[i];
    assert forall i :: 0 <= i < |queue| ==> queue[i] == seen[|log| + i];
    forall i | 0 <= i < |queue| ensures queue[i].name !in NamesOf(log) {
      forall w | w in log ensures w.name != queue[i].name {
        var k :| 0 <= k < |log| && log[k] == w;
      }
    }
  }

  /** With `maxDepth` 0 only the root is ever admitted. */
  lemma DepthZeroOnlyRoot(seen: seq<WorkItem>, done: nat, root: string, deps: string -> set<string>)
    requires Trace(seen, done, root, 0, deps)
    ensures seen == [WorkItem(root, 0)]
  {
    NonRootDeeper(seen, done, root, 0, deps);
    assert seen[|seen| - 1].depth == 0;
  }

  /** Only the root is at depth 0: every other item is a dependency. */
  lemma NonRootDeeper(seen: seq<WorkItem>, done: nat, root: string, maxDepth: int, deps: string -> set<string>)
    requires Trace(seen, done, root, maxDepth, deps)
    ensures forall i :: 0 < i < |seen| ==> seen[i].depth >= 1 && seen[i].name != root
  {
    forall i | 0 < i < |seen| ensures seen[i].depth >= 1 && seen[i].name != root {
      assert HasParent(seen, done, i, deps);
      var j :| 0 <= j < done && j < i && seen[i].name in deps(seen[j].name) && seen[i].depth == seen[j].depth + 1;
    }
  }
}
