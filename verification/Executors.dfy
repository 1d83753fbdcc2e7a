/** The executor object: the state its workers share, and the code that changes it. */
module Executors {
  import opened Sequences
  import opened Graphs
  import opened Execution
  import opened Schedules

  // ---------------------------------------------------------------- skipping dependents

  /** A success has only successful prerequisites. */
  ghost predicate SuccessClosed(g: Graph, results: map<nat, ActionResult>) {
    forall a, p :: a in results && a < g.Size() && results[a].Succeeded? && p in g.prereqs[a] ==>
      p in results && results[p].Succeeded?
  }

  /** What depends on an unsuccessful action (other than `except`) is itself resolved and unsuccessful. */
  ghost predicate FailureClosed(g: Graph, results: map<nat, ActionResult>, except: set<nat>) {
    forall a: nat, d: nat ::
      a in results && !results[a].Succeeded? && a !in except && d < g.Size() && a in g.prereqs[d] ==>
        d in results && !results[d].Succeeded?
  }

  lemma {:induction false} DescendantIsSkipped(g: Graph, results: map<nat, ActionResult>, failed: nat, path: seq<nat>)
    requires g.Valid() && failed in results && failed < g.Size() && !results[failed].Succeeded?
    requires SuccessClosed(g, results) && FailureClosed(g, results, {failed})
    requires g.IsPath(path) && |path| >= 2 && path[|path| - 1] == failed
    ensures if path[0] in results then !results[path[0]].Succeeded? else path[0] in SkipSet(g, results.Keys, failed)
    decreases |path|
  {
    var d, p := path[0], path[1];
    if |path| > 2 {
      DescendantIsSkipped(g, results, failed, path[1..]);
    }
    assert p == failed || if p in results then !results[p].Succeeded? else p in SkipSet(g, results.Keys, failed);
    if d !in results {
      assert p in results ==> p == failed;
      SkipSetEdge(g, results.Keys, failed, d, p);
    }
  }

  /** If unsuccessful results were closed under dependents up to the new failure, then what gets
      skipped is exactly the set of its unresolved descendants. */
  lemma SkippedAreDescendants(g: Graph, results: map<nat, ActionResult>, failed: nat, d: nat)
    requires g.Valid() && failed in results && failed < g.Size() && !results[failed].Succeeded?
    requires SuccessClosed(g, results) && FailureClosed(g, results, {failed})
    ensures d in SkipSet(g, results.Keys, failed) <==> d < g.Size() && d !in results && g.ProperAncestor(failed, d)
  {
    if d in SkipSet(g, results.Keys, failed) {
      var chain :| Cascade(g, results.Keys, failed, chain) && chain[0] == d;
      assert g.PathBetween(chain, d, failed);
    } else if d < g.Size() && d !in results && g.ProperAncestor(failed, d) {
      var path :| g.PathBetween(path, d, failed) && |path| >= 2;
      DescendantIsSkipped(g, results, failed, path);
    }
  }

  lemma DependentUnsuccessful(g: Graph, results: map<nat, ActionResult>, failed: nat, results': map<nat, ActionResult>,
                              a: nat, d: nat)
    requires g.Valid() && failed in results && failed < g.Size() && !results[failed].Succeeded?
    requires SuccessClosed(g, results) && FailureClosed(g, results, {failed})
    requires IsWithSkipped(results, SkipSet(g, results.Keys, failed), failed, results')
    requires a in results' && !results'[a].Succeeded? && d < g.Size() && a in g.prereqs[d]
    ensures d in results' && !results'[d].Succeeded?
  {
    if (a == failed || a in SkipSet(g, results.Keys, failed)) && d !in results {
      SkipSetEdge(g, results.Keys, failed, d, a);
    }
  }

  /** Skipping changes no earlier result and closes the unsuccessful results under dependents again. */
  lemma SkippingRestoresClosure(
    g: Graph, results: map<nat, ActionResult>, failed: nat, results': map<nat, ActionResult>)
    requires g.Valid() && failed in results && failed < g.Size() && !results[failed].Succeeded?
    requires SuccessClosed(g, results) && FailureClosed(g, results, {failed})
    requires results' == WithSkipped(results, SkipSet(g, results.Keys, failed), failed)
    ensures forall a :: a in results ==> a in results' && results'[a] == results[a]
    ensures SuccessClosed(g, results') && FailureClosed(g, results', {})
  {
    forall a | a in SkipSet(g, results.Keys, failed)
      ensures a !in results
    {
      var chain :| Cascade(g, results.Keys, failed, chain) && chain[0] == a;
    }
    forall a: nat, d: nat | a in results' && !results'[a].Succeeded? && d < g.Size() && a in g.prereqs[d]
      ensures d in results' && !results'[d].Succeeded?
    {
      DependentUnsuccessful(g, results, failed, results', a, d);
    }
  }

  /** Everything next to the failure or to a skipped action is resolved, skipped or still on the stack. */
  ghost predicate SkipFrontier(g: Graph, resolved: set<nat>, failed: nat, skipped: set<nat>, work: seq<nat>)
    requires g.Valid() && failed < g.Size() && forall a :: a in skipped ==> a < g.Size()
  {
    forall x, d :: (x == failed || x in skipped) && d in g.dependents[x] ==> d in resolved || d in skipped || d in work
  }

  lemma {:induction false} FrontierReachesChain(
    g: Graph, resolved: set<nat>, failed: nat, skipped: set<nat>, chain: seq<nat>)
    requires g.Valid() && failed < g.Size() && forall a :: a in skipped ==> a < g.Size()
    requires SkipFrontier(g, resolved, failed, skipped, [])
    requires Cascade(g, resolved, failed, chain)
    ensures chain[0] in skipped
    decreases |chain|
  {
    if |chain| > 2 {
      FrontierReachesChain(g, resolved, failed, skipped, chain[1..]);
    }
    EdgeBothWays(g, chain[1], chain[0]);
  }

  /** When the stack is empty, all that had to be skipped has been. */
  lemma FrontierIsSkipSet(g: Graph, resolved: set<nat>, failed: nat, skipped: set<nat>)
    requires g.Valid() && failed < g.Size() && skipped <= SkipSet(g, resolved, failed)
    requires SkipFrontier(g, resolved, failed, skipped, [])
    ensures skipped == SkipSet(g, resolved, failed)
  {
    forall d | d in SkipSet(g, resolved, failed)
      ensures d in skipped
    {
      var chain :| Cascade(g, resolved, failed, chain) && chain[0] == d;
      FrontierReachesChain(g, resolved, failed, skipped, chain);
    }
  }

  lemma DependentInSkipSet(g: Graph, resolved: set<nat>, failed: nat, x: nat, d: nat)
    requires g.Valid() && failed < g.Size() && x < g.Size() && d in g.dependents[x]
    requires x == failed || x in SkipSet(g, resolved, failed)
    ensures d < g.Size() && (d in resolved || d in SkipSet(g, resolved, failed))
  {
    EdgeBothWays(g, x, d);
    if d !in resolved {
      SkipSetEdge(g, resolved, failed, d, x);
    }
  }

  /** The invariant of the skipping loop. */
  ghost predicate SkipLoop(g: Graph, resolved: set<nat>, failed: nat, skipped: set<nat>, work: seq<nat>)
    requires g.Valid() && failed < g.Size()
  {
    && skipped <= SkipSet(g, resolved, failed)
    && (forall d :: d in work ==> d < g.Size() && (d in resolved || d in SkipSet(g, resolved, failed)))
    && SkipFrontier(g, resolved, failed, skipped, work)
  }

  lemma LastAndRest(work: seq<nat>)
    requires work != []
    ensures forall a :: a in work <==> a in work[..|work| - 1] || a == work[|work| - 1]
  {
    forall a | a in work
      ensures a in work[..|work| - 1] || a == work[|work| - 1]
    {
      var i :| 0 <= i < |work| && work[i] == a;
      assert i < |work| - 1 ==> work[..|work| - 1][i] == a;
    }
  }

  lemma SkipLoopStart(g: Graph, resolved: set<nat>, failed: nat)
    requires g.Valid() && failed < g.Size()
    ensures SkipLoop(g, resolved, failed, {}, g.dependents[failed])
  {
    forall d | d in g.dependents[failed]
      ensures d < g.Size() && (d in resolved || d in SkipSet(g, resolved, failed))
    {
      DependentInSkipSet(g, resolved, failed, failed, d);
    }
  }

  /** Popping an action that already has a result. */
  lemma SkipLoopDrop(g: Graph, resolved: set<nat>, failed: nat, skipped: set<nat>, work: seq<nat>)
    requires g.Valid() && failed < g.Size() && work != [] && SkipLoop(g, resolved, failed, skipped, work)
    requires work[|work| - 1] in resolved || work[|work| - 1] in skipped
    ensures SkipLoop(g, resolved, failed, skipped, work[..|work| - 1])
  {
    LastAndRest(work);
    var rest := work[..|work| - 1];
    forall x, d | (x == failed || x in skipped) && d in g.dependents[x]
      ensures d in resolved || d in skipped || d in rest
    {
      assert d in resolved || d in skipped || d in work;
    }
    forall d | d in rest
      ensures d < g.Size() && (d in resolved || d in SkipSet(g, resolved, failed))
    {
      assert d in work;
    }
  }

  /** Popping `d`, not resolved so far, and pushing its unresolved dependents. */
  lemma SkipLoopTake(g: Graph, resolved: set<nat>, failed: nat, skipped: set<nat>, work: seq<nat>, work': seq<nat>)
    requires g.Valid() && failed < g.Size() && work != [] && SkipLoop(g, resolved, failed, skipped, work)
    requires var d := work[|work| - 1];
             && d < g.Size() && d !in resolved
             && (forall a :: a in work[..|work| - 1] ==> a in work')
             && (forall e :: e in work' ==> e in work[..|work| - 1] || e in g.dependents[d])
             && (forall e :: e in g.dependents[d] ==> e in resolved || e in skipped || e == d || e in work')
    ensures SkipLoop(g, resolved, failed, skipped + {work[|work| - 1]}, work')
  {
    var rest, d := work[..|work| - 1], work[|work| - 1];
    LastAndRest(work);
    forall e | e in work'
      ensures e < g.Size() && (e in resolved || e in SkipSet(g, resolved, failed))
    {
      if e in rest {
        assert e in work;
      } else {
        DependentInSkipSet(g, resolved, failed, d, e);
      }
    }
  }

  /** Mark every unresolved action that depends on `failed`, directly or through other unresolved
      ones, as skipped. The two dictionaries are passed in and handed back. */
  method SkipDependents(g: Graph, failed: nat, results: map<nat, ActionResult>, remainingDeps: seq<int>)
    returns (results': map<nat, ActionResult>, remainingDeps': seq<int>, skippedCount: nat)
    requires g.Valid() && failed < g.Size() && |remainingDeps| == g.Size()
    ensures results' == WithSkipped(results, SkipSet(g, results.Keys, failed), failed)
    ensures remainingDeps' == WithMinusOne(remainingDeps, SkipSet(g, results.Keys, failed))
    ensures skippedCount == |SkipSet(g, results.Keys, failed)|
  {
    ghost var resolved, skipped: set<nat> := results.Keys, {};
    results', remainingDeps', skippedCount := results, remainingDeps, 0;
    var work := g.dependents[failed];
    SkipLoopStart(g, resolved, failed);
    NothingSkipped(results, remainingDeps, failed);
    while |work| > 0
      invariant SkipLoop(g, resolved, failed, skipped, work) && skippedCount == |skipped|
      invariant results' == WithSkipped(results, skipped, failed)
      invariant remainingDeps' == WithMinusOne(remainingDeps, skipped)
      decreases SkipSet(g, resolved, failed) - skipped, |work|
    {
      var d, rest := work[|work| - 1], work[..|work| - 1];
      assert d in work;
      if d in results' {
        SkipLoopDrop(g, resolved, failed, skipped, work);
        work := rest;
        continue;
      }
      SkipOneMore(results, skipped, failed, d);
      MinusOneMore(remainingDeps, skipped, d);
      results' := results'[d := Skipped(failed)];
      remainingDeps' := remainingDeps'[d := -1];
      skippedCount := skippedCount + 1;
      var pushed := PushUnresolved(g, d, results', rest);
      assert results'.Keys == resolved + (skipped + {d});
      SkipLoopTake(g, resolved, failed, skipped, work, pushed);
      skipped, work := skipped + {d}, pushed;
    }
    FrontierIsSkipSet(g, resolved, failed, skipped);
  }

  method PushUnresolved(g: Graph, d: nat, results: map<nat, ActionResult>, work: seq<nat>) returns (work': seq<nat>)
    requires g.Valid() && d < g.Size()
    ensures forall e :: e in work ==> e in work'
    ensures forall e :: e in work' ==> e in work || e in g.dependents[d]
    ensures forall e :: e in g.dependents[d] ==> e in results || e in work'
  {
    work' := work;
    var j := 0;
    while j < |g.dependents[d]|
      invariant 0 <= j <= |g.dependents[d]|
      invariant forall e :: e in work ==> e in work'
      invariant forall e :: e in work' ==> e in work || e in g.dependents[d]
      invariant forall e :: e in g.dependents[d][..j] ==> e in results || e in work'
    {
      var next := g.dependents[d][j];
      if next !in results {
        work' := work' + [next];
      }
      j := j + 1;
    }
  }

  lemma AfterFailureIs(g: Graph, s: State, node: nat, exitCode: int,
                       marked: map<nat, ActionResult>, counters: seq<int>, skipped: nat)
    requires g.Valid() && node < g.Size() && |s.remaining| == g.Size()
    requires var recorded := s.results[node := Failed(exitCode)];
             var skipSet := SkipSet(g, recorded.Keys, node);
             marked == WithSkipped(recorded, skipSet, node)
             && counters == WithMinusOne(s.remaining, skipSet) && skipped == |skipSet|
    ensures AfterFailure(g, s, node, exitCode)
         == State(marked, counters, s.ready, s.running - {node}, s.totalSubmitted,
                  s.totalCompleted + 1 + skipped, s.totalFailed + 1 + skipped, s.calls)
  {
  }

  lemma OneMoreAdd(calls: seq<QueueCall>, before: seq<QueueCall>, nodes: seq<nat>, node: nat)
    requires calls == before + Adds(nodes)
    ensures calls + [Add(node)] == before + Adds(nodes + [node])
  {
    AddsTurn(nodes, node);
  }

  lemma AddsTurn(nodes: seq<nat>, node: nat)
    ensures Adds(nodes + [node]) == Adds(nodes) + [Add(node)]
  {
    assert (nodes + [node])[..|nodes|] == nodes;
  }

  lemma SourcesStart(g: Graph)
    ensures Sources(g, []) == [] && Adds([]) == []
  {
  }

  lemma SourcesTurn(g: Graph, sorted: seq<nat>, k: nat)
    requires IsListing(g, sorted) && k < |sorted|
    ensures sorted[k] < g.Size()
    ensures Sources(g, sorted[..k + 1])
         == if Lengths(g.prereqs)[sorted[k]] == 0 then Sources(g, sorted[..k]) + [sorted[k]]
            else Sources(g, sorted[..k])
  {
    assert sorted[..k + 1][..k] == sorted[..k];
    assert sorted[k] in Elements(sorted) && sorted[k] in Nodes(g.Size());
    assert Sources(g, sorted[..k]) + [] == Sources(g, sorted[..k]);
  }

  lemma DependentsInRange(g: Graph, node: nat)
    requires g.Valid() && node < g.Size()
    ensures node < |g.dependents| && forall i :: 0 <= i < |g.dependents[node]| ==> g.dependents[node][i] < g.Size()
  {
  }

  class Executor {
    const g: Graph
    var results: map<nat, ActionResult>
    var remainingDeps: seq<int>
    var ready: seq<nat>
    var running: set<nat>
    var totalSubmitted: int
    var totalCompleted: int
    var totalFailed: int
    ghost var calls: seq<QueueCall>

    ghost function S(): State
      reads this
    {
      State(results, remainingDeps, ready, running, totalSubmitted, totalCompleted, totalFailed, calls)
    }

    ghost predicate Valid()
      reads this
    {
      g.Valid() && |remainingDeps| == g.Size() && forall a :: a in running ==> a < g.Size()
    }

    /** Seed the queue with the actions that wait for nothing, in sorted order. */
    constructor (g: Graph, sorted: seq<nat>)
      requires g.Valid() && IsListing(g, sorted)
      ensures this.g == g && Valid() && S() == Start(g, Sources(g, sorted))
    {
      this.g := g;
      results, remainingDeps, ready, running := map[], [], [], {};
      totalSubmitted, totalCompleted, totalFailed, calls := 0, 0, 0, [];
      new;
      hide Graph.Valid, IsListing, Sources, Adds, Lengths;
      CountDependencies();
      Seed(sorted);
    }

    method CountDependencies()
      requires remainingDeps == []
      modifies this`remainingDeps
      ensures remainingDeps == Lengths(g.prereqs)
    {
      var k := 0;
      while k < g.Size()
        invariant 0 <= k <= g.Size() && |remainingDeps| == k
        invariant forall a :: 0 <= a < k ==> remainingDeps[a] == |g.prereqs[a]|
      {
        remainingDeps := remainingDeps + [|g.prereqs[k]|];
        k := k + 1;
      }
    }

    method Seed(sorted: seq<nat>)
      requires remainingDeps == Lengths(g.prereqs) && ready == [] && calls == [] && totalSubmitted == 0
      requires IsListing(g, sorted)
      modifies this`ready, this`calls, this`totalSubmitted
      ensures ready == Sources(g, sorted) && calls == Adds(ready) && totalSubmitted == |ready|
    {
      hide Sources, Adds, IsListing, Lengths;
      var k := 0;
      SourcesStart(g);
      while k < |sorted|
        invariant 0 <= k <= |sorted|
        invariant ready == Sources(g, sorted[..k]) && calls == Adds(ready) && totalSubmitted == |ready|
      {
        SourcesTurn(g, sorted, k);
        if remainingDeps[sorted[k]] == 0 {
          AddsTurn(ready, sorted[k]);
          ready := ready + [sorted[k]];
          calls := calls + [Add(sorted[k])];
          totalSubmitted := totalSubmitted + 1;
        }
        k := k + 1;
      }
      assert sorted[..k] == sorted;
    }

    /** A worker takes the oldest ready action. */
    method TryTake() returns (node: nat)
      requires Valid() && ready != [] && ready[0] < g.Size()
      modifies this
      ensures Valid() && node == old(ready)[0]
      ensures S() == old(S()).(ready := old(ready)[1..], running := old(running) + {node})
    {
      node := ready[0];
      ready := ready[1..];
      running := running + {node};
    }

    /** Lower the counter of every dependent of a successful action; queue those that wait for
        nothing more and have no result. */
    method ReleaseDependents(node: nat)
      requires Valid() && node < g.Size()
      modifies this`remainingDeps, this`ready, this`totalSubmitted, this`calls
      ensures var r := Release(old(remainingDeps), g.dependents[node], results.Keys);
              && remainingDeps == r.0
              && ready == old(ready) + r.1
              && calls == old(calls) + Adds(r.1)
              && totalSubmitted == old(totalSubmitted) + |r.1|
    {
      hide Release, Adds, Graph.Valid;
      DependentsInRange(g, node);
      var deps := g.dependents[node];
      ghost var effect := Release(remainingDeps, deps, results.Keys);
      ghost var released: seq<nat> := [];
      var j := 0;
      assert deps[0..] == deps;
      while j < |deps|
        invariant 0 <= j <= |deps| && |remainingDeps| == g.Size()
        invariant Release(remainingDeps, deps[j..], results.Keys).0 == effect.0
        invariant released + Release(remainingDeps, deps[j..], results.Keys).1 == effect.1
        invariant ready == old(ready) + released
        invariant calls == old(calls) + Adds(released)
        invariant totalSubmitted == old(totalSubmitted) + |released|
      {
        var dep := deps[j];
        ReleaseTurn(remainingDeps, deps, j, results.Keys);
        ghost var next := Release(remainingDeps[dep := remainingDeps[dep] - 1], deps[j + 1..], results.Keys);
        var newDeg := remainingDeps[dep] - 1;
        remainingDeps := remainingDeps[dep := newDeg];
        if newDeg == 0 && dep !in results {
          OneMoreAdd(calls, old(calls), released, dep);
          Regroup(old(ready), released, [dep]);
          Regroup(released, [dep], next.1);
          totalSubmitted := totalSubmitted + 1;
          ready := ready + [dep];
          calls := calls + [Add(dep)];
          released := released + [dep];
        }
        j := j + 1;
      }
      ReleaseNothing(remainingDeps, deps, results.Keys);
    }

    method RecordSuccess(node: nat)
      requires Valid() && node in running
      modifies this
      ensures Valid() && S() == AfterSuccess(g, old(S()), node)
    {
      running := running - {node};
      results := results[node := Succeeded];
      totalCompleted := totalCompleted + 1;
      ReleaseDependents(node);
    }

    /** What a failure leaves in the dictionaries and counters. */
    method FailureEffect(node: nat, exitCode: int)
      returns (marked: map<nat, ActionResult>, counters: seq<int>, skipped: nat)
      requires Valid() && node in running
      ensures |counters| == g.Size()
      ensures AfterFailure(g, S(), node, exitCode)
           == State(marked, counters, ready, running - {node}, totalSubmitted,
                    totalCompleted + 1 + skipped, totalFailed + 1 + skipped, calls)
    {
      hide AfterFailure, Graph.Valid, SkipSet, WithSkipped, WithMinusOne;
      marked, counters, skipped := SkipDependents(g, node, results[node := Failed(exitCode)], remainingDeps);
      AfterFailureIs(g, S(), node, exitCode, marked, counters, skipped);
    }

    method RecordFailure(node: nat, exitCode: int)
      requires Valid() && node in running
      modifies this
      ensures Valid() && S() == AfterFailure(g, old(S()), node, exitCode)
    {
      hide AfterFailure, Graph.Valid;
      var marked, counters, skipped := FailureEffect(node, exitCode);
      running := running - {node};
      results, remainingDeps := marked, counters;
      totalCompleted := totalCompleted + 1 + skipped;
      totalFailed := totalFailed + 1 + skipped;
    }

    /** The locked section: record the result, release or skip the dependents, and close the queue
        when everything has a result. */
    method Complete(node: nat, outcome: Outcome)
      requires Valid() && node in running
      modifies this
      ensures Valid() && S() == Finished(g, old(S()), node, outcome)
    {
      match outcome {
        case Success => RecordSuccess(node);
        case Failure(exitCode) => RecordFailure(node, exitCode);
      }
      if totalCompleted == g.Size() {
        calls := calls + [CompleteAdding];
      }
    }

    /** The whole execution, with the scheduler's choices left open: at each turn some idle worker
        takes an action, or some running action enters the locked section. */
    method Execute(workers: nat, oracle: nat -> Outcome, ghost sorted: seq<nat>)
      requires Valid() && g.Acyclic() && workers > 0 && IsListing(g, sorted)
      requires S() == Start(g, Sources(g, sorted))
      modifies this
      ensures totalCompleted == g.Size() && results.Keys == Nodes(g.Size())
      ensures forall a :: a in results ==> Deserves(g, oracle, a, results[a])
      ensures totalFailed == |UnsuccessfulIn(results)|
      ensures g.Size() > 0 ==> calls == Adds(AddedNodes(calls)) + [CompleteAdding] && Distinct(AddedNodes(calls))
    {
      StartInv(g, oracle, sorted);
      hide InTurn;
      while totalCompleted != g.Size()
        invariant Valid() && Inv(g, oracle, S())
        decreases Work(g, S())
      {
        ghost var before := S();
        WorkIsNat(g, oracle, before);
        Progress(g, oracle, before);
        if
        case ready != [] && |running| < workers =>
          assert ready[0] in ready;
          var node := TryTake();
          assert Take(workers, before, S()) && Step(g, workers, oracle, before, S());
          StepInv(g, workers, oracle, before, S());
          WorkDecreases(g, workers, oracle, before, S());
          WorkIsNat(g, oracle, S());
        case running != {} =>
          var node :| node in running;
          Complete(node, oracle(node));
          assert FinishOf(g, oracle, node, before, S()) && Step(g, workers, oracle, before, S());
          StepInv(g, workers, oracle, before, S());
          WorkDecreases(g, workers, oracle, before, S());
          WorkIsNat(g, oracle, S());
      }
      CompletedState(g, oracle, S());
    }
  }

  /** The nodes of the `Add` calls, in order. */
  function AddedNodes(calls: seq<QueueCall>): seq<nat> {
    if calls == [] then []
    else
      var last := calls[|calls| - 1];
      AddedNodes(calls[..|calls| - 1]) + if last.Add? then [last.node] else []
  }

  lemma {:induction false} AddedNodesOfAdds(nodes: seq<nat>)
    ensures AddedNodes(Adds(nodes)) == nodes
  {
    if nodes != [] {
      AddedNodesOfAdds(nodes[..|nodes| - 1]);
    }
  }

  lemma CompletedState(g: Graph, oracle: nat -> Outcome, s: State)
    requires g.Valid() && Inv(g, oracle, s) && s.totalCompleted == g.Size()
    ensures s.results.Keys == Nodes(g.Size())
    ensures forall a :: a in s.results ==> Deserves(g, oracle, a, s.results[a])
    ensures g.Size() > 0 ==> s.calls == Adds(AddedNodes(s.calls)) + [CompleteAdding] && Distinct(AddedNodes(s.calls))
  {
    AllResolved(g, s);
    forall a | a in s.results
      ensures Deserves(g, oracle, a, s.results[a])
    {
      ResultsDeserved(g, oracle, s, a);
    }
    if g.Size() > 0 {
      ClosedOnce(g, s);
    }
  }

  lemma AllResolved(g: Graph, s: State)
    requires PlacesOk(g, s) && CountsOk(s) && s.totalCompleted == g.Size()
    ensures s.results.Keys == Nodes(g.Size())
  {
    assert |s.results.Keys| == |s.results|;
    SubsetSize(s.results.Keys, Nodes(g.Size()));
  }

  lemma ClosedOnce(g: Graph, s: State)
    requires CallsOk(g, s) && |s.results| == g.Size() > 0
    ensures s.calls == Adds(AddedNodes(s.calls)) + [CompleteAdding] && Distinct(AddedNodes(s.calls))
  {
    hide InTurn;
    var added :| CallsFor(g, s, added);
    AddedNodesOfAdds(added);
    assert s.calls[..|s.calls| - 1] == Adds(added);
  }
}
