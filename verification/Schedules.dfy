/** What every run of the executor has in common, whatever the interleaving and the worker count. */
module Schedules {
  import opened Graphs
  import opened Execution

  ghost predicate IsListing(g: Graph, order: seq<nat>) {
    Distinct(order) && Elements(order) == Nodes(g.Size())
  }

  ghost predicate IsRun(g: Graph, order: seq<nat>, workers: nat, oracle: nat -> Outcome, run: seq<State>)
    requires g.Valid()
  {
    && IsListing(g, order)
    && |run| > 0 && run[0] == Start(g, Sources(g, order))
    && forall i :: 0 <= i < |run| - 1 ==> Step(g, workers, oracle, run[i], run[i + 1])
  }

  /** No step is left to take. */
  ghost predicate Stuck(g: Graph, workers: nat, oracle: nat -> Outcome, s: State)
    requires g.Valid()
  {
    forall s' :: !Step(g, workers, oracle, s, s')
  }

  lemma {:induction false} RunInv(
    g: Graph, order: seq<nat>, workers: nat, oracle: nat -> Outcome, run: seq<State>, i: nat)
    requires g.Valid() && IsRun(g, order, workers, oracle, run) && i < |run|
    ensures Inv(g, oracle, run[i])
  {
    if i == 0 {
      StartInv(g, oracle, order);
    } else {
      RunInv(g, order, workers, oracle, run, i - 1);
      StepInv(g, workers, oracle, run[i - 1], run[i]);
    }
  }

  // ---------------------------------------------------------------- safety

  /** Whatever a finished action was built from has finished too. */
  lemma {:induction false} PathStaysDone(g: Graph, oracle: nat -> Outcome, s: State, path: seq<nat>)
    requires g.Valid() && Inv(g, oracle, s) && g.IsPath(path)
    requires |path| > 1 ==> forall p :: p in g.prereqs[path[0]] ==> p in Done(s)
    ensures |path| > 1 ==> path[|path| - 1] in Done(s)
    decreases |path|
  {
    if |path| > 1 {
      assert path[1] in Done(s) && ResultOk(g, oracle, s, path[1]);
      PathStaysDone(g, oracle, s, path[1..]);
    }
  }

  /** An action that is queued, running or has run: all its proper ancestors have succeeded. */
  lemma AncestorsSucceeded(g: Graph, oracle: nat -> Outcome, s: State, a: nat, b: nat)
    requires g.Valid() && Inv(g, oracle, s) && g.ProperAncestor(b, a)
    requires a in s.ready || a in s.running || a in Ran(s)
    ensures b in Done(s) && oracle(b) == Success
  {
    if a in Ran(s) {
      assert ResultOk(g, oracle, s, a);
    } else {
      assert WaitingOk(g, s, a);
      RemainingZero(g.prereqs[a], Done(s));
    }
    var path :| g.PathBetween(path, a, b) && |path| >= 2;
    PathStaysDone(g, oracle, s, path);
    assert ResultOk(g, oracle, s, b);
  }

  /** At every reachable state: no action has been queued twice; an action that has been queued has
      only successful ancestors, so none is queued below a failure; the counters count. */
  lemma Safety(g: Graph, order: seq<nat>, workers: nat, oracle: nat -> Outcome, run: seq<State>, i: nat)
    requires g.Valid() && IsRun(g, order, workers, oracle, run) && i < |run|
    ensures var s := run[i];
            && (forall j, k :: 0 <= j < k < |s.calls| ==> s.calls[j] != s.calls[k])
            && (forall a, b :: Add(a) in s.calls && g.ProperAncestor(b, a) ==>
                  b in s.results && s.results[b] == Succeeded)
            && s.totalCompleted == |s.results|
            && s.totalFailed == |Unsuccessful(s)|
  {
    assert i < |run|;
    hide *;
    RunInv(g, order, workers, oracle, run, i);
    InvParts(g, oracle, run[i]);
    CallsDistinct(g, run[i]);
    QueuedAncestors(g, oracle, run[i]);
  }

  lemma InvParts(g: Graph, oracle: nat -> Outcome, s: State)
    requires Inv(g, oracle, s)
    ensures CallsOk(g, s) && s.totalCompleted == |s.results| && s.totalFailed == |Unsuccessful(s)|
  {
    hide Ran, Unsuccessful;
  }

  lemma CallsDistinct(g: Graph, s: State)
    requires CallsOk(g, s)
    ensures forall j, k :: 0 <= j < k < |s.calls| ==> s.calls[j] != s.calls[k]
  {
    hide Ran, InTurn;
    var added :| CallsFor(g, s, added);
    forall j, k | 0 <= j < k < |s.calls|
      ensures s.calls[j] != s.calls[k]
    {
      assert j < |added| && s.calls[j] == Add(added[j]);
      assert k < |added| ==> s.calls[k] == Add(added[k]);
    }
  }

  lemma QueuedAncestors(g: Graph, oracle: nat -> Outcome, s: State)
    requires g.Valid() && Inv(g, oracle, s)
    ensures forall a, b :: Add(a) in s.calls && g.ProperAncestor(b, a) ==>
              b in s.results && s.results[b] == Succeeded
  {
    InvParts(g, oracle, s);
    hide Graph.Valid, Graph.ProperAncestor, Inv;
    forall a, b | Add(a) in s.calls && g.ProperAncestor(b, a)
      ensures b in s.results && s.results[b] == Succeeded
    {
      QueuedIsSomewhere(g, s, a);
      AncestorsSucceeded(g, oracle, s, a, b);
    }
  }

  lemma QueuedIsSomewhere(g: Graph, s: State, a: nat)
    requires CallsOk(g, s) && Add(a) in s.calls
    ensures a in s.ready || a in s.running || a in Ran(s)
  {
    hide Ran, InTurn, Distinct;
    var added :| CallsFor(g, s, added);
    var j :| 0 <= j < |s.calls| && s.calls[j] == Add(a);
    assert j < |added| && added[j] == a;
  }

  /** The queue holds the actions added last, in the order of their additions. */
  ghost predicate QueueOk(s: State) {
    && |s.ready| <= s.totalSubmitted <= |s.calls|
    && forall k :: 0 <= k < |s.ready| ==> s.calls[s.totalSubmitted - |s.ready| + k] == Add(s.ready[k])
  }

  /** That is so at every reachable state: actions are taken first in, first out. */
  lemma FirstInFirstOut(g: Graph, order: seq<nat>, workers: nat, oracle: nat -> Outcome, run: seq<State>, i: nat)
    requires g.Valid() && IsRun(g, order, workers, oracle, run) && i < |run|
    ensures QueueOk(run[i])
  {
    assert i < |run|;
    hide *;
    RunInv(g, order, workers, oracle, run, i);
    InvParts(g, oracle, run[i]);
    QueueOrder(g, run[i]);
  }

  lemma QueueOrder(g: Graph, s: State)
    requires CallsOk(g, s)
    ensures QueueOk(s)
  {
    var added :| CallsFor(g, s, added);
    hide Ran;
    assert forall k :: 0 <= k < |s.ready| ==> s.ready[k] == added[|added| - |s.ready| + k];
  }

  /** And no more actions are running than there are workers. */
  lemma {:induction false} WorkersBound(
    g: Graph, order: seq<nat>, workers: nat, oracle: nat -> Outcome, run: seq<State>, i: nat)
    requires g.Valid() && IsRun(g, order, workers, oracle, run) && i < |run|
    ensures |run[i].running| <= workers
  {
    if i > 0 {
      WorkersBound(g, order, workers, oracle, run, i - 1);
      assert Step(g, workers, oracle, run[i - 1], run[i]);
      hide *;
      StepWorkers(g, workers, oracle, run[i - 1], run[i]);
    }
  }

  lemma StepWorkers(g: Graph, workers: nat, oracle: nat -> Outcome, s: State, s': State)
    requires g.Valid() && Step(g, workers, oracle, s, s') && |s.running| <= workers
    ensures |s'.running| <= workers
  {
    hide Graph.Valid, Finished;
    if !Take(workers, s, s') {
      var node :| node in s.running && FinishOf(g, oracle, node, s, s');
      FinishedWorker(g, s, node, oracle(node));
    }
  }

  lemma FinishedWorker(g: Graph, s: State, node: nat, outcome: Outcome)
    requires g.Valid() && node < g.Size() && |s.remaining| == g.Size()
    ensures Finished(g, s, node, outcome).running == s.running - {node}
  {
    hide Graph.Valid, Release, SkipSet, WithSkipped, WithMinusOne, Adds;
  }

  // ---------------------------------------------------------------- progress

  lemma WaitsForUnresolved(g: Graph, oracle: nat -> Outcome, s: State, b: nat)
    requires g.Valid() && Inv(g, oracle, s) && s.ready == [] && s.running == {}
    requires b < g.Size() && b !in s.results
    ensures exists p :: p in g.prereqs[b] && p < g.Size() && p !in s.results
  {
    assert WaitingOk(g, s, b);
    RemainingZero(g.prereqs[b], Done(s));
    var p :| p in g.prereqs[b] && p !in Done(s);
  }

  /** While some action lacks a result, one is queued or running. */
  lemma Progress(g: Graph, oracle: nat -> Outcome, s: State)
    requires g.Valid() && g.Acyclic() && Inv(g, oracle, s) && |s.results| < g.Size()
    ensures s.ready != [] || s.running != {}
  {
    if s.ready == [] && s.running == {} {
      forall b | b in g.ReadyAfter(s.results.Keys) ensures false {
        WaitsForUnresolved(g, oracle, s, b);
      }
      var a := MissingNode(s.results.Keys, g.Size());
      NothingReadyIsUnsafe(g, s.results.Keys, a);
    }
  }

  /** A state in which nothing can happen has a result for every action. */
  lemma StuckIsComplete(g: Graph, workers: nat, oracle: nat -> Outcome, s: State)
    requires g.Valid() && g.Acyclic() && workers > 0 && Inv(g, oracle, s) && Stuck(g, workers, oracle, s)
    ensures s.results.Keys == Nodes(g.Size()) && s.ready == [] && s.running == {}
  {
    if node :| node in s.running {
      assert FinishOf(g, oracle, node, s, Finished(g, s, node, oracle(node)));
      assert Step(g, workers, oracle, s, Finished(g, s, node, oracle(node)));
    }
    if s.ready != [] {
      var s' := s.(ready := s.ready[1..], running := s.running + {s.ready[0]});
      assert Take(workers, s, s') && Step(g, workers, oracle, s, s');
    }
    if |s.results| < g.Size() {
      Progress(g, oracle, s);
    }
    assert s.results.Keys <= Nodes(g.Size());
    SubsetSize(s.results.Keys, Nodes(g.Size()));
  }

  /** What is left to do: two steps for an action in the queue or waiting, one for a running one. */
  ghost function Work(g: Graph, s: State): int {
    2 * (g.Size() - |s.results|) - |s.running|
  }

  lemma WorkIsNat(g: Graph, oracle: nat -> Outcome, s: State)
    requires g.Valid() && Inv(g, oracle, s)
    ensures 0 <= Work(g, s) <= 2 * g.Size()
  {
    SubsetSize(s.results.Keys + s.running, Nodes(g.Size()));
    assert |s.results.Keys + s.running| == |s.results.Keys| + |s.running|;
  }

  lemma WorkDecreases(g: Graph, workers: nat, oracle: nat -> Outcome, s: State, s': State)
    requires g.Valid() && Inv(g, oracle, s) && Step(g, workers, oracle, s, s')
    ensures Work(g, s') < Work(g, s)
  {
    hide Graph.Valid, WaitingOk, ResultOk, CallsOk;
    if Take(workers, s, s') {
      assert s.ready[0] in s.ready;
    } else {
      var node :| node in s.running && FinishOf(g, oracle, node, s, s');
      assert |s'.running| == |s.running| - 1;
      StepInv(g, workers, oracle, s, s');
      match oracle(node) {
        case Success =>
          assert |s.results[node := Succeeded]| == |s.results| + 1;
        case Failure(exitCode) =>
          assert CountsOk(s) && CountsOk(s');
      }
    }
  }

  lemma {:induction false} RunLength(
    g: Graph, order: seq<nat>, workers: nat, oracle: nat -> Outcome, run: seq<State>, i: nat)
    requires g.Valid() && IsRun(g, order, workers, oracle, run) && i < |run|
    ensures Work(g, run[i]) <= 2 * g.Size() - i
  {
    RunInv(g, order, workers, oracle, run, i);
    WorkIsNat(g, oracle, run[i]);
    if i > 0 {
      RunLength(g, order, workers, oracle, run, i - 1);
      RunInv(g, order, workers, oracle, run, i - 1);
      WorkDecreases(g, workers, oracle, run[i - 1], run[i]);
    }
  }

  /** Every run is finite, and one that cannot go on has completed everything and has closed the
      queue once, as the last of all calls on it. */
  lemma EveryRunCompletes(g: Graph, order: seq<nat>, workers: nat, oracle: nat -> Outcome, run: seq<State>)
    requires g.Valid() && g.Acyclic() && workers > 0 && IsRun(g, order, workers, oracle, run)
    ensures |run| <= 2 * g.Size() + 1
    ensures Stuck(g, workers, oracle, run[|run| - 1]) && g.Size() > 0 ==>
      var s := run[|run| - 1];
      && s.totalCompleted == g.Size() && s.results.Keys == Nodes(g.Size())
      && s.calls != [] && s.calls[|s.calls| - 1] == CompleteAdding
      && CompleteAdding !in s.calls[..|s.calls| - 1]
  {
    var s := run[|run| - 1];
    RunLength(g, order, workers, oracle, run, |run| - 1);
    RunInv(g, order, workers, oracle, run, |run| - 1);
    WorkIsNat(g, oracle, s);
    if Stuck(g, workers, oracle, s) && g.Size() > 0 {
      StuckIsComplete(g, workers, oracle, s);
      var added :| CallsFor(g, s, added);
      assert |s.results| == |s.results.Keys| == g.Size();
      assert s.calls[..|s.calls| - 1] == Adds(added);
    }
  }

  /** With no actions at all there is no locked section to close the queue from. */
  lemma EmptyGraphNeverCloses(workers: nat, oracle: nat -> Outcome, order: seq<nat>)
    ensures var g := Graph([], []);
            g.Valid() && (IsListing(g, order) ==>
              Start(g, Sources(g, order)).calls == [] && Stuck(g, workers, oracle, Start(g, Sources(g, order))))
  {
    SourcesAre(Graph([], []), order);
    var ready := Sources(Graph([], []), order);
    HeadIsMember(ready);
  }

  lemma HeadIsMember(s: seq<nat>)
    ensures s == [] || s[0] in s
  {
  }

  // ---------------------------------------------------------------- schedule independence

  /** What an action's result says about the outcomes, with no mention of the schedule. */
  ghost predicate Deserves(g: Graph, oracle: nat -> Outcome, a: nat, r: ActionResult) {
    match r
    case Succeeded => forall b :: g.Ancestor(b, a) ==> oracle(b) == Success
    case Failed(exitCode) =>
      oracle(a) == Failure(exitCode) && forall b :: g.ProperAncestor(b, a) ==> oracle(b) == Success
    case Skipped(because) =>
      && g.ProperAncestor(because, a) && oracle(because).Failure?
      && forall b :: g.ProperAncestor(b, because) ==> oracle(b) == Success
  }

  /** An action succeeds if it and all its ancestors do, fails if it alone does, and is skipped below
      an action that failed after all of its own ancestors had succeeded. */
  lemma ResultsDeserved(g: Graph, oracle: nat -> Outcome, s: State, a: nat)
    requires g.Valid() && Inv(g, oracle, s) && a in s.results
    ensures Deserves(g, oracle, a, s.results[a])
  {
    hide Graph.Valid, WaitingOk, CallsOk;
    assert ResultOk(g, oracle, s, a);
    match s.results[a] {
      case Succeeded =>
        forall b | g.Ancestor(b, a)
          ensures oracle(b) == Success
        {
          var path :| g.PathBetween(path, a, b);
          if |path| >= 2 {
            assert g.ProperAncestor(b, a);
            AncestorsSucceeded(g, oracle, s, a, b);
          }
        }
      case Failed(exitCode) =>
        forall b | g.ProperAncestor(b, a)
          ensures oracle(b) == Success
        {
          AncestorsSucceeded(g, oracle, s, a, b);
        }
      case Skipped(because) =>
        assert ResultOk(g, oracle, s, because);
        var path :| g.PathBetween(path, a, because);
        assert |path| >= 2;
        forall b | g.ProperAncestor(b, because)
          ensures oracle(b) == Success
        {
          AncestorsSucceeded(g, oracle, s, because, b);
        }
    }
  }

  /** The same status; a skipped action may name another failure. */
  predicate SameStatus(r: ActionResult, r': ActionResult) {
    r == r' || (r.Skipped? && r'.Skipped?)
  }

  lemma DeservedOnce(g: Graph, oracle: nat -> Outcome, a: nat, r: ActionResult, r': ActionResult)
    requires a < g.Size() && Deserves(g, oracle, a, r) && Deserves(g, oracle, a, r')
    ensures SameStatus(r, r')
  {
    assert g.PathBetween([a], a, a) && g.Ancestor(a, a);
    forall b | g.ProperAncestor(b, a)
      ensures g.Ancestor(b, a)
    {
      var path :| g.PathBetween(path, a, b) && |path| >= 2;
    }
  }

  /** Two complete runs over the same outcomes give every action the same status, whatever the sorted
      order, the number of workers and the interleaving. */
  lemma ScheduleIndependence(g: Graph, oracle: nat -> Outcome,
                             order: seq<nat>, workers: nat, run: seq<State>,
                             order': seq<nat>, workers': nat, run': seq<State>)
    requires g.Valid() && g.Acyclic() && workers > 0 && workers' > 0
    requires IsRun(g, order, workers, oracle, run) && Stuck(g, workers, oracle, run[|run| - 1])
    requires IsRun(g, order', workers', oracle, run') && Stuck(g, workers', oracle, run'[|run'| - 1])
    ensures var r, r' := run[|run| - 1].results, run'[|run'| - 1].results;
            && r.Keys == r'.Keys == Nodes(g.Size())
            && forall a :: a in r ==> SameStatus(r[a], r'[a])
  {
    var s, s' := run[|run| - 1], run'[|run'| - 1];
    RunInv(g, order, workers, oracle, run, |run| - 1);
    RunInv(g, order', workers', oracle, run', |run'| - 1);
    StuckIsComplete(g, workers, oracle, s);
    StuckIsComplete(g, workers', oracle, s');
    forall a | a in s.results
      ensures SameStatus(s.results[a], s'.results[a])
    {
      ResultsDeserved(g, oracle, s, a);
      ResultsDeserved(g, oracle, s', a);
      DeservedOnce(g, oracle, a, s.results[a], s'.results[a]);
    }
  }

  /** In a complete run every descendant of a failed action is skipped. */
  lemma FailureSkipsDescendants(g: Graph, order: seq<nat>, workers: nat, oracle: nat -> Outcome, run: seq<State>,
                                f: nat, d: nat)
    requires g.Valid() && g.Acyclic() && workers > 0 && IsRun(g, order, workers, oracle, run)
    requires Stuck(g, workers, oracle, run[|run| - 1])
    requires oracle(f).Failure? && d < g.Size() && g.ProperAncestor(f, d)
    ensures d in run[|run| - 1].results && run[|run| - 1].results[d].Skipped?
  {
    var s := run[|run| - 1];
    RunInv(g, order, workers, oracle, run, |run| - 1);
    StuckIsComplete(g, workers, oracle, s);
    assert d in Nodes(g.Size());
    ResultsDeserved(g, oracle, s, d);
    var path :| g.PathBetween(path, d, f) && |path| >= 2;
    assert g.Ancestor(f, d);
  }
}
