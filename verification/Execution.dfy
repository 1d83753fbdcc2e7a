/**
 The parallel executor as a transition system.

 Two kinds of step change the shared state: a worker takes an action from the ready queue, and a
 worker that has run its action enters the locked section. Which worker moves when is left open,
 and so is the outcome of each action.
 */
module Execution {
  import opened Sequences
  import opened Graphs

  datatype Outcome = Success | Failure(exitCode: int)

  /** What `results` holds. A skipped action names the failure it was skipped for. */
  datatype ActionResult = Succeeded | Failed(exitCode: int) | Skipped(because: nat)

  /** The calls on the ready queue, in the order they are made. */
  datatype QueueCall = Add(node: nat) | CompleteAdding

  datatype State = State(
    results: map<nat, ActionResult>,
    remaining: seq<int>,
    ready: seq<nat>,
    running: set<nat>,
    totalSubmitted: int,
    totalCompleted: int,
    totalFailed: int,
    calls: seq<QueueCall>)

  function Adds(nodes: seq<nat>): (r: seq<QueueCall>)
    ensures |r| == |nodes| && forall i :: 0 <= i < |r| ==> r[i] == Add(nodes[i])
  {
    if nodes == [] then [] else Adds(nodes[..|nodes| - 1]) + [Add(nodes[|nodes| - 1])]
  }

  // ---------------------------------------------------------------- skipping

  /** A chain of dependents from `failed` to `d` that runs through unresolved actions only. It is
      written from `d` back to `failed`, along prerequisite edges. */
  ghost predicate Cascade(g: Graph, resolved: set<nat>, failed: nat, chain: seq<nat>) {
    && |chain| >= 2 && g.IsPath(chain) && chain[|chain| - 1] == failed
    && forall i :: 0 <= i < |chain| - 1 ==> chain[i] !in resolved
  }

  ghost predicate Cascades(g: Graph, resolved: set<nat>, failed: nat, d: nat) {
    exists chain :: Cascade(g, resolved, failed, chain) && chain[0] == d
  }

  ghost function SkipSet(g: Graph, resolved: set<nat>, failed: nat): set<nat> {
    set d | 0 <= d < g.Size() && Cascades(g, resolved, failed, d)
  }

  /** Membership, one edge at a time. */
  lemma SkipSetEdge(g: Graph, resolved: set<nat>, failed: nat, d: nat, p: nat)
    requires g.Valid() && failed < g.Size() && d < g.Size() && d !in resolved && p in g.prereqs[d]
    requires p == failed || p in SkipSet(g, resolved, failed)
    ensures d in SkipSet(g, resolved, failed)
  {
    if p == failed {
      assert Cascade(g, resolved, failed, [d, failed]) && [d, failed][0] == d;
    } else {
      var chain :| Cascade(g, resolved, failed, chain) && chain[0] == p;
      assert Cascade(g, resolved, failed, [d] + chain) && ([d] + chain)[0] == d;
    }
  }

  lemma SkipSetMember(g: Graph, resolved: set<nat>, failed: nat, d: nat) returns (p: nat)
    requires d in SkipSet(g, resolved, failed)
    ensures d < g.Size() && d !in resolved
    ensures p in g.prereqs[d] && (p == failed || p in SkipSet(g, resolved, failed))
    ensures p == failed || p !in resolved
    ensures g.Ancestor(failed, d)
  {
    var chain :| Cascade(g, resolved, failed, chain) && chain[0] == d;
    p := chain[1];
    assert g.PathBetween(chain, d, failed);
    if |chain| > 2 {
      assert Cascade(g, resolved, failed, chain[1..]) && chain[1..][0] == p;
    }
  }

  // ---------------------------------------------------------------- the steps

  function Lengths(lists: seq<seq<nat>>): (r: seq<int>)
    ensures |r| == |lists| && forall a :: 0 <= a < |lists| ==> r[a] == |lists[a]|
  {
    if lists == [] then [] else Lengths(lists[..|lists| - 1]) + [|lists[|lists| - 1]|]
  }

  ghost function Start(g: Graph, ready: seq<nat>): State {
    State(map[], Lengths(g.prereqs), ready, {}, |ready|, 0, 0, Adds(ready))
  }

  /** The entries of `order` that have no prerequisites: what the queue is seeded with. */
  function Sources(g: Graph, order: seq<nat>): seq<nat> {
    if order == [] then []
    else
      var last := order[|order| - 1];
      Sources(g, order[..|order| - 1]) + if last < g.Size() && g.prereqs[last] == [] then [last] else []
  }

  /** They are exactly those, in that order. */
  lemma {:induction false} SourcesInOrder(g: Graph, order: seq<nat>)
    ensures IsSubsequence(Sources(g, order), order)
    ensures forall a :: a in Sources(g, order) <==> a in order && a < g.Size() && g.prereqs[a] == []
    decreases |order|
  {
    if order == [] {
      EmptySubsequence(order);
    } else {
      hide IsSubsequence;
      var init, last := order[..|order| - 1], order[|order| - 1];
      SourcesInOrder(g, init);
      SubsequenceGrows(Sources(g, init), init, last);
      assert order == init + [last] && Sources(g, init) + [] == Sources(g, init);
    }
  }

  /** A worker takes the oldest ready action. */
  ghost predicate Take(workers: nat, s: State, s': State) {
    && s.ready != [] && |s.running| < workers
    && s' == s.(ready := s.ready[1..], running := s.running + {s.ready[0]})
  }

  /** The locked section after a successful run: count it and release the dependents. */
  ghost function AfterSuccess(g: Graph, s: State, node: nat): State
    requires g.Valid() && node < g.Size() && |s.remaining| == g.Size()
  {
    var results := s.results[node := Succeeded];
    var (remaining, released) := Release(s.remaining, g.dependents[node], results.Keys);
    s.(results := results, remaining := remaining, ready := s.ready + released, running := s.running - {node},
       totalSubmitted := s.totalSubmitted + |released|, totalCompleted := s.totalCompleted + 1,
       calls := s.calls + Adds(released))
  }

  /** The locked section after a failed run: count it and skip what depended on it. */
  ghost function AfterFailure(g: Graph, s: State, node: nat, exitCode: int): State
    requires g.Valid() && node < g.Size() && |s.remaining| == g.Size()
  {
    var results := s.results[node := Failed(exitCode)];
    var skipped := SkipSet(g, results.Keys, node);
    s.(results := WithSkipped(results, skipped, node), remaining := WithMinusOne(s.remaining, skipped),
       running := s.running - {node},
       totalCompleted := s.totalCompleted + 1 + |skipped|, totalFailed := s.totalFailed + 1 + |skipped|)
  }

  /** `r` is `results` with a skip recorded for every member of `skipped`. */
  ghost predicate IsWithSkipped(
    results: map<nat, ActionResult>, skipped: set<nat>, because: nat, r: map<nat, ActionResult>) {
    && r.Keys == results.Keys + skipped
    && forall a :: a in r ==> r[a] == if a in skipped then Skipped(because) else results[a]
  }

  lemma WithSkippedExists(results: map<nat, ActionResult>, skipped: set<nat>, because: nat)
    ensures exists r :: IsWithSkipped(results, skipped, because, r)
  {
    assert IsWithSkipped(results, skipped, because, results + map d | d in skipped :: Skipped(because));
  }

  ghost function WithSkipped(results: map<nat, ActionResult>, skipped: set<nat>, because: nat)
    : (r: map<nat, ActionResult>)
    ensures IsWithSkipped(results, skipped, because, r)
  {
    WithSkippedExists(results, skipped, because);
    var r :| IsWithSkipped(results, skipped, because, r);
    r
  }

  /** `r` is `remaining` with the counters of the skipped actions set to -1. */
  ghost predicate IsMinusOne(remaining: seq<int>, skipped: set<nat>, r: seq<int>) {
    |r| == |remaining| && forall a :: 0 <= a < |r| ==> r[a] == if a in skipped then -1 else remaining[a]
  }

  lemma {:induction false} MinusOneExists(remaining: seq<int>, skipped: set<nat>)
    ensures exists r :: IsMinusOne(remaining, skipped, r)
  {
    if remaining == [] {
      assert IsMinusOne(remaining, skipped, []);
    } else {
      var n := |remaining| - 1;
      MinusOneExists(remaining[..n], skipped);
      var r :| IsMinusOne(remaining[..n], skipped, r);
      assert IsMinusOne(remaining, skipped, r + [if n in skipped then -1 else remaining[n]]);
    }
  }

  ghost function WithMinusOne(remaining: seq<int>, skipped: set<nat>): (r: seq<int>)
    ensures IsMinusOne(remaining, skipped, r)
  {
    MinusOneExists(remaining, skipped);
    var r :| IsMinusOne(remaining, skipped, r);
    r
  }

  lemma NothingSkipped(results: map<nat, ActionResult>, remaining: seq<int>, because: nat)
    ensures WithSkipped(results, {}, because) == results
    ensures WithMinusOne(remaining, {}) == remaining
  {
  }

  /** The entries of the two dictionaries after the skips. */
  lemma SkippedEntries(results: map<nat, ActionResult>, remaining: seq<int>, skipped: set<nat>, because: nat)
    ensures WithSkipped(results, skipped, because).Keys == results.Keys + skipped
    ensures var r := WithSkipped(results, skipped, because);
            forall a :: a in r ==> r[a] == if a in skipped then Skipped(because) else results[a]
    ensures var r := WithMinusOne(remaining, skipped);
            |r| == |remaining| && forall a :: 0 <= a < |r| ==> r[a] == if a in skipped then -1 else remaining[a]
  {
  }

  /** Skipping one more action. */
  lemma SkipOneMore(results: map<nat, ActionResult>, skipped: set<nat>, because: nat, d: nat)
    ensures WithSkipped(results, skipped, because)[d := Skipped(because)]
         == WithSkipped(results, skipped + {d}, because)
  {
    var a := WithSkipped(results, skipped, because)[d := Skipped(because)];
    var b := WithSkipped(results, skipped + {d}, because);
    assert a.Keys == b.Keys;
    forall x | x in a
      ensures a[x] == b[x]
    {
    }
  }

  lemma MinusOneMore(remaining: seq<int>, skipped: set<nat>, d: nat)
    requires d < |remaining|
    ensures WithMinusOne(remaining, skipped)[d := -1] == WithMinusOne(remaining, skipped + {d})
  {
    var a, b := WithMinusOne(remaining, skipped)[d := -1], WithMinusOne(remaining, skipped + {d});
    assert forall x :: 0 <= x < |a| ==> a[x] == b[x];
  }

  /** The last thing the locked section does: close the queue once everything has a result. */
  ghost function CloseWhenDone(g: Graph, s: State): State {
    if s.totalCompleted == g.Size() then s.(calls := s.calls + [CompleteAdding]) else s
  }

  ghost function Finished(g: Graph, s: State, node: nat, outcome: Outcome): State
    requires g.Valid() && node < g.Size() && |s.remaining| == g.Size()
  {
    CloseWhenDone(g, match outcome
                     case Success => AfterSuccess(g, s, node)
                     case Failure(exitCode) => AfterFailure(g, s, node, exitCode))
  }

  ghost predicate Finish(g: Graph, oracle: nat -> Outcome, s: State, s': State)
    requires g.Valid()
  {
    exists node :: node in s.running && FinishOf(g, oracle, node, s, s')
  }

  ghost predicate FinishOf(g: Graph, oracle: nat -> Outcome, node: nat, s: State, s': State)
    requires g.Valid()
  {
    node < g.Size() && |s.remaining| == g.Size() && s' == Finished(g, s, node, oracle(node))
  }

  ghost predicate Step(g: Graph, workers: nat, oracle: nat -> Outcome, s: State, s': State)
    requires g.Valid()
  {
    Take(workers, s, s') || Finish(g, oracle, s, s')
  }

  // ---------------------------------------------------------------- the invariant

  ghost function Done(s: State): set<nat> {
    DoneIn(s.results)
  }

  ghost function Unsuccessful(s: State): set<nat> {
    UnsuccessfulIn(s.results)
  }

  ghost function Ran(s: State): set<nat> {
    RanIn(s.results)
  }

  ghost function DoneIn(results: map<nat, ActionResult>): set<nat> {
    set a | a in results && results[a].Succeeded?
  }

  ghost function UnsuccessfulIn(results: map<nat, ActionResult>): set<nat> {
    set a | a in results && !results[a].Succeeded?
  }

  ghost function RanIn(results: map<nat, ActionResult>): set<nat> {
    set a | a in results && !results[a].Skipped?
  }

  /** Where the actions are: each in at most one of the queue, a worker and the results. */
  ghost predicate PlacesOk(g: Graph, s: State) {
    && |s.remaining| == g.Size()
    && Distinct(s.ready) && (forall a :: a in s.ready ==> a < g.Size() && a !in s.running && a !in s.results)
    && (forall a :: a in s.running ==> a < g.Size() && a !in s.results)
    && (forall a :: a in s.results ==> a < g.Size())
  }

  /** Why a result is what it is. */
  ghost predicate ResultOk(g: Graph, oracle: nat -> Outcome, s: State, a: nat)
    requires a in s.results && a < g.Size()
  {
    match s.results[a]
    case Succeeded => oracle(a) == Success && (forall p :: p in g.prereqs[a] ==> p in Done(s))
    case Failed(exitCode) => oracle(a) == Failure(exitCode) && (forall p :: p in g.prereqs[a] ==> p in Done(s))
    case Skipped(because) =>
      && (exists p :: p in g.prereqs[a] && p in Unsuccessful(s))
      && because in s.results && s.results[because].Failed? && g.Ancestor(because, a)
  }

  /** An action without a result: none of its prerequisites has failed, its counter is right, and it
      is queued or running exactly when nothing is left to wait for. */
  ghost predicate WaitingOk(g: Graph, s: State, a: nat)
    requires a < g.Size() == |s.remaining|
  {
    && (forall p :: p in g.prereqs[a] && p in s.results ==> p in Done(s))
    && s.remaining[a] == Remaining(g.prereqs[a], Done(s))
    && (a in s.ready || a in s.running <==> s.remaining[a] == 0)
  }

  ghost predicate CountsOk(s: State) {
    && s.totalCompleted == |s.results|
    && s.totalFailed == |Unsuccessful(s)|
  }

  /** What has been queued: every action at most once, exactly those that are queued, running or run, first in,
      first out; after the last of them, once everything has a result, the queue is closed. */
  ghost predicate CallsOk(g: Graph, s: State) {
    exists added :: CallsFor(g, s, added)
  }

  /** The queue holds what was added last, in the order in which it was added. */
  predicate InTurn(ready: seq<nat>, added: seq<nat>) {
    |ready| <= |added| && ready == added[|added| - |ready|..]
  }

  lemma AddedInTurn(ready: seq<nat>, added: seq<nat>, more: seq<nat>)
    requires InTurn(ready, added)
    ensures InTurn(ready + more, added + more)
  {
  }

  ghost predicate CallsFor(g: Graph, s: State, added: seq<nat>) {
    && Distinct(added) && s.totalSubmitted == |added|
    && (forall a :: a in added <==> a in s.ready || a in s.running || a in Ran(s))
    && InTurn(s.ready, added)
    && s.calls == Adds(added) + if |s.results| == g.Size() > 0 then [CompleteAdding] else []
  }

  /** Everything but the queue calls. */
  ghost predicate Core(g: Graph, oracle: nat -> Outcome, s: State) {
    && PlacesOk(g, s)
    && (forall a :: a in s.results ==> ResultOk(g, oracle, s, a))
    && (forall a :: 0 <= a < g.Size() && a !in s.results ==> WaitingOk(g, s, a))
    && CountsOk(s)
  }

  ghost predicate Inv(g: Graph, oracle: nat -> Outcome, s: State) {
    Core(g, oracle, s) && CallsOk(g, s)
  }

  /** Closing the queue touches nothing else. */
  lemma CloseKeeps(g: Graph, oracle: nat -> Outcome, s: State)
    requires Core(g, oracle, s)
    ensures Core(g, oracle, CloseWhenDone(g, s))
  {
    var s' := CloseWhenDone(g, s);
    forall a | a in s'.results
      ensures ResultOk(g, oracle, s', a)
    {
      assert ResultOk(g, oracle, s, a);
    }
    forall a | 0 <= a < g.Size() && a !in s'.results
      ensures WaitingOk(g, s', a)
    {
      assert WaitingOk(g, s, a);
    }
  }

  // ---------------------------------------------------------------- the invariant holds throughout

  lemma {:induction false} SourcesAre(g: Graph, order: seq<nat>)
    ensures forall a :: a in Sources(g, order) <==> a in order && a < g.Size() && g.prereqs[a] == []
    ensures Distinct(order) ==> Distinct(Sources(g, order))
  {
    if order != [] {
      SourcesAre(g, order[..|order| - 1]);
    }
  }

  lemma StartInv(g: Graph, oracle: nat -> Outcome, order: seq<nat>)
    requires g.Valid() && Distinct(order) && Elements(order) == Nodes(g.Size())
    ensures Inv(g, oracle, Start(g, Sources(g, order)))
  {
    var ready := Sources(g, order);
    var s := Start(g, ready);
    SourcesAre(g, order);
    assert Done(s) == {} && Unsuccessful(s) == {} && Ran(s) == {};
    forall a | 0 <= a < g.Size()
      ensures WaitingOk(g, s, a)
    {
      RemainingNone(g.prereqs[a]);
      assert a in Nodes(g.Size()) && a in Elements(order);
    }
    assert CallsFor(g, s, ready);
  }

  lemma TakeInv(g: Graph, oracle: nat -> Outcome, workers: nat, s: State, s': State)
    requires g.Valid() && Inv(g, oracle, s) && Take(workers, s, s')
    ensures Inv(g, oracle, s')
  {
    hide Graph.Valid, ResultOk, WaitingOk, PlacesOk, CallsOk;
    TakePlaces(g, s, s');
    forall a | 0 <= a < g.Size() && a !in s'.results
      ensures WaitingOk(g, s', a)
    {
      TakeWaiting(g, s, s', a);
    }
    forall a | a in s'.results
      ensures ResultOk(g, oracle, s', a)
    {
      TakeResult(g, oracle, s, s', a);
    }
    TakeCalls(g, s, s');
  }

  lemma TakePlaces(g: Graph, s: State, s': State)
    requires PlacesOk(g, s) && s.ready != []
    requires s' == s.(ready := s.ready[1..], running := s.running + {s.ready[0]})
    ensures PlacesOk(g, s')
    ensures forall a :: a in s.results ==> a < g.Size()
  {
    assert forall i :: 0 <= i < |s'.ready| ==> s'.ready[i] == s.ready[i + 1];
    forall a | a in s'.ready ensures a in s.ready && a != s.ready[0] {
      var i :| 0 <= i < |s'.ready| && s'.ready[i] == a;
      assert s.ready[i + 1] == a;
    }
    assert s.ready[0] in s.ready;
  }

  lemma TakeWaiting(g: Graph, s: State, s': State, a: nat)
    requires a < g.Size() == |s.remaining| && WaitingOk(g, s, a) && s.ready != []
    requires s' == s.(ready := s.ready[1..], running := s.running + {s.ready[0]})
    ensures WaitingOk(g, s', a)
  {
    assert s.ready == [s.ready[0]] + s'.ready;
  }

  lemma TakeResult(g: Graph, oracle: nat -> Outcome, s: State, s': State, a: nat)
    requires a in s.results && a < g.Size() && ResultOk(g, oracle, s, a) && s'.results == s.results
    ensures ResultOk(g, oracle, s', a)
  {
  }

  lemma TakeCalls(g: Graph, s: State, s': State)
    requires CallsOk(g, s) && s.ready != []
    requires s' == s.(ready := s.ready[1..], running := s.running + {s.ready[0]})
    ensures CallsOk(g, s')
  {
    var added :| CallsFor(g, s, added);
    forall a
      ensures a in s.ready <==> a == s.ready[0] || a in s'.ready
    {
      assert s.ready == [s.ready[0]] + s'.ready;
    }
    assert CallsFor(g, s', added);
  }

  /** The counters after a success, and who is released. */
  lemma SuccessRelease(g: Graph, oracle: nat -> Outcome, s: State, node: nat)
    requires g.Valid() && Inv(g, oracle, s) && node in s.running
    ensures var s' := AfterSuccess(g, s, node);
            var released := Release(s.remaining, g.dependents[node], s'.results.Keys).1;
            && Distinct(released)
            && (forall a :: 0 <= a < g.Size() && a !in s'.results ==>
                  s'.remaining[a] == Remaining(g.prereqs[a], Done(s) + {node}))
            && (forall a: nat :: a in released <==>
                  a < g.Size() && a !in s'.results && s'.remaining[a] == 0 && s.remaining[a] > 0)
  {
    var s' := AfterSuccess(g, s, node);
    var deps := g.dependents[node];
    assert node !in Done(s);
    forall a | 0 <= a < g.Size() && a !in s'.results.Keys
      ensures multiset(deps)[a] <= s.remaining[a]
      ensures s.remaining[a] - multiset(deps)[a] == Remaining(g.prereqs[a], Done(s) + {node})
      ensures a in deps <==> multiset(deps)[a] > 0
    {
      assert WaitingOk(g, s, a);
      RemainingStep(g.prereqs[a], Done(s), node);
      assert a in deps <==> a in multiset(deps);
    }
    ReleaseEffect(s.remaining, deps, s'.results.Keys);
  }

  lemma SuccessSets(results: map<nat, ActionResult>, node: nat)
    requires node !in results
    ensures var results' := results[node := Succeeded];
            && DoneIn(results') == DoneIn(results) + {node}
            && UnsuccessfulIn(results') == UnsuccessfulIn(results)
            && RanIn(results') == RanIn(results) + {node}
            && |results'| == |results| + 1
  {
  }

  lemma SuccessPlaces(g: Graph, s: State, node: nat, released: seq<nat>, s': State)
    requires PlacesOk(g, s) && node in s.running && Distinct(released)
    requires forall a :: a in released ==> a < g.Size() && a !in s.ready && a !in s.running && a !in s.results
    requires s'.ready == s.ready + released && s'.running == s.running - {node} && |s'.remaining| == g.Size()
    requires s'.results == s.results[node := Succeeded]
    ensures PlacesOk(g, s')
  {
    forall i, j | 0 <= i < j < |s'.ready|
      ensures s'.ready[i] != s'.ready[j]
    {
      if i < |s.ready| <= j {
        assert s'.ready[i] in s.ready && s'.ready[j] in released;
      }
    }
  }

  lemma SuccessResult(g: Graph, oracle: nat -> Outcome, s: State, node: nat, a: nat)
    requires g.Valid() && Inv(g, oracle, s) && node in s.running && oracle(node) == Success
    requires a in AfterSuccess(g, s, node).results && a < g.Size()
    ensures ResultOk(g, oracle, AfterSuccess(g, s, node), a)
  {
    SuccessSets(s.results, node);
    if a == node {
      assert WaitingOk(g, s, node);
      RemainingZero(g.prereqs[node], Done(s));
    } else {
      assert ResultOk(g, oracle, s, a);
    }
  }

  lemma SuccessWaiting(g: Graph, oracle: nat -> Outcome, s: State, node: nat, a: nat)
    requires g.Valid() && Inv(g, oracle, s) && node in s.running
    requires a < g.Size() && a !in AfterSuccess(g, s, node).results
    ensures WaitingOk(g, AfterSuccess(g, s, node), a)
  {
    SuccessSets(s.results, node);
    SuccessRelease(g, oracle, s, node);
    assert WaitingOk(g, s, a);
    RemainingStep(g.prereqs[a], Done(s), node);
  }

  lemma SuccessCore(g: Graph, oracle: nat -> Outcome, s: State, node: nat)
    requires g.Valid() && Inv(g, oracle, s) && node in s.running && oracle(node) == Success
    ensures Core(g, oracle, AfterSuccess(g, s, node))
    ensures var released := Release(s.remaining, g.dependents[node], s.results[node := Succeeded].Keys).1;
            Distinct(released) && forall a :: a in released ==> a !in s.ready && a !in s.running && a !in s.results
  {
    var s' := AfterSuccess(g, s, node);
    var released := Release(s.remaining, g.dependents[node], s'.results.Keys).1;
    SuccessRelease(g, oracle, s, node);
    forall a | a in released
      ensures a !in s.ready && a !in s.running
    {
      assert WaitingOk(g, s, a);
    }
    SuccessPlaces(g, s, node, released, s');
    SuccessSets(s.results, node);
    forall a | a in s'.results
      ensures ResultOk(g, oracle, s', a)
    {
      SuccessResult(g, oracle, s, node, a);
    }
    forall a | 0 <= a < g.Size() && a !in s'.results
      ensures WaitingOk(g, s', a)
    {
      SuccessWaiting(g, oracle, s, node, a);
    }
  }

  lemma SuccessInv(g: Graph, oracle: nat -> Outcome, s: State, node: nat)
    requires g.Valid() && Inv(g, oracle, s) && node in s.running && oracle(node) == Success
    ensures Inv(g, oracle, CloseWhenDone(g, AfterSuccess(g, s, node)))
  {
    var s1 := AfterSuccess(g, s, node);
    SuccessCore(g, oracle, s, node);
    CloseKeeps(g, oracle, s1);
    SuccessSets(s.results, node);
    CloseEffect(g, s1);
    SuccessCalls(g, s, CloseWhenDone(g, s1), node, Release(s.remaining, g.dependents[node], s1.results.Keys).1);
  }

  lemma SuccessCalls(g: Graph, s: State, s': State, node: nat, released: seq<nat>)
    requires PlacesOk(g, s) && CallsOk(g, s) && node in s.running
    requires Distinct(released)
    requires forall a :: a in released ==> a !in s.ready && a !in s.running && a !in s.results
    requires s'.ready == s.ready + released && s'.running == s.running - {node} && Ran(s') == Ran(s) + {node}
    requires s'.totalSubmitted == s.totalSubmitted + |released|
    requires s'.calls == s.calls + Adds(released) + if |s'.results| == g.Size() then [CompleteAdding] else []
    ensures CallsOk(g, s')
  {
    hide Adds, Ran, Distinct, PlacesOk, InTurn;
    var added :| CallsFor(g, s, added);
    AddedInTurn(s.ready, added, released);
    NotYetDone(g, s, node);
    AppendDistinct(g, s, added, released);
    AddsAppend(added, released);
    AppendMembers(g, s, s', node, added, released);
    assert s'.calls == Adds(added + released) + if |s'.results| == g.Size() > 0 then [CompleteAdding] else [];
    assert CallsFor(g, s', added + released);
  }

  lemma AppendMembers(g: Graph, s: State, s': State, node: nat, added: seq<nat>, released: seq<nat>)
    requires CallsFor(g, s, added) && node in s.running
    requires s'.ready == s.ready + released && s'.running == s.running - {node} && Ran(s') == Ran(s) + {node}
    ensures forall a :: a in added + released <==> a in s'.ready || a in s'.running || a in Ran(s')
  {
    hide Ran, InTurn;
  }

  lemma AppendDistinct(g: Graph, s: State, added: seq<nat>, released: seq<nat>)
    requires CallsFor(g, s, added) && Distinct(released)
    requires forall a :: a in released ==> a !in s.ready && a !in s.running && a !in s.results
    ensures Distinct(added + released)
  {
    var longer := added + released;
    forall i, j | 0 <= i < j < |longer|
      ensures longer[i] != longer[j]
    {
      if i < |added| <= j {
        assert longer[i] in added && longer[j] in released;
      }
    }
  }

  lemma {:induction false} AddsAppend(a: seq<nat>, b: seq<nat>)
    ensures Adds(a + b) == Adds(a) + Adds(b)
  {
  }

  /** While an action is running, not everything has a result. */
  lemma NotYetDone(g: Graph, s: State, node: nat)
    requires PlacesOk(g, s) && node in s.running
    ensures |s.results| < g.Size()
  {
    assert s.results.Keys + {node} <= Nodes(g.Size());
    SubsetSize(s.results.Keys + {node}, Nodes(g.Size()));
    assert |s.results.Keys + {node}| == |s.results.Keys| + 1;
  }

  // ---------------------------------------------------------------- failures

  /** Nothing that is queued or running is ever skipped. */
  lemma SkippedWaits(g: Graph, oracle: nat -> Outcome, s: State, node: nat, exitCode: int, d: nat)
    requires g.Valid() && Inv(g, oracle, s) && node in s.running
    requires d in SkipSet(g, s.results[node := Failed(exitCode)].Keys, node)
    ensures d < g.Size() && d !in s.results && d != node && d !in s.ready && d !in s.running
  {
    var p := SkipSetMember(g, s.results[node := Failed(exitCode)].Keys, node, d);
    assert WaitingOk(g, s, d);
    RemainingZero(g.prereqs[d], Done(s));
  }

  lemma SkipSets(results: map<nat, ActionResult>, node: nat, exitCode: int, skipped: set<nat>,
                 results': map<nat, ActionResult>)
    requires node !in results && node !in skipped && results.Keys !! skipped
    requires results' == WithSkipped(results[node := Failed(exitCode)], skipped, node)
    ensures results'.Keys == results.Keys + {node} + skipped
    ensures DoneIn(results') == DoneIn(results)
    ensures UnsuccessfulIn(results') == UnsuccessfulIn(results) + {node} + skipped
    ensures RanIn(results') == RanIn(results) + {node}
  {
    var failed := results[node := Failed(exitCode)];
    forall a
      ensures a in results' <==> a in results || a == node || a in skipped
      ensures a in results' ==>
        results'[a] == if a in skipped then Skipped(node) else if a == node then Failed(exitCode) else results[a]
    {
      assert a in failed <==> a in results || a == node;
    }
  }

  lemma SkipSizes(results: map<nat, ActionResult>, node: nat, exitCode: int, skipped: set<nat>,
                  results': map<nat, ActionResult>)
    requires node !in results && node !in skipped && results.Keys !! skipped
    requires results' == WithSkipped(results[node := Failed(exitCode)], skipped, node)
    ensures |results'| == |results| + 1 + |skipped|
    ensures |UnsuccessfulIn(results')| == |UnsuccessfulIn(results)| + 1 + |skipped|
  {
    SkipSets(results, node, exitCode, skipped, results');
    DisjointSizes(results.Keys, skipped, node);
    assert UnsuccessfulIn(results) <= results.Keys;
    DisjointSizes(UnsuccessfulIn(results), skipped, node);
    assert |results'| == |results'.Keys| && |results| == |results.Keys|;
  }

  lemma DisjointSizes(a: set<nat>, b: set<nat>, x: nat)
    requires a !! b && x !in a && x !in b
    ensures |a + {x} + b| == |a| + 1 + |b|
  {
  }

  lemma FailureSets(g: Graph, oracle: nat -> Outcome, s: State, node: nat, exitCode: int, skipped: set<nat>)
    requires g.Valid() && Inv(g, oracle, s) && node in s.running
    requires skipped == SkipSet(g, s.results[node := Failed(exitCode)].Keys, node)
    ensures forall d :: d in skipped ==>
      d < g.Size() && d !in s.results && d != node && d !in s.ready && d !in s.running
    ensures AfterFailure(g, s, node, exitCode).results
         == WithSkipped(s.results[node := Failed(exitCode)], skipped, node)
  {
    forall d | d in skipped
      ensures d < g.Size() && d !in s.results && d != node && d !in s.ready && d !in s.running
    {
      SkippedWaits(g, oracle, s, node, exitCode, d);
    }
  }

  lemma FailurePlaces(g: Graph, s: State, node: nat, exitCode: int, skipped: set<nat>)
    requires g.Valid() && PlacesOk(g, s) && CountsOk(s) && node in s.running
    requires skipped == SkipSet(g, s.results[node := Failed(exitCode)].Keys, node)
    requires forall d :: d in skipped ==>
      d < g.Size() && d !in s.results && d != node && d !in s.ready && d !in s.running
    ensures PlacesOk(g, AfterFailure(g, s, node, exitCode))
    ensures CountsOk(AfterFailure(g, s, node, exitCode))
  {
    var s' := AfterFailure(g, s, node, exitCode);
    SkipSets(s.results, node, exitCode, skipped, s'.results);
    SkipSizes(s.results, node, exitCode, skipped, s'.results);
  }

  /** Whoever is left unresolved waits on nothing that failed: the skipping went all the way. */
  lemma FailureWaiting(g: Graph, oracle: nat -> Outcome, s: State, node: nat, exitCode: int, a: nat)
    requires g.Valid() && Inv(g, oracle, s) && node in s.running
    requires a < g.Size() && a !in AfterFailure(g, s, node, exitCode).results
    ensures WaitingOk(g, AfterFailure(g, s, node, exitCode), a)
  {
    var s' := AfterFailure(g, s, node, exitCode);
    var resolved := s.results[node := Failed(exitCode)].Keys;
    var skipped := SkipSet(g, resolved, node);
    FailureSets(g, oracle, s, node, exitCode, skipped);
    SkipSets(s.results, node, exitCode, skipped, s'.results);
    assert WaitingOk(g, s, a);
    forall p | p in g.prereqs[a] && p in s'.results
      ensures p in Done(s')
    {
      if p == node || p in skipped {
        SkipSetEdge(g, resolved, node, a, p);
      }
    }
  }

  lemma FailureResult(g: Graph, oracle: nat -> Outcome, s: State, node: nat, exitCode: int, a: nat)
    requires g.Valid() && Inv(g, oracle, s) && node in s.running && oracle(node) == Failure(exitCode)
    requires a in AfterFailure(g, s, node, exitCode).results && a < g.Size()
    ensures ResultOk(g, oracle, AfterFailure(g, s, node, exitCode), a)
  {
    var s' := AfterFailure(g, s, node, exitCode);
    var resolved := s.results[node := Failed(exitCode)].Keys;
    var skipped := SkipSet(g, resolved, node);
    FailureSets(g, oracle, s, node, exitCode, skipped);
    SkipSets(s.results, node, exitCode, skipped, s'.results);
    if a in skipped {
      var p := SkipSetMember(g, resolved, node, a);
      assert p in Unsuccessful(s');
    } else if a == node {
      assert WaitingOk(g, s, node);
      RemainingZero(g.prereqs[node], Done(s));
    } else {
      assert ResultOk(g, oracle, s, a);
    }
  }

  lemma FailureCore(g: Graph, oracle: nat -> Outcome, s: State, node: nat, exitCode: int, skipped: set<nat>)
    requires g.Valid() && Inv(g, oracle, s) && node in s.running && oracle(node) == Failure(exitCode)
    requires skipped == SkipSet(g, s.results[node := Failed(exitCode)].Keys, node)
    ensures Core(g, oracle, AfterFailure(g, s, node, exitCode))
    ensures Ran(AfterFailure(g, s, node, exitCode)) == Ran(s) + {node}
  {
    var s' := AfterFailure(g, s, node, exitCode);
    FailureSets(g, oracle, s, node, exitCode, skipped);
    FailurePlaces(g, s, node, exitCode, skipped);
    SkipSets(s.results, node, exitCode, skipped, s'.results);
    forall a | a in s'.results
      ensures ResultOk(g, oracle, s', a)
    {
      FailureResult(g, oracle, s, node, exitCode, a);
    }
    forall a | 0 <= a < g.Size() && a !in s'.results
      ensures WaitingOk(g, s', a)
    {
      FailureWaiting(g, oracle, s, node, exitCode, a);
    }
  }

  lemma FailureInv(g: Graph, oracle: nat -> Outcome, s: State, node: nat, exitCode: int)
    requires g.Valid() && Inv(g, oracle, s) && node in s.running && oracle(node) == Failure(exitCode)
    ensures Inv(g, oracle, CloseWhenDone(g, AfterFailure(g, s, node, exitCode)))
  {
    var s1 := AfterFailure(g, s, node, exitCode);
    FailureCore(g, oracle, s, node, exitCode, SkipSet(g, s.results[node := Failed(exitCode)].Keys, node));
    CloseKeeps(g, oracle, s1);
    FailureLeaves(g, s, node, exitCode);
    CloseEffect(g, s1);
    FailureCalls(g, s, CloseWhenDone(g, s1), node);
  }

  lemma FailureLeaves(g: Graph, s: State, node: nat, exitCode: int)
    requires g.Valid() && node < g.Size() && |s.remaining| == g.Size()
    ensures var s' := AfterFailure(g, s, node, exitCode);
            s'.ready == s.ready && s'.running == s.running - {node}
            && s'.totalSubmitted == s.totalSubmitted && s'.calls == s.calls
  {
  }

  lemma CloseEffect(g: Graph, s: State)
    requires CountsOk(s)
    ensures var s' := CloseWhenDone(g, s);
            && s'.results == s.results && s'.ready == s.ready && s'.running == s.running
            && s'.totalSubmitted == s.totalSubmitted
            && s'.calls == s.calls + if |s.results| == g.Size() then [CompleteAdding] else []
  {
  }

  lemma FailureCalls(g: Graph, s: State, s': State, node: nat)
    requires PlacesOk(g, s) && CallsOk(g, s) && node in s.running
    requires s'.ready == s.ready && s'.running == s.running - {node} && Ran(s') == Ran(s) + {node}
    requires s'.totalSubmitted == s.totalSubmitted
    requires s'.calls == s.calls + if |s'.results| == g.Size() then [CompleteAdding] else []
    ensures CallsOk(g, s')
  {
    var added :| CallsFor(g, s, added);
    NotYetDone(g, s, node);
    assert CallsFor(g, s', added);
  }

  lemma StepInv(g: Graph, workers: nat, oracle: nat -> Outcome, s: State, s': State)
    requires g.Valid() && Inv(g, oracle, s) && Step(g, workers, oracle, s, s')
    ensures Inv(g, oracle, s')
  {
    if Take(workers, s, s') {
      TakeInv(g, oracle, workers, s, s');
    } else {
      var node :| node in s.running && FinishOf(g, oracle, node, s, s');
      match oracle(node) {
        case Success => SuccessInv(g, oracle, s, node);
        case Failure(exitCode) => FailureInv(g, oracle, s, node, exitCode);
      }
    }
  }
}
