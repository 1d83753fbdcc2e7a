/**
 Cycle detection: Kahn's drain over the linked graph, and the search that names one cycle when the
 drain leaves actions behind.
 */
module Kahn {
  import opened Wrappers
  import opened Sequences
  import opened Graphs
  import opened CycleSearch

  /** Every counter starts at the number of prerequisite entries. */
  method InDegrees(g: Graph) returns (indegree: seq<int>)
    ensures CountersCorrect(g, indegree, {})
  {
    indegree := [];
    var k := 0;
    while k < g.Size()
      invariant 0 <= k <= g.Size() && |indegree| == k
      invariant forall a :: 0 <= a < k ==> indegree[a] == Remaining(g.prereqs[a], {})
    {
      RemainingNone(g.prereqs[k]);
      indegree := indegree + [|g.prereqs[k]|];
      k := k + 1;
    }
  }

  /** The actions without prerequisites, in input order. */
  method InitialQueue(g: Graph, indegree: seq<int>) returns (ready: seq<nat>)
    requires CountersCorrect(g, indegree, {})
    ensures Distinct(ready) && Elements(ready) == g.ReadyAfter({})
    ensures forall i, j :: 0 <= i < j < |ready| ==> ready[i] < ready[j]
  {
    ready := [];
    var k := 0;
    while k < g.Size()
      invariant 0 <= k <= g.Size()
      invariant forall i :: 0 <= i < |ready| ==> ready[i] < k
      invariant forall i, j :: 0 <= i < j < |ready| ==> ready[i] < ready[j]
      invariant forall a: nat :: a in ready <==> a < k && indegree[a] == 0
    {
      if indegree[k] == 0 {
        ready := ready + [k];
      }
      k := k + 1;
    }
    forall a | 0 <= a < g.Size()
      ensures a in g.ReadyAfter({}) <==> a in ready
    {
      ReadyIffZero(g, {}, a);
    }
  }

  /** Kahn's algorithm. It reaches exactly the safe actions; `indegree` ends up holding, for every
      action, the number of its prerequisite entries that are not safe. */
  method Drain(g: Graph) returns (indegree: seq<int>, processed: nat)
    requires g.Valid()
    ensures CountersCorrect(g, indegree, g.SafeNodes())
    ensures processed == |g.SafeNodes()|
  {
    indegree := InDegrees(g);
    var ready := InitialQueue(g, indegree);
    ghost var done: set<nat> := {};
    processed := 0;
    while |ready| > 0
      invariant processed == |done| && processed <= g.Size()
      invariant CountersCorrect(g, indegree, done) && g.Closed(done)
      invariant forall a :: a in done ==> g.Safe(a)
      invariant Distinct(ready) && Elements(ready) == g.ReadyAfter(done)
      decreases g.Size() - processed
    {
      var node := ready[0];
      assert node in Elements(ready);
      var rest := ready[1..];
      FinishReady(g, indegree, done, node);
      SafeFromPrerequisites(g, node);
      ghost var released := Release(indegree, g.dependents[node], {}).1;
      QueueAfterFinish(g, done, ready, released);
      indegree, ready := ReleaseDependents(g.dependents[node], indegree, rest);
      processed := processed + 1;
      done := done + {node};
      SubsetSize(done, Nodes(g.Size()));
    }
    NothingQueued(g, done, ready);
    DrainedAreSafe(g, done);
  }

  lemma DrainedAreSafe(g: Graph, done: set<nat>)
    requires g.Valid() && g.Closed(done) && g.ReadyAfter(done) == {}
    requires forall a :: a in done ==> g.Safe(a)
    ensures done == g.SafeNodes()
  {
    forall a: nat | a < g.Size() && a !in done
      ensures !g.Safe(a)
    {
      NothingReadyIsUnsafe(g, done, a);
    }
  }

  lemma NothingQueued(g: Graph, done: set<nat>, ready: seq<nat>)
    requires ready == [] && Elements(ready) == g.ReadyAfter(done)
    ensures g.ReadyAfter(done) == {}
  {
  }

  lemma QueueAfterFinish(g: Graph, done: set<nat>, ready: seq<nat>, released: seq<nat>)
    requires ready != [] && Distinct(ready) && Elements(ready) == g.ReadyAfter(done)
    requires Distinct(released) && forall a :: a in released ==> a !in g.ReadyAfter(done)
    requires g.ReadyAfter(done + {ready[0]}) == g.ReadyAfter(done) - {ready[0]} + Elements(released)
    ensures Distinct(ready[1..] + released)
    ensures Elements(ready[1..] + released) == g.ReadyAfter(done + {ready[0]})
  {
    var queue := ready[1..] + released;
    forall i, j | 0 <= i < j < |queue|
      ensures queue[i] != queue[j]
    {
      if i < |ready| - 1 <= j {
        assert queue[i] == ready[i + 1] && queue[i] in Elements(ready);
        assert queue[j] in released;
      }
    }
    forall a
      ensures a in Elements(queue) <==> (a in Elements(ready) && a != ready[0]) || a in Elements(released)
    {
      assert ready == [ready[0]] + ready[1..];
    }
  }

  /** Lower the counter of every dependent in the list, and queue those that reach zero. */
  method ReleaseDependents(deps: seq<nat>, indegree: seq<int>, queue: seq<nat>)
    returns (counters: seq<int>, ready: seq<nat>)
    requires forall i :: 0 <= i < |deps| ==> deps[i] < |indegree|
    ensures counters == Release(indegree, deps, {}).0
    ensures ready == queue + Release(indegree, deps, {}).1
  {
    counters, ready := indegree, queue;
    hide Release;
    ghost var effect := Release(indegree, deps, {});
    ghost var released: seq<nat> := [];
    var j := 0;
    assert deps[0..] == deps;
    while j < |deps|
      invariant 0 <= j <= |deps| && |counters| == |indegree|
      invariant ready == queue + released
      invariant Release(counters, deps[j..], {}).0 == effect.0
      invariant released + Release(counters, deps[j..], {}).1 == effect.1
    {
      var dep := deps[j];
      ReleaseTurn(counters, deps, j, {});
      var newDegree := counters[dep] - 1;
      counters := counters[dep := newDegree];
      if newDegree == 0 {
        Regroup(queue, released, [dep]);
        Regroup(released, [dep], Release(counters, deps[j + 1..], {}).1);
        ready := ready + [dep];
        released := released + [dep];
      }
      j := j + 1;
    }
    ReleaseNothing(counters, deps, {});
  }

  /** The search state: a stack, the nodes on it in order, and where each of them is. */
  ghost predicate SearchOk(g: Graph, start: nat, work: seq<Frame>, stackIndex: map<nat, nat>, stackOrder: seq<nat>) {
    && StackOk(g, work) && |work| <= g.Size()
    && stackOrder == Trail(work) && Indexed(stackIndex, stackOrder)
    && (if work == [] then g.Safe(start) else work[0].node == start)
  }

  lemma TopFrame(g: Graph, start: nat, work: seq<Frame>, stackIndex: map<nat, nat>, stackOrder: seq<nat>)
    requires g.Valid() && SearchOk(g, start, work, stackIndex, stackOrder) && work != []
    ensures var top := work[|work| - 1];
            && top.node < g.Size() && top.next <= |g.prereqs[top.node]|
            && |stackOrder| == |work| && stackOrder[|work| - 1] == top.node
            && (top.next < |g.prereqs[top.node]| ==> g.prereqs[top.node][top.next] < g.Size())
  {
  }

  lemma Leave(g: Graph, start: nat, work: seq<Frame>, stackIndex: map<nat, nat>, stackOrder: seq<nat>)
    requires SearchOk(g, start, work, stackIndex, stackOrder) && work != []
    requires work[|work| - 1].next == |g.prereqs[work[|work| - 1].node]|
    ensures var n := |work| - 1;
            && n < |stackOrder|
            && SearchOk(g, start, work[..n], stackIndex - {work[n].node}, stackOrder[..n])
            && FramesOk(g, work) && Weight(g, work[..n]) < Weight(g, work)
  {
    hide Weight, Indexed;
    StackAfterPop(g, work);
    WeightAfterPop(g, work);
    IndexedPop(stackIndex, stackOrder);
  }

  lemma Enter(g: Graph, start: nat, work: seq<Frame>, stackIndex: map<nat, nat>, stackOrder: seq<nat>, child: nat)
    requires g.Valid() && SearchOk(g, start, work, stackIndex, stackOrder) && work != [] && child !in stackIndex
    requires var top := work[|work| - 1]; top.next < |g.prereqs[top.node]| && child == g.prereqs[top.node][top.next]
    ensures var pushed := PushChild(work, child);
            && SearchOk(g, start, pushed, stackIndex[child := |stackOrder|], stackOrder + [child])
            && FramesOk(g, work) && Weight(g, pushed) < Weight(g, work)
  {
    hide Weight, Indexed;
    TopFrame(g, start, work, stackIndex, stackOrder);
    IndexedPush(stackIndex, stackOrder, child);
    StackAfterPush(g, work);
    TrailIsPath(g, PushChild(work, child));
    WeightAfterPush(g, work, child);
    assert PushChild(work, child)[0].node == work[0].node;
  }

  lemma Found(g: Graph, start: nat, work: seq<Frame>, stackIndex: map<nat, nat>, stackOrder: seq<nat>, child: nat)
    requires g.Valid() && SearchOk(g, start, work, stackIndex, stackOrder) && work != [] && child in stackIndex
    requires child in g.prereqs[work[|work| - 1].node]
    ensures var from := stackIndex[child];
            && from < |stackOrder|
            && var path := stackOrder[from..] + [child];
               g.IsCycle(path) && Distinct(path[..|path| - 1])
  {
    TrailCloses(g, work, stackIndex[child], child);
  }

  /** Walk prerequisite edges from `start` until a node on the current path turns up again. */
  method DfsForCycle(g: Graph, start: nat) returns (path: seq<nat>)
    requires g.Valid() && start < g.Size()
    ensures path == [] ==> g.Safe(start)
    ensures path != [] ==> g.IsCycle(path) && Distinct(path[..|path| - 1])
  {
    var work := [Frame(start, 0)];
    var stackIndex: map<nat, nat> := map[start := 0];
    var stackOrder := [start];
    assert stackOrder == Trail(work);
    while |work| > 0
      invariant SearchOk(g, start, work, stackIndex, stackOrder)
      decreases Weight(g, work)
    {
      hide Weight, Graph.Valid, SearchOk;
      TopFrame(g, start, work, stackIndex, stackOrder);
      var n := |work| - 1;
      var node, nextIdx := work[n].node, work[n].next;
      if nextIdx >= |g.prereqs[node]| {
        Leave(g, start, work, stackIndex, stackOrder);
        work := work[..n];
        stackIndex := stackIndex - {node};
        stackOrder := stackOrder[..n];
        continue;
      }
      var child := g.prereqs[node][nextIdx];
      if child in stackIndex {
        Found(g, start, work, stackIndex, stackOrder, child);
        return stackOrder[stackIndex[child]..] + [child];
      }
      Enter(g, start, work, stackIndex, stackOrder, child);
      stackIndex := stackIndex[child := |stackOrder|];
      stackOrder := stackOrder + [child];
      work := PushChild(work, child);
    }
    path := [];
  }

  /** In a graph with a cycle some action is not safe, and its counter shows it. */
  lemma SomeCounterLeft(g: Graph, indegree: seq<int>) returns (a: nat)
    requires g.Valid() && !g.Acyclic() && CountersCorrect(g, indegree, g.SafeNodes())
    ensures a < g.Size() && indegree[a] > 0
  {
    if forall b: nat :: b < g.Size() ==> g.Safe(b) {
      AllSafeIsAcyclic(g);
    }
    var x: nat :| x < g.Size() && !g.Safe(x);
    a := x;
    UnsafeHasCounter(g, indegree, a);
  }

  /** The counters left above zero are those of the actions that are not safe. */
  lemma UnsafeHasCounter(g: Graph, indegree: seq<int>, a: nat)
    requires g.Valid() && a < g.Size() && CountersCorrect(g, indegree, g.SafeNodes())
    ensures indegree[a] > 0 <==> !g.Safe(a)
  {
    RemainingZero(g.prereqs[a], g.SafeNodes());
    if g.Safe(a) {
      forall p | p in g.prereqs[a] ensures g.Safe(p) {
        SafePrerequisite(g, a, p);
      }
    }
    if forall p: nat :: p in g.prereqs[a] ==> g.Safe(p) {
      SafeFromPrerequisites(g, a);
    }
  }

  lemma SafePrerequisite(g: Graph, a: nat, p: nat)
    requires g.Safe(a) && a < g.Size() && p in g.prereqs[a]
    ensures g.Safe(p)
  {
    var k: nat :| g.Grounded(a, k);
    assert g.Grounded(p, k - 1);
  }

  /** Search from the first action whose counter Kahn left above zero. */
  method FindOneCycle(g: Graph, indegree: seq<int>) returns (path: seq<nat>)
    requires g.Valid() && !g.Acyclic() && CountersCorrect(g, indegree, g.SafeNodes())
    ensures path != [] && g.IsCycle(path) && Distinct(path[..|path| - 1])
  {
    ghost var left := SomeCounterLeft(g, indegree);
    var k := 0;
    while indegree[k] <= 0
      invariant 0 <= k <= left
      decreases g.Size() - k
    {
      k := k + 1;
    }
    UnsafeHasCounter(g, indegree, k);
    path := DfsForCycle(g, k);
  }

  lemma AllSafeExactly(g: Graph)
    requires g.Valid()
    ensures |g.SafeNodes()| == g.Size() <==> g.Acyclic()
  {
    if |g.SafeNodes()| == g.Size() {
      AllDone(g.SafeNodes(), g.Size());
      forall a | 0 <= a < g.Size() ensures g.Safe(a) {
        assert a in g.SafeNodes();
      }
      AllSafeIsAcyclic(g);
    }
    if g.Acyclic() {
      forall a: nat | a < g.Size() ensures g.Safe(a) {
        AcyclicIsGrounded(g, a);
      }
      assert g.SafeNodes() == Nodes(g.Size());
    }
  }

  /** Reports a cycle exactly when there is one. */
  method DetectCycles(g: Graph) returns (cycle: Option<seq<nat>>)
    requires g.Valid()
    ensures cycle.None? <==> g.Acyclic()
    ensures cycle.Some? ==> g.IsCycle(cycle.value) && Distinct(cycle.value[..|cycle.value| - 1])
  {
    var indegree, processed := Drain(g);
    AllSafeExactly(g);
    if processed == g.Size() {
      return None;
    }
    var path := FindOneCycle(g, indegree);
    cycle := Some(path);
  }
}
