/**
 The value of a linked action graph, and the theory the scheduling algorithms share.

 An action is named by its position in the graph's list of actions. `prereqs[a]` lists the
 producers of the prerequisite items of `a`, one entry per item, so a producer can occur more
 than once; `dependents` is the same multigraph read the other way round.
 */
module Graphs {
  import opened Sequences

  datatype Graph = Graph(prereqs: seq<seq<nat>>, dependents: seq<seq<nat>>) {

    function Size(): nat {
      |prereqs|
    }

    /** Both edge lists mention nodes only, and each edge has the same multiplicity on both sides. */
    ghost predicate Valid() {
      && |dependents| == |prereqs|
      && (forall a, i :: 0 <= a < |prereqs| && 0 <= i < |prereqs[a]| ==> prereqs[a][i] < |prereqs|)
      && (forall p, i :: 0 <= p < |prereqs| && 0 <= i < |dependents[p]| ==> dependents[p][i] < |prereqs|)
      && (forall p, a :: 0 <= p < |prereqs| && 0 <= a < |prereqs| ==>
            multiset(prereqs[a])[p] == multiset(dependents[p])[a])
    }

    /** A walk along prerequisite edges. */
    ghost predicate IsPath(path: seq<nat>) {
      && |path| > 0
      && (forall i :: 0 <= i < |path| ==> path[i] < Size())
      && (forall i :: 0 <= i < |path| - 1 ==> path[i + 1] in prereqs[path[i]])
    }

    ghost predicate IsCycle(path: seq<nat>) {
      IsPath(path) && |path| >= 2 && path[0] == path[|path| - 1]
    }

    ghost predicate Acyclic() {
      forall path :: !IsCycle(path)
    }

    /** `b` is reached from `a` by a path of prerequisite edges; every node is its own ancestor. */
    ghost predicate Ancestor(b: nat, a: nat) {
      exists path :: PathBetween(path, a, b)
    }

    ghost predicate ProperAncestor(b: nat, a: nat) {
      exists path :: PathBetween(path, a, b) && |path| >= 2
    }

    ghost predicate PathBetween(path: seq<nat>, a: nat, b: nat) {
      IsPath(path) && path[0] == a && path[|path| - 1] == b
    }

    /** Every walk of prerequisite edges that starts at `a` has at most `k` nodes. */
    ghost predicate Grounded(a: nat, k: nat)
      decreases k
    {
      a < Size() && k > 0 && forall p :: p in prereqs[a] ==> Grounded(p, k - 1)
    }

    ghost predicate Safe(a: nat) {
      exists k :: Grounded(a, k)
    }

    ghost function SafeNodes(): set<nat> {
      set a: nat | a < Size() && Safe(a)
    }

    /** A set of nodes that contains the prerequisites of its members. */
    ghost predicate Closed(done: set<nat>) {
      forall a, p :: a in done ==> a < Size() && (p in prereqs[a] ==> p in done)
    }

    /** The nodes outside `done` all of whose prerequisites are in `done`. */
    ghost function ReadyAfter(done: set<nat>): set<nat> {
      set a | 0 <= a < Size() && a !in done && (forall p :: p in prereqs[a] ==> p in done)
    }
  }

  ghost predicate Distinct<T>(s: seq<T>) {
    forall i, j :: 0 <= i < j < |s| ==> s[i] != s[j]
  }

  ghost function Nodes(n: nat): (r: set<nat>)
    ensures |r| == n
    ensures forall a: nat :: a in r <==> a < n
  {
    if n == 0 then {} else Nodes(n - 1) + {n - 1}
  }

  ghost function Elements<T>(s: seq<T>): set<T> {
    set x | x in s
  }

  lemma {:induction false} DistinctElements<T>(s: seq<T>)
    requires Distinct(s)
    ensures |Elements(s)| == |s|
  {
    if s == [] {
      assert Elements(s) == {};
    } else {
      var init, last := s[..|s| - 1], s[|s| - 1];
      DistinctElements(init);
      assert Elements(s) == Elements(init) + {last};
      assert last !in Elements(init);
    }
  }

  lemma SubsetSize<T>(a: set<T>, b: set<T>)
    requires a <= b
    ensures |a| <= |b|
    ensures |a| == |b| ==> a == b
  {
    assert b == a + (b - a);
    assert |b| == |a| + |b - a|;
  }

  /** A list of distinct nodes of a graph with n nodes has at most n entries, and n only if it lists all. */
  lemma DistinctNodesBound(s: seq<nat>, n: nat)
    requires Distinct(s)
    requires forall i :: 0 <= i < |s| ==> s[i] < n
    ensures |s| <= n
    ensures |s| == n ==> Elements(s) == Nodes(n)
  {
    DistinctElements(s);
    SubsetSize(Elements(s), Nodes(n));
  }

  lemma AllDone(done: set<nat>, n: nat)
    requires (forall b :: b in done ==> b < n) && |done| == n
    ensures forall a: nat :: a < n ==> a in done
  {
    SubsetSize(done, Nodes(n));
  }

  lemma MissingNode(done: set<nat>, n: nat) returns (a: nat)
    requires (forall b :: b in done ==> b < n) && |done| != n
    ensures a < n && a !in done
  {
    if forall b: nat :: b < n ==> b in done {
      SubsetSize(done, Nodes(n));
      SubsetSize(Nodes(n), done);
    }
    a :| a < n && a !in done;
  }

  // ---------------------------------------------------------------- edges

  lemma EdgeBothWays(g: Graph, p: nat, a: nat)
    requires g.Valid() && p < g.Size() && a < g.Size()
    ensures p in g.prereqs[a] <==> a in g.dependents[p]
  {
    assert multiset(g.prereqs[a])[p] == multiset(g.dependents[p])[a];
    assert p in multiset(g.prereqs[a]) <==> a in multiset(g.dependents[p]);
  }

  /** A set that holds the prerequisites of its members holds what is reached from them. */
  lemma {:induction false} ClosedHoldsAncestors(g: Graph, done: set<nat>, path: seq<nat>)
    requires g.Closed(done) && g.IsPath(path) && path[0] in done
    ensures path[|path| - 1] in done
    decreases |path|
  {
    if |path| > 1 {
      ClosedHoldsAncestors(g, done, path[1..]);
    }
  }

  // ---------------------------------------------------------------- cycles and groundedness

  lemma {:induction false} GroundedPathBound(g: Graph, path: seq<nat>, k: nat)
    requires g.IsPath(path) && g.Grounded(path[0], k)
    ensures |path| <= k
    ensures g.Grounded(path[|path| - 1], k - |path| + 1)
    decreases |path|
  {
    if |path| > 1 {
      GroundedPathBound(g, path[1..], k - 1);
    }
  }

  lemma {:induction false} NotGroundedOnCycle(g: Graph, cycle: seq<nat>, k: nat)
    requires g.IsCycle(cycle)
    ensures !g.Grounded(cycle[0], k)
    decreases k
  {
    if g.Grounded(cycle[0], k) {
      GroundedPathBound(g, cycle, k);
      NotGroundedOnCycle(g, cycle, k - |cycle| + 1);
    }
  }

  /** If every node is grounded then there is no cycle. */
  lemma AllSafeIsAcyclic(g: Graph)
    requires forall a :: 0 <= a < g.Size() ==> g.Safe(a)
    ensures g.Acyclic()
  {
    forall path
      ensures !g.IsCycle(path)
    {
      if g.IsCycle(path) {
        assert g.Safe(path[0]);
        var k :| g.Grounded(path[0], k);
        NotGroundedOnCycle(g, path, k);
      }
    }
  }

  /** A node that is not grounded within k steps starts a walk of k + 1 nodes. */
  lemma {:induction false} LongWalk(g: Graph, a: nat, k: nat) returns (path: seq<nat>)
    requires g.Valid() && a < g.Size() && !g.Grounded(a, k)
    ensures g.IsPath(path) && |path| == k + 1 && path[0] == a
    decreases k
  {
    if k == 0 {
      path := [a];
    } else {
      var p :| p in g.prereqs[a] && !g.Grounded(p, k - 1);
      var rest := LongWalk(g, p, k - 1);
      path := [a] + rest;
    }
  }

  /** Pigeonhole: a walk with more nodes than the graph has closes a cycle. */
  lemma LongWalkHasCycle(g: Graph, path: seq<nat>)
    requires g.IsPath(path) && |path| > g.Size()
    ensures !g.Acyclic()
  {
    if Distinct(path) {
      DistinctNodesBound(path, g.Size());
    }
    var i, j :| 0 <= i < j < |path| && path[i] == path[j];
    assert g.IsCycle(path[i..j + 1]);
  }

  lemma AcyclicIsGrounded(g: Graph, a: nat)
    requires g.Valid() && g.Acyclic() && a < g.Size()
    ensures g.Grounded(a, g.Size())
  {
    if !g.Grounded(a, g.Size()) {
      var path := LongWalk(g, a, g.Size());
      LongWalkHasCycle(g, path);
    }
  }

  /** Some prerequisite of `b` is in the set. */
  ghost predicate WaitsFor(g: Graph, b: nat, residue: set<nat>) {
    b < g.Size() && exists p :: p in g.prereqs[b] && p in residue
  }

  lemma {:induction false} ResidueNotGrounded(g: Graph, residue: set<nat>, a: nat, k: nat)
    requires forall b :: b in residue ==> WaitsFor(g, b, residue)
    requires a in residue
    ensures !g.Grounded(a, k)
    decreases k
  {
    if k > 0 {
      assert WaitsFor(g, a, residue);
      var p :| p in g.prereqs[a] && p in residue;
      ResidueNotGrounded(g, residue, p, k - 1);
      assert !g.Grounded(p, k - 1);
    }
  }

  /** A set of nodes with nothing ready in it is a cycle's home: once Kahn's queue is empty, the
      nodes it never reached are all unsafe. */
  lemma NothingReadyIsUnsafe(g: Graph, done: set<nat>, a: nat)
    requires g.Valid() && g.ReadyAfter(done) == {}
    requires a < g.Size() && a !in done
    ensures !g.Safe(a)
    ensures !g.Acyclic()
  {
    var residue := Nodes(g.Size()) - done;
    forall b | b in residue
      ensures WaitsFor(g, b, residue)
    {
      assert b !in g.ReadyAfter(done);
    }
    forall k: nat
      ensures !g.Grounded(a, k)
    {
      ResidueNotGrounded(g, residue, a, k);
    }
    if g.Acyclic() {
      AcyclicIsGrounded(g, a);
    }
  }

  // ---------------------------------------------------------------- in-degree counters

  /** How many entries of `ps` are not yet in `done`: the value an in-degree counter must hold. */
  function Remaining(ps: seq<nat>, done: set<nat>): nat {
    if ps == [] then 0
    else (if ps[|ps| - 1] in done then 0 else 1) + Remaining(ps[..|ps| - 1], done)
  }

  lemma {:induction false} RemainingZero(ps: seq<nat>, done: set<nat>)
    ensures Remaining(ps, done) == 0 <==> forall p :: p in ps ==> p in done
  {
    if ps != [] {
      RemainingZero(ps[..|ps| - 1], done);
      assert ps == ps[..|ps| - 1] + [ps[|ps| - 1]];
    }
  }

  lemma {:induction false} RemainingNone(ps: seq<nat>)
    ensures Remaining(ps, {}) == |ps|
  {
    if ps != [] {
      RemainingNone(ps[..|ps| - 1]);
    }
  }

  /** Finishing one more node lowers the counter by that node's edge multiplicity. */
  lemma {:induction false} RemainingStep(ps: seq<nat>, done: set<nat>, x: nat)
    requires x !in done
    ensures Remaining(ps, done + {x}) == Remaining(ps, done) - multiset(ps)[x]
    ensures multiset(ps)[x] <= Remaining(ps, done)
  {
    if ps != [] {
      var init, last := ps[..|ps| - 1], ps[|ps| - 1];
      RemainingStep(init, done, x);
      assert ps == init + [last];
      assert multiset(ps) == multiset(init) + multiset{last};
    }
  }

  // ---------------------------------------------------------------- releasing dependents

  /** The counters after the dependents in `deps` have each been decremented in turn, and the nodes
      whose counter passed through zero, in the order in which that happened. A node in `blocked`
      is never released. */
  function Release(deg: seq<int>, deps: seq<nat>, blocked: set<nat>): (r: (seq<int>, seq<nat>))
    requires forall i :: 0 <= i < |deps| ==> deps[i] < |deg|
    ensures |r.0| == |deg|
    decreases |deps|
  {
    if deps == [] then (deg, [])
    else
      var d, newDeg := deps[0], deg[deps[0]] - 1;
      var r := Release(deg[d := newDeg], deps[1..], blocked);
      (r.0, (if newDeg == 0 && d !in blocked then [d] else []) + r.1)
  }

  /** One turn of a loop that releases the dependents one after the other. */
  lemma ReleaseTurn(deg: seq<int>, deps: seq<nat>, j: nat, blocked: set<nat>)
    requires j < |deps| && forall i :: 0 <= i < |deps| ==> deps[i] < |deg|
    ensures var dep, newDeg := deps[j], deg[deps[j]] - 1;
            var now, next := Release(deg, deps[j..], blocked), Release(deg[dep := newDeg], deps[j + 1..], blocked);
            && now.0 == next.0
            && (newDeg == 0 && dep !in blocked ==> now.1 == [dep] + next.1)
            && (newDeg != 0 || dep in blocked ==> now.1 == next.1)
  {
    assert deps[j..][0] == deps[j] && deps[j..][1..] == deps[j + 1..];
  }

  lemma ReleaseNothing(deg: seq<int>, deps: seq<nat>, blocked: set<nat>)
    ensures deps[|deps|..] == [] && Release(deg, [], blocked) == (deg, [])
  {
  }

  /** Each counter drops by the number of times its node is listed; a node is released exactly when
      its counter reaches zero, and only once. */
  lemma {:induction false} ReleaseEffect(deg: seq<int>, deps: seq<nat>, blocked: set<nat>)
    requires forall i :: 0 <= i < |deps| ==> deps[i] < |deg|
    requires forall d :: 0 <= d < |deg| && d !in blocked ==> multiset(deps)[d] <= deg[d]
    ensures var r := Release(deg, deps, blocked);
            && (forall a :: 0 <= a < |deg| ==> r.0[a] == deg[a] - multiset(deps)[a])
            && Distinct(r.1)
            && (forall a :: a in r.1 <==> a in deps && a !in blocked && r.0[a] == 0)
    decreases |deps|
  {
    if deps != [] {
      var d, rest := deps[0], deps[1..];
      assert deps == [d] + rest;
      assert multiset(deps) == multiset{d} + multiset(rest);
      var deg1 := deg[d := deg[d] - 1];
      ReleaseEffect(deg1, rest, blocked);
      var r, r1 := Release(deg, deps, blocked), Release(deg1, rest, blocked);
      var now := if deg1[d] == 0 && d !in blocked then [d] else [];
      assert r.0 == r1.0 && r.1 == now + r1.1;
      hide Release;
      ReleasedFirst(d, rest, now, r1.1, r.0, blocked);
    }
  }

  /** The first entry of a list joins the released ones exactly when it does not come again. */
  lemma ReleasedFirst(d: nat, rest: seq<nat>, now: seq<nat>, released: seq<nat>, after: seq<int>, blocked: set<nat>)
    requires d < |after| && forall i :: 0 <= i < |rest| ==> rest[i] < |after|
    requires d !in blocked ==> after[d] >= 0
    requires now == if after[d] + multiset(rest)[d] == 0 && d !in blocked then [d] else []
    requires Distinct(released)
    requires forall a :: a in released <==> a in rest && a !in blocked && after[a] == 0
    ensures Distinct(now + released)
    ensures forall a :: a in now + released <==> a in [d] + rest && a !in blocked && after[a] == 0
  {
    assert d in rest <==> multiset(rest)[d] > 0;
    assert forall a :: a in [d] + rest <==> a == d || a in rest;
    assert forall a :: a in now + released <==> a in now || a in released;
  }

  /** The same positions, one further on. */
  ghost function Shifted(at: seq<nat>): (r: seq<nat>)
    ensures |r| == |at| && forall k :: 0 <= k < |at| ==> r[k] == at[k] + 1
  {
    if at == [] then [] else Shifted(at[..|at| - 1]) + [at[|at| - 1] + 1]
  }

  /** None of the entries picked out comes again later. */
  ghost predicate LastPicks(at: seq<nat>, s: seq<nat>) {
    forall j, k :: 0 <= k < |at| && at[k] < j < |s| ==> s[j] != s[at[k]]
  }

  lemma ShiftedPicks(later: seq<nat>, r: seq<nat>, d: nat, rest: seq<nat>)
    requires PicksOut(later, r, rest) && LastPicks(later, rest)
    ensures PicksOut(Shifted(later), r, [d] + rest) && LastPicks(Shifted(later), [d] + rest)
  {
    var all, at := [d] + rest, Shifted(later);
    hide Shifted;
    assert forall j :: 0 < j < |all| ==> all[j] == rest[j - 1];
    forall j, k | 0 <= k < |at| && at[k] < j < |all| ensures all[j] != all[at[k]] {
      assert rest[j - 1] != rest[later[k]];
    }
  }

  lemma PickFirst(at: seq<nat>, r: seq<nat>, all: seq<nat>)
    requires PicksOut(at, r, all) && LastPicks(at, all) && all != []
    requires (forall k :: 0 <= k < |at| ==> 0 < at[k]) && all[0] !in all[1..]
    ensures PicksOut([0] + at, [all[0]] + r, all) && LastPicks([0] + at, all)
  {
    var more: seq<nat> := [0] + at;
    assert forall k :: 0 < k < |more| ==> more[k] == at[k - 1];
    forall j, k | 0 <= k < |more| && more[k] < j < |all| ensures all[j] != all[more[k]] {
      assert all[1..][j - 1] == all[j];
      if k > 0 {
        assert more[k] == at[k - 1];
      }
    }
  }

  /** Nodes are released in the order of their last occurrences in the list. */
  lemma {:induction false} ReleaseOrder(deg: seq<int>, deps: seq<nat>, blocked: set<nat>) returns (at: seq<nat>)
    requires forall i :: 0 <= i < |deps| ==> deps[i] < |deg|
    requires forall d :: 0 <= d < |deg| && d !in blocked ==> multiset(deps)[d] <= deg[d]
    ensures PicksOut(at, Release(deg, deps, blocked).1, deps)
    ensures LastPicks(at, deps)
    decreases |deps|
  {
    if deps == [] {
      at := [];
    } else {
      var d, rest := deps[0], deps[1..];
      assert deps == [d] + rest;
      assert multiset(deps) == multiset{d} + multiset(rest);
      var deg1 := deg[d := deg[d] - 1];
      var later := ReleaseOrder(deg1, rest, blocked);
      var r, r1 := Release(deg, deps, blocked), Release(deg1, rest, blocked);
      var now := if deg1[d] == 0 && d !in blocked then [d] else [];
      assert r.1 == now + r1.1;
      hide Release;
      assert d in rest <==> multiset(rest)[d] > 0;
      ShiftedPicks(later, r1.1, d, rest);
      at := Shifted(later);
      if now == [] {
        assert r.1 == r1.1;
      } else {
        assert d !in rest && deps[1..] == rest;
        PickFirst(at, r1.1, deps);
        at := [0] + at;
      }
    }
  }

  /** A counter of a blocked node may start anywhere; its value still drops by the multiplicity. */
  lemma {:induction false} ReleaseCounters(deg: seq<int>, deps: seq<nat>, blocked: set<nat>)
    requires forall i :: 0 <= i < |deps| ==> deps[i] < |deg|
    ensures forall a :: 0 <= a < |deg| ==> Release(deg, deps, blocked).0[a] == deg[a] - multiset(deps)[a]
    decreases |deps|
  {
    if deps != [] {
      var d, rest := deps[0], deps[1..];
      assert deps == [d] + rest;
      assert multiset(deps) == multiset{d} + multiset(rest);
      ReleaseCounters(deg[d := deg[d] - 1], rest, blocked);
    }
  }

  /** Correct counters and readiness of one node. */
  lemma ReadyIffZero(g: Graph, done: set<nat>, a: nat)
    requires a < g.Size()
    ensures a in g.ReadyAfter(done) <==> a !in done && Remaining(g.prereqs[a], done) == 0
  {
    RemainingZero(g.prereqs[a], done);
  }

  lemma FinishOneCounter(g: Graph, done: set<nat>, x: nat, a: nat)
    requires g.Valid() && a < g.Size() && x < g.Size() && x !in done
    ensures Remaining(g.prereqs[a], done + {x}) == Remaining(g.prereqs[a], done) - multiset(g.dependents[x])[a]
    ensures a in g.dependents[x] <==> Remaining(g.prereqs[a], done + {x}) < Remaining(g.prereqs[a], done)
  {
    RemainingStep(g.prereqs[a], done, x);
    assert a in multiset(g.dependents[x]) <==> multiset(g.dependents[x])[a] > 0;
  }

  ghost predicate CountersCorrect(g: Graph, deg: seq<int>, done: set<nat>) {
    |deg| == g.Size() && forall a :: 0 <= a < g.Size() ==> deg[a] == Remaining(g.prereqs[a], done)
  }

  /** Counters that are lowered by the multiplicities in `deps`, down to `after`, none below zero. */
  lemma ReleaseTo(deg: seq<int>, deps: seq<nat>, after: seq<nat>)
    requires |after| == |deg|
    requires forall i :: 0 <= i < |deps| ==> deps[i] < |deg|
    requires forall a :: 0 <= a < |deg| ==> after[a] == deg[a] - multiset(deps)[a]
    ensures var r := Release(deg, deps, {});
            && r.0 == after
            && Distinct(r.1)
            && (forall a: nat :: a in r.1 <==> a < |deg| && after[a] == 0 && after[a] < deg[a])
  {
    ReleaseEffect(deg, deps, {});
    var r := Release(deg, deps, {});
    assert r.0 == after;
    forall a: nat
      ensures a in r.1 <==> a < |deg| && after[a] == 0 && after[a] < deg[a]
    {
      assert a in deps <==> a in multiset(deps);
    }
  }

  function CountersFor(g: Graph, done: set<nat>): (r: seq<nat>)
    ensures |r| == g.Size()
  {
    seq(g.Size(), a requires 0 <= a < g.Size() => Remaining(g.prereqs[a], done))
  }

  lemma FinishCounters(g: Graph, deg: seq<int>, done: set<nat>, x: nat)
    requires g.Valid() && CountersCorrect(g, deg, done)
    requires x < g.Size() && x !in done
    ensures var r := Release(deg, g.dependents[x], {});
            && r.0 == CountersFor(g, done + {x})
            && Distinct(r.1)
            && (forall a: nat :: a in r.1 <==> a < g.Size() && r.0[a] == 0 && r.0[a] < deg[a])
  {
    var after := CountersFor(g, done + {x});
    forall a | 0 <= a < g.Size()
      ensures after[a] == deg[a] - multiset(g.dependents[x])[a]
    {
      FinishOneCounter(g, done, x, a);
    }
    ReleaseTo(deg, g.dependents[x], after);
  }

  /** What finishing the ready node `x` does to correct counters: they stay correct, and the nodes
      released are exactly the ones that have become ready. */
  lemma FinishReady(g: Graph, deg: seq<int>, done: set<nat>, x: nat)
    requires g.Valid() && CountersCorrect(g, deg, done)
    requires g.Closed(done) && x in g.ReadyAfter(done)
    ensures g.Closed(done + {x})
    ensures var r := Release(deg, g.dependents[x], {});
            && CountersCorrect(g, r.0, done + {x})
            && Distinct(r.1)
            && (forall a :: a in r.1 ==> a !in g.ReadyAfter(done) && a !in done && a != x)
            && g.ReadyAfter(done + {x}) == g.ReadyAfter(done) - {x} + Elements(r.1)
  {
    FinishCounters(g, deg, done, x);
    var r := Release(deg, g.dependents[x], {});
    forall a: nat | a < g.Size()
      ensures a in r.1 ==> a !in g.ReadyAfter(done) && a !in done && a != x
      ensures a in g.ReadyAfter(done + {x}) <==> (a in g.ReadyAfter(done) && a != x) || a in r.1
    {
      ReadyIffZero(g, done, a);
      ReadyIffZero(g, done + {x}, a);
      if a in done || a == x {
        RemainingZero(g.prereqs[a], done);
      }
    }
  }
}
