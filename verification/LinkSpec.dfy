/** What linking computes: who produces each path, and which edges follow. */
module LinkSpec {
  import opened Wrappers
  import opened Bytes
  import opened Graphs

  datatype Action = Action(
    version: IoHash,
    prerequisites: seq<Path>,
    produced: seq<Path>,
    workingDirectory: Bytes,
    moduleName: Option<string>)

  datatype Field = CommandVersion | PrerequisiteItems | WorkingDirectory

  /** The first field in which two producers of one path differ, in the order the linker looks. */
  function Divergence(x: Action, y: Action): Option<Field> {
    if x.version != y.version then Some(CommandVersion)
    else if x.prerequisites != y.prerequisites then Some(PrerequisiteItems)
    else if x.workingDirectory != y.workingDirectory then Some(WorkingDirectory)
    else None
  }

  predicate Agree(x: Action, y: Action) {
    x.version == y.version && x.prerequisites == y.prerequisites && x.workingDirectory == y.workingDirectory
  }

  // ---------------------------------------------------------------- producers

  function Lookup(m: map<Path, nat>, path: Path): Option<nat> {
    if path in m then Some(m[path]) else None
  }

  /** The producer of a path among the first `k` actions: an earlier claim wins. */
  function Producer(claimed: map<Path, nat>, actions: seq<Action>, k: nat, path: Path): Option<nat>
    requires k <= |actions|
  {
    if k == 0 then (if path in claimed then Some(claimed[path]) else None)
    else
      var earlier := Producer(claimed, actions, k - 1, path);
      if earlier.Some? then earlier
      else if path in actions[k - 1].produced then Some(k - 1)
      else None
  }

  /** In a graph that has not been linked before, the producer is the first action that lists the path. */
  lemma {:induction false} ProducerIsFirst(actions: seq<Action>, k: nat, path: Path)
    requires k <= |actions|
    ensures var r := Producer(map[], actions, k, path);
            && (r.None? <==> forall i :: 0 <= i < k ==> path !in actions[i].produced)
            && (r.Some? ==> r.value < k && path in actions[r.value].produced
                            && forall i :: 0 <= i < r.value ==> path !in actions[i].produced)
  {
    if k > 0 {
      ProducerIsFirst(actions, k - 1, path);
    }
  }

  lemma {:induction false} ProducerSettled(claimed: map<Path, nat>, actions: seq<Action>, j: nat, k: nat, path: Path)
    requires j <= k <= |actions| && Producer(claimed, actions, j, path).Some?
    ensures Producer(claimed, actions, k, path) == Producer(claimed, actions, j, path)
    decreases k
  {
    if j < k {
      ProducerSettled(claimed, actions, j, k - 1, path);
    }
  }

  /** Each of the first `k` actions agrees with the producer of every path it lists. */
  ghost predicate NoConflict(claimed: map<Path, nat>, actions: seq<Action>, k: nat)
    requires k <= |actions|
  {
    forall i, path :: 0 <= i < k && path in actions[i].produced ==> NoConflictAt(claimed, actions, i, path)
  }

  ghost predicate NoConflictAt(claimed: map<Path, nat>, actions: seq<Action>, i: nat, path: Path)
    requires i < |actions|
  {
    var p := Producer(claimed, actions, i + 1, path);
    p.Some? && p.value < |actions| && Agree(actions[p.value], actions[i])
  }

  /** Both actions list the path as an output. */
  predicate Shared(actions: seq<Action>, i: nat, j: nat, path: Path) {
    i < |actions| && j < |actions| && path in actions[i].produced && path in actions[j].produced
  }

  /** The first of the three fields in which two actions differ. */
  predicate DifferFirstIn(x: Action, y: Action, field: Field) {
    && (field == CommandVersion <==> x.version != y.version)
    && (field == PrerequisiteItems <==> x.version == y.version && x.prerequisites != y.prerequisites)
    && (field == WorkingDirectory
        <==> x.version == y.version && x.prerequisites == y.prerequisites && x.workingDirectory != y.workingDirectory)
  }

  // ---------------------------------------------------------------- edges

  /** The producers of the items in order, leaving out raw files and the action itself. */
  function Resolve(producers: map<Path, nat>, items: seq<Path>, a: nat): seq<nat> {
    if items == [] then []
    else
      var init, item := items[..|items| - 1], items[|items| - 1];
      Resolve(producers, init, a)
        + if item in producers && producers[item] != a then [producers[item]] else []
  }

  lemma ResolveStep(producers: map<Path, nat>, items: seq<Path>, j: nat, a: nat)
    requires j < |items|
    ensures Resolve(producers, items[..j + 1], a)
         == Resolve(producers, items[..j], a)
            + if items[j] in producers && producers[items[j]] != a then [producers[items[j]]] else []
  {
    assert items[..j + 1][..j] == items[..j] && items[..j + 1][j] == items[j];
  }

  /** The resolved list holds the producers of exactly those items that another action makes, in the order
      of the items. */
  lemma {:induction false} ResolveInOrder(producers: map<Path, nat>, items: seq<Path>, a: nat) returns (at: seq<nat>)
    ensures ResolvedAt(producers, items, a, at)
    decreases |items|
  {
    if items == [] {
      at := [];
    } else {
      var n := |items| - 1;
      var init := items[..n];
      at := ResolveInOrder(producers, init, a);
      ResolveStep(producers, items, n, a);
      assert items[..n + 1] == items;
      if items[n] in producers && producers[items[n]] != a {
        at := at + [n];
      }
    }
  }

  ghost predicate ResolvedAt(producers: map<Path, nat>, items: seq<Path>, a: nat, at: seq<nat>) {
    && |at| == |Resolve(producers, items, a)|
    && (forall k :: 0 <= k < |at| ==>
      at[k] < |items| && items[at[k]] in producers && producers[items[at[k]]] == Resolve(producers, items, a)[k] != a)
    && (forall j, k :: 0 <= j < k < |at| ==> at[j] < at[k])
    && (forall i :: 0 <= i < |items| && items[i] in producers && producers[items[i]] != a ==> i in at)
  }

  /** The number of prerequisite items of `a` that another action `p` produces. */
  function ItemsProducedBy(producers: map<Path, nat>, items: seq<Path>, p: nat): nat {
    if items == [] then 0
    else
      var init, item := items[..|items| - 1], items[|items| - 1];
      ItemsProducedBy(producers, init, p) + if item in producers && producers[item] == p then 1 else 0
  }

  lemma {:induction false} EdgeMultiplicity(producers: map<Path, nat>, items: seq<Path>, a: nat, p: nat)
    ensures multiset(Resolve(producers, items, a))[p]
         == if p == a then 0 else ItemsProducedBy(producers, items, p)
  {
    if items != [] {
      EdgeMultiplicity(producers, items[..|items| - 1], a, p);
    }
  }

  /** The handle of `a`, once per entry of `p` in the prerequisite list of `a`. */
  function Edges(a: nat, resolved: seq<nat>, p: nat): seq<nat> {
    if resolved == [] then []
    else Edges(a, resolved[..|resolved| - 1], p) + if resolved[|resolved| - 1] == p then [a] else []
  }

  lemma OneMoreEdge(a: nat, resolved: seq<nat>, x: nat, p: nat)
    ensures Edges(a, resolved + [x], p) == Edges(a, resolved, p) + if p == x then [a] else []
  {
    assert (resolved + [x])[..|resolved|] == resolved;
  }

  /** The dependents of `p` in the order the linker appends them: the actions in input order, each
      once per entry of `p` in its prerequisite list. */
  function DependentsOf(lists: seq<seq<nat>>, n: nat, p: nat): seq<nat>
    requires n <= |lists|
  {
    if n == 0 then [] else DependentsOf(lists, n - 1, p) + Edges(n - 1, lists[n - 1], p)
  }

  lemma MultiplicityAdds(s: seq<nat>, t: seq<nat>, a: nat)
    ensures multiset(s + t)[a] == multiset(s)[a] + multiset(t)[a]
  {
  }

  lemma {:induction false} EdgesMultiplicity(a: nat, resolved: seq<nat>, p: nat, b: nat)
    ensures multiset(Edges(a, resolved, p))[b] == if a == b then multiset(resolved)[p] else 0
  {
    if resolved != [] {
      var init, last := resolved[..|resolved| - 1], resolved[|resolved| - 1];
      EdgesMultiplicity(a, init, p, b);
      assert resolved == init + [last];
      MultiplicityAdds(init, [last], p);
      MultiplicityAdds(Edges(a, init, p), if last == p then [a] else [], b);
    }
  }

  /** The dependent lists are the prerequisite lists read backwards, multiplicities included. */
  lemma {:induction false} ConverseMultiplicity(lists: seq<seq<nat>>, n: nat, p: nat, a: nat)
    requires n <= |lists|
    ensures multiset(DependentsOf(lists, n, p))[a] == if a < n then multiset(lists[a])[p] else 0
  {
    hide Edges;
    if n > 0 {
      ConverseMultiplicity(lists, n - 1, p, a);
      EdgesMultiplicity(n - 1, lists[n - 1], p, a);
      MultiplicityAdds(DependentsOf(lists, n - 1, p), Edges(n - 1, lists[n - 1], p), a);
      assert DependentsOf(lists, n, p) == DependentsOf(lists, n - 1, p) + Edges(n - 1, lists[n - 1], p);
    }
  }

  /** Dependents are listed in input order. */
  lemma {:induction false} DependentsInOrder(lists: seq<seq<nat>>, n: nat, p: nat)
    requires n <= |lists|
    ensures forall i, j :: 0 <= i < j < |DependentsOf(lists, n, p)| ==>
      DependentsOf(lists, n, p)[i] <= DependentsOf(lists, n, p)[j]
  {
    if n > 0 {
      DependentsInOrder(lists, n - 1, p);
      DependentsBound(lists, n - 1, p);
      EdgesAreOne(n - 1, lists[n - 1], p);
      var d, e := DependentsOf(lists, n - 1, p), Edges(n - 1, lists[n - 1], p);
      assert forall i :: 0 <= i < |d| ==> d[i] in d;
      assert DependentsOf(lists, n, p) == d + e;
    }
  }

  lemma {:induction false} EdgesAreOne(a: nat, resolved: seq<nat>, p: nat)
    ensures forall i :: 0 <= i < |Edges(a, resolved, p)| ==> Edges(a, resolved, p)[i] == a
  {
    if resolved != [] {
      EdgesAreOne(a, resolved[..|resolved| - 1], p);
    }
  }

  lemma DependentsBound(lists: seq<seq<nat>>, n: nat, p: nat)
    requires n <= |lists|
    ensures forall a: nat :: a in DependentsOf(lists, n, p) ==> a < n
  {
    forall a: nat
      ensures a in DependentsOf(lists, n, p) ==> a < n
    {
      ConverseMultiplicity(lists, n, p, a);
      assert a in DependentsOf(lists, n, p) <==> a in multiset(DependentsOf(lists, n, p));
    }
  }

  /** Appending the resolved prerequisites of `a` to a graph, on both sides of each edge. */
  function AppendEdges(g: Graph, a: nat, resolved: seq<nat>): (r: Graph)
    requires a < g.Size()
    ensures r.Size() == g.Size() && |r.dependents| == |g.dependents|
  {
    Graph(g.prereqs[a := g.prereqs[a] + resolved],
          seq(|g.dependents|, p requires 0 <= p < |g.dependents| => g.dependents[p] + Edges(a, resolved, p)))
  }

  function AppendAll(g: Graph, lists: seq<seq<nat>>, n: nat): (r: Graph)
    requires n <= |lists| == g.Size() == |g.dependents|
    ensures r.Size() == g.Size() && |r.dependents| == |g.dependents|
  {
    if n == 0 then g else AppendEdges(AppendAll(g, lists, n - 1), n - 1, lists[n - 1])
  }

  /** What the two sides hold in the end, node by node. */
  lemma {:induction false} AppendedLists(g: Graph, lists: seq<seq<nat>>, n: nat, a: nat)
    requires n <= |lists| == g.Size() == |g.dependents| && a < g.Size()
    ensures AppendAll(g, lists, n).prereqs[a] == g.prereqs[a] + if a < n then lists[a] else []
    ensures AppendAll(g, lists, n).dependents[a] == g.dependents[a] + DependentsOf(lists, n, a)
  {
    if n > 0 {
      AppendedLists(g, lists, n - 1, a);
    }
  }

  /** The prerequisite list of every action. */
  function ResolveAll(producers: map<Path, nat>, actions: seq<Action>): (r: seq<seq<nat>>)
    ensures |r| == |actions|
    ensures forall a :: 0 <= a < |r| ==> r[a] == Resolve(producers, actions[a].prerequisites, a)
  {
    seq(|actions|, a requires 0 <= a < |actions| => Resolve(producers, actions[a].prerequisites, a))
  }

  function LinkedGraph(producers: map<Path, nat>, actions: seq<Action>): (g: Graph)
    ensures g.Size() == |actions|
  {
    var lists := ResolveAll(producers, actions);
    Graph(lists, seq(|actions|, p requires 0 <= p < |lists| => DependentsOf(lists, |lists|, p)))
  }

  lemma {:induction false} ResolveBound(producers: map<Path, nat>, items: seq<Path>, a: nat, n: nat)
    requires forall path :: path in producers ==> producers[path] < n
    ensures forall p :: p in Resolve(producers, items, a) ==> p < n && p != a
  {
    if items != [] {
      ResolveBound(producers, items[..|items| - 1], a, n);
    }
  }

  /** There are as many edges from `p` to `a` as prerequisite items of `a` that `p`, not `a`, produces. */
  ghost predicate EdgesCountItems(g: Graph, producers: map<Path, nat>, actions: seq<Action>, p: nat, a: nat)
    requires p < |actions| == g.Size() && a < g.Size()
  {
    multiset(g.prereqs[a])[p] == if p == a then 0 else ItemsProducedBy(producers, actions[a].prerequisites, p)
  }

  /** What linking builds is a valid multigraph in which no action is its own prerequisite, and in
      which an edge is repeated once per prerequisite item that the other action produces. */
  lemma LinkedGraphValid(producers: map<Path, nat>, actions: seq<Action>)
    requires forall path :: path in producers ==> producers[path] < |actions|
    ensures var g := LinkedGraph(producers, actions);
            && g.Valid()
            && (forall p, a :: 0 <= p < |actions| && 0 <= a < |actions| ==>
                  EdgesCountItems(g, producers, actions, p, a))
  {
    hide Resolve, ItemsProducedBy, Edges, DependentsOf;
    var g := LinkedGraph(producers, actions);
    var lists := ResolveAll(producers, actions);
    forall p, a | 0 <= p < |actions| && 0 <= a < |actions|
      ensures multiset(g.prereqs[a])[p] == multiset(g.dependents[p])[a]
      ensures EdgesCountItems(g, producers, actions, p, a)
    {
      ConverseMultiplicity(lists, |lists|, p, a);
      EdgeMultiplicity(producers, actions[a].prerequisites, a, p);
    }
    forall a, i | 0 <= a < |actions| && 0 <= i < |g.prereqs[a]|
      ensures g.prereqs[a][i] < |actions| && g.prereqs[a][i] != a
    {
      ResolveBound(producers, actions[a].prerequisites, a, |actions|);
      assert g.prereqs[a][i] in g.prereqs[a];
    }
    forall p, i | 0 <= p < |actions| && 0 <= i < |g.dependents[p]|
      ensures g.dependents[p][i] < |actions|
    {
      DependentsBound(lists, |lists|, p);
      assert g.dependents[p][i] in DependentsOf(lists, |lists|, p);
    }
  }

  /** Linking a freshly constructed graph leaves exactly the resolved edges. */
  lemma AppendToNothing(g: Graph, producers: map<Path, nat>, actions: seq<Action>, a: nat)
    requires g.Size() == |g.dependents| == |actions| && a < |actions|
    requires g.prereqs[a] == [] && g.dependents[a] == []
    ensures var r := AppendAll(g, ResolveAll(producers, actions), |actions|);
            r.prereqs[a] == LinkedGraph(producers, actions).prereqs[a]
            && r.dependents[a] == LinkedGraph(producers, actions).dependents[a]
  {
    AppendedLists(g, ResolveAll(producers, actions), |actions|, a);
  }

  lemma LinkedFromScratch(g: Graph, producers: map<Path, nat>, actions: seq<Action>)
    requires g.Size() == |g.dependents| == |actions|
    requires forall a :: 0 <= a < |actions| ==> g.prereqs[a] == [] && g.dependents[a] == []
    ensures AppendAll(g, ResolveAll(producers, actions), |actions|) == LinkedGraph(producers, actions)
  {
    var r, linked := AppendAll(g, ResolveAll(producers, actions), |actions|), LinkedGraph(producers, actions);
    forall a | 0 <= a < |actions|
      ensures r.prereqs[a] == linked.prereqs[a] && r.dependents[a] == linked.dependents[a]
    {
      AppendToNothing(g, producers, actions, a);
    }
    assert r.prereqs == linked.prereqs && r.dependents == linked.dependents;
  }
}
