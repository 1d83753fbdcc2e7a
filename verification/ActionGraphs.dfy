/**
 Actions, their linked wrappers, and the action graph that owns them.

 A linked action is referred to by its handle, its position in the graph's list of actions; two
 handles are equal exactly when the references are.
 */
module ActionGraphs {
  import opened Wrappers
  import opened Bytes
  import opened Sequences
  import opened Graphs
  import opened LinkSpec
  import opened SortOrder
  import InputOrder
  import Kahn
  import Sorting
  import opened Subset

  class LinkedAction {
    const handle: nat
    const action: Action
    var prerequisiteActions: seq<nat>
    var dependentActions: seq<nat>

    constructor (handle: nat, action: Action)
      ensures this.handle == handle && this.action == action
      ensures prerequisiteActions == [] && dependentActions == []
    {
      this.handle, this.action := handle, action;
      prerequisiteActions, dependentActions := [], [];
    }

    /** Append one edge, on both of its ends. */
    method AddPrerequisite(prerequisite: LinkedAction)
      modifies this`prerequisiteActions, prerequisite`dependentActions
      ensures prerequisiteActions == old(prerequisiteActions) + [prerequisite.handle]
      ensures prerequisite.dependentActions == old(prerequisite.dependentActions) + [handle]
    {
      prerequisiteActions := prerequisiteActions + [prerequisite.handle];
      prerequisite.dependentActions := prerequisite.dependentActions + [handle];
    }
  }

  datatype LinkResult = Linked | Conflict(path: Path, first: nat, second: nat, field: Field)

  class ActionGraph {
    var all: seq<LinkedAction>
    var producerByPath: map<Path, nat>
    var sortedActions: Option<seq<nat>>

    ghost predicate Valid()
      reads this, all
    {
      forall i :: 0 <= i < |all| ==> all[i].handle == i
    }

    /** The actions in input order. */
    ghost function Actions(): (r: seq<Action>)
      reads this`all
      ensures |r| == |all|
      ensures forall i :: 0 <= i < |all| ==> r[i] == all[i].action
    {
      var nodes := all;
      seq(|nodes|, i requires 0 <= i < |nodes| => nodes[i].action)
    }

    /** The multigraph that the edge lists spell out. */
    ghost function G(): (g: Graph)
      reads this`all, all
      ensures g.Size() == |all| == |g.dependents|
      ensures forall a :: 0 <= a < |all| ==>
        g.prereqs[a] == all[a].prerequisiteActions && g.dependents[a] == all[a].dependentActions
    {
      var nodes := all;
      Graph(seq(|nodes|, i requires 0 <= i < |nodes| reads nodes => nodes[i].prerequisiteActions),
            seq(|nodes|, i requires 0 <= i < |nodes| reads nodes => nodes[i].dependentActions))
    }

    constructor (actions: seq<Action>)
      ensures Valid() && fresh(all)
      ensures Actions() == actions
      ensures producerByPath == map[] && sortedActions == None
      ensures forall a :: 0 <= a < |all| ==> all[a].prerequisiteActions == [] && all[a].dependentActions == []
    {
      all, producerByPath, sortedActions := [], map[], None;
      new;
      var k := 0;
      while k < |actions|
        invariant 0 <= k <= |actions| && |all| == k
        invariant Valid() && fresh(all)
        invariant producerByPath == map[] && sortedActions == None
        invariant forall a :: 0 <= a < k ==> all[a].action == actions[a]
        invariant forall a :: 0 <= a < k ==> all[a].prerequisiteActions == [] && all[a].dependentActions == []
      {
        var linked := new LinkedAction(k, actions[k]);
        all := all + [linked];
        k := k + 1;
      }
    }

    /** Producers are actions of this graph. */
    ghost predicate ProducersKnown()
      reads this
    {
      forall path :: path in producerByPath ==> producerByPath[path] < |all|
    }

    /** Claim the outputs of action `k` in order, after those of the actions before it. */
    method ClaimOutputs(k: nat, ghost claimed: map<Path, nat>) returns (result: LinkResult)
      requires Valid() && ProducersKnown() && k < |all|
      requires forall path :: Lookup(producerByPath, path) == Producer(claimed, Actions(), k, path)
      modifies this`producerByPath
      ensures ProducersKnown()
      ensures result.Linked? ==>
        && (forall path :: Lookup(producerByPath, path) == Producer(claimed, Actions(), k + 1, path))
        && NoConflictBefore(claimed, Actions(), k, |Actions()[k].produced|)
      ensures result.Conflict? ==> result.second == k && FirstConflictOf(claimed, Actions(), result)
    {
      hide Producer, Agree;
      ghost var acts := Actions();
      var outputs := all[k].action.produced;
      var j := 0;
      while j < |outputs|
        invariant 0 <= j <= |outputs| && ProducersKnown()
        invariant forall path :: Lookup(producerByPath, path) == ProducerSoFar(claimed, acts, k, j, path)
        invariant NoConflictBefore(claimed, acts, k, j)
      {
        var path := outputs[j];
        ghost var before := producerByPath;
        assert forall other :: Lookup(before, other) == ProducerSoFar(claimed, acts, k, j, other);
        SettledBy(claimed, acts, k, j);
        if path in producerByPath {
          var existing := producerByPath[path];
          var divergence := Divergence(all[existing].action, all[k].action);
          AgreeIffNoDivergence(acts[existing], acts[k]);
          if divergence.Some? {
            DivergingProducer(claimed, acts, k, j, existing);
            return Conflict(path, existing, k, divergence.value);
          }
        } else {
          AgreeIffNoDivergence(acts[k], acts[k]);
          producerByPath := producerByPath[path := k];
        }
        forall other
          ensures Lookup(producerByPath, other) == ProducerSoFar(claimed, acts, k, j + 1, other)
        {
          SoFarStep(claimed, acts, k, j, other);
        }
        j := j + 1;
      }
      AllClaimed(claimed, acts, k);
      result := Linked;
    }

    /** First pass of linking: claim every produced path for its first producer. */
    method ClaimProducers() returns (result: LinkResult)
      requires Valid() && ProducersKnown()
      modifies this`producerByPath
      ensures ProducersKnown()
      ensures result.Linked? <==> NoConflict(old(producerByPath), Actions(), |all|)
      ensures result.Linked? ==> forall path ::
        Lookup(producerByPath, path) == Producer(old(producerByPath), Actions(), |all|, path)
      ensures result.Conflict? ==> FirstConflict(old(producerByPath), Actions(), result)
    {
      hide Producer, NoConflictAt;
      ghost var claimed := producerByPath;
      NothingClaimed(claimed, Actions());
      var k := 0;
      while k < |all|
        invariant 0 <= k <= |all| && ProducersKnown()
        invariant forall path :: Lookup(producerByPath, path) == Producer(claimed, Actions(), k, path)
        invariant NoConflict(claimed, Actions(), k)
      {
        result := ClaimOutputs(k, claimed);
        if result.Conflict? {
          ConflictIsReal(claimed, Actions(), result);
          return;
        }
        OneMoreWithoutConflict(claimed, Actions(), k);
        k := k + 1;
      }
      result := Linked;
    }

    /** Resolve the prerequisite items of one action. */
    method ResolvePrerequisites(k: nat)
      requires Valid() && ProducersKnown() && k < |all|
      modifies all
      ensures G() == AppendEdges(old(G()), k, Resolve(producerByPath, all[k].action.prerequisites, k))
    {
      ghost var before := G();
      WalkItems(k);
      GraphIs(AppendEdges(before, k, Resolve(producerByPath, all[k].action.prerequisites, k)));
    }

    method WalkItems(k: nat)
      requires Valid() && ProducersKnown() && k < |all|
      modifies all
      ensures all[k].prerequisiteActions
           == old(G()).prereqs[k] + Resolve(producerByPath, all[k].action.prerequisites, k)
      ensures forall a :: 0 <= a < |all| && a != k ==> all[a].prerequisiteActions == old(G()).prereqs[a]
      ensures forall p :: 0 <= p < |all| ==>
        all[p].dependentActions
        == old(G()).dependents[p] + Edges(k, Resolve(producerByPath, all[k].action.prerequisites, k), p)
    {
      hide Resolve, Edges;
      var linked := all[k];
      var items := linked.action.prerequisites;
      ghost var before := G();
      NothingResolved(producerByPath, k);
      var j := 0;
      while j < |items|
        invariant 0 <= j <= |items|
        invariant linked.prerequisiteActions == before.prereqs[k] + Resolve(producerByPath, items[..j], k)
        invariant forall a :: 0 <= a < |all| && a != k ==> all[a].prerequisiteActions == before.prereqs[a]
        invariant forall p :: 0 <= p < |all| ==>
          all[p].dependentActions == before.dependents[p] + Edges(k, Resolve(producerByPath, items[..j], k), p)
      {
        ghost var resolved := Resolve(producerByPath, items[..j], k);
        ResolveStep(producerByPath, items, j, k);
        if items[j] in producerByPath && producerByPath[items[j]] != k {
          var producer := producerByPath[items[j]];
          linked.AddPrerequisite(all[producer]);
          assert Resolve(producerByPath, items[..j + 1], k) == resolved + [producer];
          forall p | 0 <= p < |all|
            ensures all[p].dependentActions
                 == before.dependents[p] + Edges(k, Resolve(producerByPath, items[..j + 1], k), p)
          {
            OneMoreEdge(k, resolved, producer, p);
            assert p != producer ==> all[p] != all[producer];
          }
        } else {
          assert Resolve(producerByPath, items[..j + 1], k) == resolved;
        }
        j := j + 1;
      }
      assert items[..j] == items;
    }

    /** A graph that matches the edge lists node by node is the graph they spell out. */
    lemma GraphIs(g: Graph)
      requires g.Size() == |all| == |g.dependents|
      requires forall a :: 0 <= a < |all| ==>
        all[a].prerequisiteActions == g.prereqs[a] && all[a].dependentActions == g.dependents[a]
      ensures G() == g
    {
      assert G().prereqs == g.prereqs && G().dependents == g.dependents;
    }

    /** Second pass of linking: one edge per prerequisite item that another action produces. */
    method AddEdges()
      requires Valid() && ProducersKnown()
      modifies all
      ensures G() == AppendAll(old(G()), ResolveAll(producerByPath, Actions()), |all|)
    {
      hide Resolve, AppendEdges, ResolveAll, ActionGraph.Actions, ActionGraph.G;
      ghost var lists := ResolveAll(producerByPath, Actions());
      var k := 0;
      while k < |all|
        invariant 0 <= k <= |all|
        invariant G() == AppendAll(old(G()), lists, k)
      {
        ResolvePrerequisites(k);
        k := k + 1;
      }
    }

    /** Claim producers, then resolve prerequisites. On a conflict no edge is added; without one, the
        resolved prerequisites of every action are appended on both sides. */
    method Link() returns (result: LinkResult)
      requires Valid() && ProducersKnown()
      modifies this`producerByPath, all
      ensures Valid() && ProducersKnown() && Actions() == old(Actions())
      ensures result.Linked? <==> NoConflict(old(producerByPath), Actions(), |all|)
      ensures old(producerByPath) == map[] ==>
        (result.Linked? <==> forall i: nat, j: nat, path :: Shared(Actions(), i, j, path) ==>
          && Actions()[i].version == Actions()[j].version && Actions()[i].prerequisites == Actions()[j].prerequisites
          && Actions()[i].workingDirectory == Actions()[j].workingDirectory)
      ensures result.Conflict? ==>
        G() == old(G()) && FirstConflict(old(producerByPath), Actions(), result)
      ensures result.Linked? ==> forall path ::
        Lookup(producerByPath, path) == Producer(old(producerByPath), Actions(), |all|, path)
      ensures result.Linked? ==> G() == AppendAll(old(G()), ResolveAll(producerByPath, Actions()), |all|)
    {
      hide NoConflict, FirstConflict, Producer;
      InputOrder.NoConflictExactly(Actions());
      result := ClaimProducers();
      if result.Linked? {
        AddEdges();
      }
    }

    /** The linked graph as a value: what the read-only algorithms traverse. */
    method Snapshot() returns (g: Graph)
      ensures g == G()
    {
      var prereqs: seq<seq<nat>>, dependents: seq<seq<nat>> := [], [];
      var k := 0;
      while k < |all|
        invariant 0 <= k <= |all| && |prereqs| == |dependents| == k
        invariant forall a :: 0 <= a < k ==>
          prereqs[a] == all[a].prerequisiteActions && dependents[a] == all[a].dependentActions
      {
        prereqs := prereqs + [all[k].prerequisiteActions];
        dependents := dependents + [all[k].dependentActions];
        k := k + 1;
      }
      g := Graph(prereqs, dependents);
      GraphIs(g);
    }

    ghost function Versions(): (r: seq<IoHash>)
      reads this`all
      ensures |r| == |all|
    {
      VersionsOf(Actions())
    }

    method CollectVersions() returns (versions: seq<IoHash>)
      ensures versions == Versions()
    {
      versions := [];
      var k := 0;
      while k < |all|
        invariant 0 <= k <= |all| && |versions| == k
        invariant forall a :: 0 <= a < k ==> versions[a] == all[a].action.version
      {
        versions := versions + [all[k].action.version];
        k := k + 1;
      }
    }

    /** Reports a cycle exactly when there is one. */
    method DetectCycles() returns (cycle: Option<seq<nat>>)
      requires Valid() && G().Valid()
      ensures cycle.None? <==> G().Acyclic()
      ensures cycle.Some? ==> G().IsCycle(cycle.value) && Distinct(cycle.value[..|cycle.value| - 1])
    {
      var g := Snapshot();
      cycle := Kahn.DetectCycles(g);
    }

    /** Sort once and remember the order. `None` stands for the exception: no order covers all actions. */
    method Sort() returns (result: Option<seq<nat>>)
      requires Valid() && G().Valid()
      modifies this`sortedActions
      ensures old(sortedActions).Some? ==> result == old(sortedActions) == sortedActions
      ensures old(sortedActions).None? ==>
        && sortedActions == result
        && Sorting.SortAnswer(old(G()), old(Versions()), result)
    {
      if sortedActions.Some? {
        return sortedActions;
      }
      var g := Snapshot();
      var versions := CollectVersions();
      result := Sorting.Sort(g, versions);
      sortedActions := result;
    }

    /** The actions of the named modules and all their ancestors, in sorted order. */
    method GetActionsForSubset(moduleNames: set<string>) returns (result: Option<seq<nat>>)
      requires Valid() && G().Valid()
      requires sortedActions.Some? ==> Sorting.SortAnswer(G(), Versions(), sortedActions)
      modifies this`sortedActions
      ensures Sorting.SortAnswer(old(G()), old(Versions()), sortedActions)
      ensures result.Some? <==> sortedActions.Some?
      ensures result.Some? ==> forall a: nat :: a in result.value <==>
        exists s: nat, m :: s < |all| && m in moduleNames && old(Actions())[s].moduleName == Some(m)
                            && old(G()).Ancestor(a, s)
      ensures result.Some? ==> Distinct(result.value) && IsSubsequence(result.value, sortedActions.value)
      ensures result.Some? ==> PrerequisitesFirst(old(G()), result.value)
    {
      hide Graph.Valid, Graph.Ancestor, NamedActions, Keep, Contributes, PrerequisitesFirst, IsSubsequence;
      ContributesToModules(G(), Actions(), moduleNames);
      var seeds, work := Seeds(moduleNames);
      var g := Snapshot();
      var visited := Closure(g, seeds, work);
      ghost var versions := Versions();
      var order := Sort();
      if order.None? {
        return None;
      }
      SubsetIsTopological(g, versions, order.value, seeds, visited);
      result := Some(Keep(order.value, visited));
    }

    /** The actions whose module is named, as a visited set and as a stack. */
    method Seeds(moduleNames: set<string>) returns (visited: set<nat>, work: seq<nat>)
      ensures visited == NamedActions(Actions(), moduleNames)
      ensures forall a :: a in visited ==> a < |all|
      ensures forall a :: a in work <==> a in visited
    {
      visited, work := {}, [];
      var k := 0;
      while k < |all|
        invariant 0 <= k <= |all|
        invariant forall a: nat :: a in visited <==> a < k && Named(Actions()[a], moduleNames)
        invariant forall a: nat :: a in work <==> a in visited
      {
        if Named(all[k].action, moduleNames) {
          visited := visited + {k};
          work := work + [k];
        }
        k := k + 1;
      }
    }
  }

  lemma NothingResolved(producers: map<Path, nat>, k: nat)
    ensures Resolve(producers, [], k) == [] && forall p :: Edges(k, [], p) == []
  {
  }

  /** The producer of a path once the first `j` outputs of action `k` have been claimed too. */
  function ProducerSoFar(claimed: map<Path, nat>, actions: seq<Action>, k: nat, j: nat, path: Path): Option<nat>
    requires k < |actions| && j <= |actions[k].produced|
  {
    var earlier := Producer(claimed, actions, k, path);
    if earlier.Some? then earlier
    else if path in actions[k].produced[..j] then Some(k)
    else None
  }

  lemma SoFarStep(claimed: map<Path, nat>, actions: seq<Action>, k: nat, j: nat, path: Path)
    requires k < |actions| && j < |actions[k].produced|
    ensures ProducerSoFar(claimed, actions, k, j + 1, path)
         == var before := ProducerSoFar(claimed, actions, k, j, path);
            if before.Some? || path != actions[k].produced[j] then before else Some(k)
  {
    var outputs := actions[k].produced;
    assert outputs[..j + 1] == outputs[..j] + [outputs[j]];
  }

  /** Once an output has been claimed, its producer is final. */
  lemma SettledBy(claimed: map<Path, nat>, actions: seq<Action>, k: nat, j: nat)
    requires k < |actions| && j < |actions[k].produced|
    ensures var path := actions[k].produced[j];
            Producer(claimed, actions, k + 1, path)
            == var before := ProducerSoFar(claimed, actions, k, j, path);
               if before.Some? then before else Some(k)
  {
  }

  /** The first `j` outputs of action `k` agree with their producers. */
  ghost predicate NoConflictBefore(claimed: map<Path, nat>, actions: seq<Action>, k: nat, j: nat)
    requires k < |actions| && j <= |actions[k].produced|
  {
    forall i :: 0 <= i < j ==> NoConflictAt(claimed, actions, k, actions[k].produced[i])
  }

  /** The report names the first output of the second action that conflicts, the producer that had
      claimed it, and the first field in which the two differ. */
  ghost predicate FirstConflictOf(claimed: map<Path, nat>, actions: seq<Action>, r: LinkResult) {
    && r.Conflict? && r.first < |actions| && r.second < |actions|
    && Producer(claimed, actions, r.second, r.path) == Some(r.first)
    && DifferFirstIn(actions[r.first], actions[r.second], r.field)
    && exists j :: 0 <= j < |actions[r.second].produced| && actions[r.second].produced[j] == r.path
                   && NoConflictBefore(claimed, actions, r.second, j)
  }

  /** And no action before the second one conflicts at all. */
  ghost predicate FirstConflict(claimed: map<Path, nat>, actions: seq<Action>, r: LinkResult) {
    FirstConflictOf(claimed, actions, r) && NoConflict(claimed, actions, r.second)
  }

  lemma NothingClaimed(claimed: map<Path, nat>, actions: seq<Action>)
    ensures forall path :: Lookup(claimed, path) == Producer(claimed, actions, 0, path)
  {
  }

  lemma AllClaimed(claimed: map<Path, nat>, actions: seq<Action>, k: nat)
    requires k < |actions|
    ensures forall path :: ProducerSoFar(claimed, actions, k, |actions[k].produced|, path)
                           == Producer(claimed, actions, k + 1, path)
  {
    assert actions[k].produced[..|actions[k].produced|] == actions[k].produced;
  }

  lemma AgreeIffNoDivergence(x: Action, y: Action)
    ensures Divergence(x, y).None? <==> Agree(x, y)
  {
  }

  /** A producer that differs was there before action `k`. */
  lemma DivergingProducer(claimed: map<Path, nat>, actions: seq<Action>, k: nat, j: nat, existing: nat)
    requires k < |actions| && j < |actions[k].produced| && existing < |actions|
    requires ProducerSoFar(claimed, actions, k, j, actions[k].produced[j]) == Some(existing)
    requires Divergence(actions[existing], actions[k]).Some?
    ensures Producer(claimed, actions, k, actions[k].produced[j]) == Some(existing)
  {
  }

  lemma ConflictIsReal(claimed: map<Path, nat>, actions: seq<Action>, r: LinkResult)
    requires FirstConflictOf(claimed, actions, r)
    ensures !NoConflict(claimed, actions, |actions|)
  {
    var path := r.path;
    ProducerSettled(claimed, actions, r.second, r.second + 1, path);
    assert path in actions[r.second].produced && !NoConflictAt(claimed, actions, r.second, path);
  }

  lemma OneMoreWithoutConflict(claimed: map<Path, nat>, actions: seq<Action>, k: nat)
    requires k < |actions| && NoConflict(claimed, actions, k)
    requires NoConflictBefore(claimed, actions, k, |actions[k].produced|)
    ensures NoConflict(claimed, actions, k + 1)
  {
    hide NoConflictAt;
    forall i, path | 0 <= i < k + 1 && path in actions[i].produced
      ensures NoConflictAt(claimed, actions, i, path)
    {
      if i == k {
        var j :| 0 <= j < |actions[k].produced| && actions[k].produced[j] == path;
      }
    }
  }

  ghost function VersionsOf(actions: seq<Action>): (r: seq<IoHash>)
    ensures |r| == |actions| && forall a :: 0 <= a < |actions| ==> r[a] == actions[a].version
  {
    if actions == [] then [] else VersionsOf(actions[..|actions| - 1]) + [actions[|actions| - 1].version]
  }

  predicate Named(action: Action, moduleNames: set<string>) {
    action.moduleName.Some? && action.moduleName.value in moduleNames
  }

  ghost function NamedActions(actions: seq<Action>, moduleNames: set<string>): set<nat> {
    set a | 0 <= a < |actions| && Named(actions[a], moduleNames)
  }

  /** To contribute to the seeds is to be an ancestor of an action whose module is named. */
  lemma ContributesToModules(g: Graph, actions: seq<Action>, moduleNames: set<string>)
    ensures forall a: nat :: Contributes(g, NamedActions(actions, moduleNames), a) <==>
      exists s: nat, m :: s < |actions| && m in moduleNames && actions[s].moduleName == Some(m) && g.Ancestor(a, s)
  {
    hide Graph.Ancestor;
    var seeds := NamedActions(actions, moduleNames);
    forall a: nat
      ensures Contributes(g, seeds, a) <==>
        exists s: nat, m :: s < |actions| && m in moduleNames && actions[s].moduleName == Some(m) && g.Ancestor(a, s)
    {
      if s :| s in seeds && g.Ancestor(a, s) {
        assert actions[s].moduleName == Some(actions[s].moduleName.value);
      }
      if s: nat, m :| s < |actions| && m in moduleNames && actions[s].moduleName == Some(m) && g.Ancestor(a, s) {
        assert s in seeds;
      }
    }
  }

  /** The contributors of `seeds`, each once, in the order of `order`, with prerequisites first. */
  ghost predicate SubsetAnswer(g: Graph, order: seq<nat>, seeds: set<nat>, r: seq<nat>) {
    && IsSubsequence(r, order)
    && Distinct(r)
    && (forall a: nat :: a in r <==> Contributes(g, seeds, a))
    && PrerequisitesFirst(g, r)
  }

  /** Behind each action's prerequisites comes the action. */
  ghost predicate PrerequisitesFirst(g: Graph, r: seq<nat>) {
    forall j :: 0 <= j < |r| ==> r[j] < g.Size() && forall p :: p in g.prereqs[r[j]] ==> p in r[..j]
  }

  /** Cutting the sorted order down to a closure keeps it topological and loses no contributor. */
  lemma SubsetIsTopological(g: Graph, versions: seq<IoHash>, order: seq<nat>, seeds: set<nat>, visited: set<nat>)
    requires g.Valid() && |versions| == g.Size() && Canonical(g, versions, order)
    requires forall a :: a in seeds ==> a < g.Size()
    requires forall a: nat :: a in visited <==> Contributes(g, seeds, a)
    ensures SubsetAnswer(g, order, seeds, Keep(order, visited))
  {
    CanonicalIsTopological(g, versions, order);
    forall a | a in visited
      ensures a < g.Size() && a in order && forall p :: p in g.prereqs[a] ==> p in visited
    {
      var s :| s in seeds && g.Ancestor(a, s);
      var path :| g.PathBetween(path, s, a);
      assert path[|path| - 1] < g.Size() && a in Nodes(g.Size()) && a in Elements(order);
      forall p | p in g.prereqs[a]
        ensures p in visited
      {
        PrerequisiteContributes(g, seeds, a, p);
      }
    }
    KeepTopological(g, order, visited);
    KeepIsSubsequence(order, visited);
    var r := Keep(order, visited);
    forall j | 0 <= j < |r|
      ensures r[j] < g.Size()
    {
      assert r[j] in r;
    }
  }
}
