/** The sub-graph that a set of modules needs. */
module Subset {
  import opened Graphs
  import opened Sequences

  /** `a` contributes to `seeds`: it is one of them or an ancestor of one. */
  ghost predicate Contributes(g: Graph, seeds: set<nat>, a: nat) {
    exists s :: s in seeds && g.Ancestor(a, s)
  }

  lemma SelfContributes(g: Graph, seeds: set<nat>, a: nat)
    requires a in seeds && a < g.Size()
    ensures Contributes(g, seeds, a)
  {
    assert g.PathBetween([a], a, a);
  }

  lemma PrerequisiteContributes(g: Graph, seeds: set<nat>, a: nat, p: nat)
    requires g.Valid() && Contributes(g, seeds, a) && a < g.Size() && p in g.prereqs[a]
    ensures Contributes(g, seeds, p)
  {
    var s :| s in seeds && g.Ancestor(a, s);
    var path :| g.PathBetween(path, s, a);
    assert g.PathBetween(path + [p], s, p);
  }

  /** A closed set of contributors that holds the seeds holds every contributor. */
  lemma ClosedIsClosure(g: Graph, seeds: set<nat>, visited: set<nat>)
    requires g.Closed(visited) && seeds <= visited
    ensures forall a: nat :: Contributes(g, seeds, a) ==> a in visited
  {
    forall a: nat | Contributes(g, seeds, a)
      ensures a in visited
    {
      var s :| s in seeds && g.Ancestor(a, s);
      var path :| g.PathBetween(path, s, a);
      ClosedHoldsAncestors(g, visited, path);
    }
  }

  /** Everything visited contributes; what has left the stack has its prerequisites visited. */
  ghost predicate WalkState(g: Graph, seeds: set<nat>, visited: set<nat>, work: seq<nat>) {
    && (forall a :: a in visited ==> a < g.Size() && Contributes(g, seeds, a))
    && seeds <= visited
    && (forall a :: a in work ==> a in visited)
    && (forall a :: a in visited && a !in work ==> a < g.Size() && forall p :: p in g.prereqs[a] ==> p in visited)
  }

  lemma WalkStep(g: Graph, seeds: set<nat>, visited: set<nat>, work: seq<nat>, visited': set<nat>, work': seq<nat>)
    requires WalkState(g, seeds, visited, work) && work != [] && visited <= visited'
    requires forall a :: a in visited' ==> a < g.Size() && Contributes(g, seeds, a)
    requires work[|work| - 1] in visited
    requires forall p :: p in g.prereqs[work[|work| - 1]] ==> p in visited'
    requires forall a :: a in work' <==> a in work[..|work| - 1] || (a in visited' && a !in visited)
    ensures WalkState(g, seeds, visited', work')
  {
    hide Contributes;
    var rest, node := work[..|work| - 1], work[|work| - 1];
    forall a
      ensures a in work <==> a in rest || a == node
    {
      assert work == rest + [node];
    }
    forall a | a in visited' && a !in work'
      ensures forall p :: p in g.prereqs[a] ==> p in visited'
    {
      assert a in visited && (a == node || a !in work);
    }
    assert forall a :: a in rest ==> a in work;
  }

  lemma WalkShrinks(n: nat, visited: set<nat>, visited': set<nat>)
    requires visited <= visited' && visited != visited' && forall a :: a in visited' ==> a < n
    ensures Nodes(n) - visited' < Nodes(n) - visited
  {
    var a :| a in visited' && a !in visited;
    assert a in Nodes(n) - visited;
  }

  lemma WalkEnds(g: Graph, seeds: set<nat>, visited: set<nat>)
    requires WalkState(g, seeds, visited, [])
    ensures forall a: nat :: a in visited <==> Contributes(g, seeds, a)
  {
    ClosedIsClosure(g, seeds, visited);
  }

  /** Walk prerequisites from the seeds with an explicit stack. */
  method Closure(g: Graph, seeds: set<nat>, pushed: seq<nat>) returns (visited: set<nat>)
    requires g.Valid() && forall a :: a in seeds ==> a < g.Size()
    requires forall a :: a in pushed <==> a in seeds
    ensures forall a: nat :: a in visited <==> Contributes(g, seeds, a)
  {
    visited := seeds;
    var work := pushed;
    forall a | a in visited
      ensures Contributes(g, seeds, a)
    {
      SelfContributes(g, seeds, a);
    }
    while |work| > 0
      invariant WalkState(g, seeds, visited, work)
      decreases Nodes(g.Size()) - visited, |work|
    {
      var node := work[|work| - 1];
      assert node in work;
      var more, stack := Expand(g, seeds, node, visited, work[..|work| - 1]);
      WalkStep(g, seeds, visited, work, more, stack);
      if more != visited {
        WalkShrinks(g.Size(), visited, more);
      }
      visited, work := more, stack;
    }
    WalkEnds(g, seeds, visited);
  }

  /** Visit the prerequisites of one node, pushing those not seen before. */
  method Expand(g: Graph, ghost seeds: set<nat>, node: nat, visited: set<nat>, work: seq<nat>)
    returns (visited': set<nat>, work': seq<nat>)
    requires g.Valid() && node in visited && node < g.Size()
    requires forall a :: a in visited ==> a < g.Size() && Contributes(g, seeds, a)
    ensures forall a :: a in visited' ==> a < g.Size() && Contributes(g, seeds, a)
    ensures visited <= visited'
    ensures forall p :: p in g.prereqs[node] ==> p in visited'
    ensures forall a :: a in work' <==> a in work || (a in visited' && a !in visited)
    ensures visited' == visited ==> work' == work
  {
    visited', work' := visited, work;
    var j := 0;
    while j < |g.prereqs[node]|
      invariant 0 <= j <= |g.prereqs[node]| && visited <= visited'
      invariant forall a :: a in visited' ==> a < g.Size() && Contributes(g, seeds, a)
      invariant forall p :: p in g.prereqs[node][..j] ==> p in visited'
      invariant forall a :: a in work' <==> a in work || (a in visited' && a !in visited)
      invariant visited' == visited ==> work' == work
    {
      var prereq := g.prereqs[node][j];
      PrerequisiteContributes(g, seeds, node, prereq);
      if prereq !in visited' {
        visited' := visited' + {prereq};
        work' := work' + [prereq];
      }
      j := j + 1;
    }
  }

  /** The members of `keep`, in the order in which `order` lists them. */
  function Keep(order: seq<nat>, keep: set<nat>): (r: seq<nat>)
    ensures forall a :: a in r <==> a in order && a in keep
  {
    if order == [] then []
    else
      var init, last := order[..|order| - 1], order[|order| - 1];
      Keep(init, keep) + if last in keep then [last] else []
  }

  lemma {:induction false} KeepDistinct(order: seq<nat>, keep: set<nat>)
    requires Distinct(order)
    ensures Distinct(Keep(order, keep))
  {
    if order != [] {
      KeepDistinct(order[..|order| - 1], keep);
    }
  }

  /** What a kept entry follows in the order it still follows among the kept ones. */
  lemma {:induction false} KeepOrder(order: seq<nat>, keep: set<nat>, i: nat) returns (j: nat)
    requires i < |order| && order[i] in keep
    ensures j < |Keep(order, keep)| && Keep(order, keep)[j] == order[i]
    ensures Keep(order, keep)[..j] == Keep(order[..i], keep)
  {
    var init := order[..|order| - 1];
    if i == |init| {
      j := |Keep(init, keep)|;
    } else {
      j := KeepOrder(init, keep, i);
      assert init[..i] == order[..i];
      assert Keep(init, keep)[..j] == Keep(order, keep)[..j];
    }
  }

  /** Keeping a closed set leaves every prerequisite in front of the action that needs it. */
  lemma KeepTopological(g: Graph, order: seq<nat>, keep: set<nat>)
    requires Distinct(order) && g.Closed(keep)
    requires forall i :: 0 <= i < |order| ==>
      order[i] < g.Size() && forall p :: p in g.prereqs[order[i]] ==> p in order[..i]
    ensures var r := Keep(order, keep);
            && Distinct(r)
            && forall j, p :: 0 <= j < |r| && r[j] < g.Size() && p in g.prereqs[r[j]] ==> p in r[..j]
  {
    KeepDistinct(order, keep);
    var r := Keep(order, keep);
    forall j, p | 0 <= j < |r| && r[j] < g.Size() && p in g.prereqs[r[j]]
      ensures p in r[..j]
    {
      assert r[j] in r;
      var i :| 0 <= i < |order| && order[i] == r[j];
      var k := KeepOrder(order, keep, i);
      assert j == k;
      assert p in Keep(order[..i], keep);
    }
  }

  lemma {:induction false} KeepIsSubsequence(order: seq<nat>, keep: set<nat>)
    ensures IsSubsequence(Keep(order, keep), order)
    decreases |order|
  {
    if order == [] {
      EmptySubsequence(order);
    } else {
      hide IsSubsequence;
      var init, last := order[..|order| - 1], order[|order| - 1];
      KeepIsSubsequence(init, keep);
      SubsequenceGrows(Keep(init, keep), init, last);
      assert order == init + [last] && Keep(init, keep) + [] == Keep(init, keep);
    }
  }
}
