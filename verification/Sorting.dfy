/**
 Sorting the linked graph: Kahn's algorithm again, but drawing from a set ordered by version, in
 which a second action with the same version is refused.
 */
module Sorting {
  import opened Wrappers
  import opened Bytes
  import opened Graphs
  import opened Kahn
  import opened SortOrder

  /** The ordered ready set: increasing versions, hence no two alike. */
  ghost predicate Increasing(versions: seq<IoHash>, ready: seq<nat>) {
    && (forall i :: 0 <= i < |ready| ==> ready[i] < |versions|)
    && (forall i, j :: 0 <= i < j < |ready| ==> Below(versions[ready[i]], versions[ready[j]]))
  }

  ghost predicate HasVersion(versions: seq<IoHash>, ready: seq<nat>, version: IoHash)
    requires forall i :: 0 <= i < |ready| ==> ready[i] < |versions|
  {
    exists r :: r in ready && versions[r] == version
  }

  /** Insert an action unless the set already holds one with the same version. */
  method AddReady(versions: seq<IoHash>, ready: seq<nat>, node: nat) returns (r: seq<nat>)
    requires Increasing(versions, ready) && node < |versions|
    ensures Increasing(versions, r)
    ensures HasVersion(versions, ready, versions[node]) ==> r == ready
    ensures !HasVersion(versions, ready, versions[node]) ==> Elements(r) == Elements(ready) + {node}
  {
    var i := 0;
    while i < |ready|
      invariant 0 <= i <= |ready|
      invariant forall k :: 0 <= k < i ==> Below(versions[ready[k]], versions[node])
    {
      var cmp := CompareDigests(versions[ready[i]], versions[node]);
      BelowExactly(versions[ready[i]], versions[node]);
      BelowExactly(versions[node], versions[ready[i]]);
      if cmp == 0 {
        assert ready[i] in ready;
        return ready;
      }
      if cmp > 0 {
        break;
      }
      i := i + 1;
    }
    InsertAt(versions, ready, node, i);
    r := ready[..i] + [node] + ready[i..];
  }

  lemma InsertAt(versions: seq<IoHash>, ready: seq<nat>, node: nat, i: nat)
    requires Increasing(versions, ready) && node < |versions| && i <= |ready|
    requires forall k :: 0 <= k < i ==> Below(versions[ready[k]], versions[node])
    requires i < |ready| ==> Below(versions[node], versions[ready[i]])
    ensures var r := ready[..i] + [node] + ready[i..];
            Increasing(versions, r) && Elements(r) == Elements(ready) + {node}
    ensures !HasVersion(versions, ready, versions[node])
  {
    forall k | i <= k < |ready|
      ensures Below(versions[node], versions[ready[k]])
    {
      if i < k {
        BelowTransitive(versions[node], versions[ready[i]], versions[ready[k]]);
      }
    }
    BelowIrreflexive(versions[node]);
    hide Below;
    var r := ready[..i] + [node] + ready[i..];
    forall a
      ensures a in r <==> a in ready || a == node
    {
      assert ready == ready[..i] + ready[i..];
    }
  }

  /** Two different members of a set that share a version. */
  ghost predicate Clash(versions: seq<IoHash>, s: set<nat>) {
    exists a, b :: a in s && b in s && a != b && a < |versions| && b < |versions| && versions[a] == versions[b]
  }

  /** `offered` is what the set has been offered: it holds part of it in order and refused the rest,
      and it refuses only when two versions in `all` clash. */
  ghost predicate Offered(versions: seq<IoHash>, ready: seq<nat>, refused: set<nat>, offered: set<nat>, all: set<nat>) {
    && Increasing(versions, ready)
    && Elements(ready) !! refused
    && Elements(ready) + refused == offered
    && (refused != {} ==> Clash(versions, all))
  }

  /** Offer the next action of `list` to the set, keeping track of what it refuses. */
  method Offer(versions: seq<IoHash>, ready: seq<nat>, node: nat, ghost refused: set<nat>,
               ghost queue: seq<nat>, ghost released: seq<nat>, ghost list: seq<nat>)
    returns (r: seq<nat>, ghost refused': set<nat>)
    requires Distinct(list) && forall a :: a in list ==> a !in queue
    requires released + [node] <= list && node < |versions|
    requires Offered(versions, ready, refused, Elements(queue) + Elements(released), Elements(queue) + Elements(list))
    ensures Offered(versions, r, refused', Elements(queue) + Elements(released + [node]),
                    Elements(queue) + Elements(list))
  {
    NextReleased(list, released, node, queue);
    r := AddReady(versions, ready, node);
    refused' := refused;
    if HasVersion(versions, ready, versions[node]) {
      ghost var twin :| twin in ready && versions[twin] == versions[node];
      assert twin in Elements(ready);
      refused' := refused + {node};
    }
  }

  /** Lower the counters of the dependents; those that reach zero are offered to the ready set. */
  method ReleaseSorted(versions: seq<IoHash>, deps: seq<nat>, indegree: seq<int>, queue: seq<nat>)
    returns (counters: seq<int>, ready: seq<nat>, ghost refused: set<nat>)
    requires Increasing(versions, queue) && |indegree| == |versions|
    requires forall i :: 0 <= i < |deps| ==> deps[i] < |indegree|
    requires var released := Release(indegree, deps, {}).1;
             Distinct(released) && forall a :: a in released ==> a !in queue
    ensures counters == Release(indegree, deps, {}).0
    ensures var all := Elements(queue) + Elements(Release(indegree, deps, {}).1);
            Offered(versions, ready, refused, all, all)
  {
    OfferedAtFirst(versions, queue, Elements(Release(indegree, deps, {}).1));
    hide Offered, Increasing;
    counters, ready, refused := indegree, queue, {};
    ghost var effect := Release(indegree, deps, {});
    ghost var released: seq<nat>, rest := [], effect.1;
    var j := 0;
    assert deps[0..] == deps;
    assert Elements(queue) + Elements(released) == Elements(queue);
    while j < |deps|
      invariant 0 <= j <= |deps| && |counters| == |indegree|
      invariant Release(counters, deps[j..], {}) == (effect.0, rest)
      invariant released + rest == effect.1
      invariant Offered(versions, ready, refused, Elements(queue) + Elements(released),
                        Elements(queue) + Elements(effect.1))
    {
      var dep := deps[j];
      ReleaseTurn(counters, deps, j, {});
      var newDegree := counters[dep] - 1;
      counters := counters[dep := newDegree];
      rest := Release(counters, deps[j + 1..], {}).1;
      if newDegree == 0 {
        MoveAcross(released, dep, rest);
        ready, refused := Offer(versions, ready, dep, refused, queue, released, effect.1);
        released := released + [dep];
      }
      j := j + 1;
    }
    assert released == effect.1;
  }

  lemma OfferedAtFirst(versions: seq<IoHash>, queue: seq<nat>, released: set<nat>)
    requires Increasing(versions, queue)
    ensures Offered(versions, queue, {}, Elements(queue), Elements(queue) + released)
  {
  }

  lemma MoveAcross(a: seq<nat>, x: nat, b: seq<nat>)
    ensures a + ([x] + b) == (a + [x]) + b
    ensures a + [x] <= (a + [x]) + b
  {
  }

  lemma NextReleased(all: seq<nat>, released: seq<nat>, dep: nat, queue: seq<nat>)
    requires Distinct(all) && forall a :: a in all ==> a !in queue
    requires released + [dep] <= all
    ensures dep !in Elements(queue) + Elements(released)
    ensures dep in Elements(all) && Elements(released) <= Elements(all)
    ensures Elements(released + [dep]) == Elements(released) + {dep}
  {
    assert dep == all[|released|] && released == all[..|released|];
  }

  ghost predicate NoOrder(g: Graph, versions: seq<IoHash>)
    requires |versions| == g.Size()
  {
    forall order :: !Canonical(g, versions, order)
  }

  /** The invariant of sorting. What is ready is either in the set or was refused by it; as long as
      nothing was refused the list so far is canonical, and a refusal rules every order out. */
  ghost predicate SortState(
    g: Graph, versions: seq<IoHash>, deg: seq<int>, ready: seq<nat>, sorted: seq<nat>, lost: set<nat>) {
    && |versions| == g.Size()
    && Distinct(sorted) && (forall i :: 0 <= i < |sorted| ==> sorted[i] < g.Size())
    && CountersCorrect(g, deg, Elements(sorted)) && g.Closed(Elements(sorted))
    && Increasing(versions, ready) && Elements(ready) !! lost
    && Elements(ready) + lost == g.ReadyAfter(Elements(sorted))
    && (if lost == {} then CanonicalPrefix(g, versions, sorted) else NoOrder(g, versions))
  }

  lemma ClashBlocks(g: Graph, versions: seq<IoHash>, prefix: seq<nat>, s: set<nat>)
    requires |versions| == g.Size() && CanonicalPrefix(g, versions, prefix)
    requires Clash(versions, s) && s <= g.ReadyAfter(Elements(prefix))
    ensures NoOrder(g, versions)
  {
    var a, b :| a in s && b in s && a != b && a < |versions| && b < |versions| && versions[a] == versions[b];
    ReadyTwinsBlock(g, versions, prefix, a, b);
  }

  lemma TakeLeast(g: Graph, versions: seq<IoHash>, deg: seq<int>, ready: seq<nat>, sorted: seq<nat>, lost: set<nat>)
    requires g.Valid() && SortState(g, versions, deg, ready, sorted, lost) && ready != []
    ensures ready[0] < g.Size() && ready[0] !in sorted && |sorted| < g.Size()
    ensures Increasing(versions, ready[1..]) && Elements(ready[1..]) == Elements(ready) - {ready[0]}
    ensures var released := Release(deg, g.dependents[ready[0]], {}).1;
            Distinct(released) && forall a :: a in released ==> a !in ready[1..]
  {
    hide Graph.Valid, CanonicalPrefix, NoOrder, Release;
    var done := Elements(sorted);
    assert ready[0] in Elements(ready) && ready[0] in g.ReadyAfter(done);
    FinishReady(g, deg, done, ready[0]);
    DistinctNodesBound(sorted + [ready[0]], g.Size());
    forall i | 1 <= i < |ready|
      ensures ready[i] != ready[0] && ready[i] in g.ReadyAfter(done)
    {
      assert ready[i] in Elements(ready);
      BelowIrreflexive(versions[ready[0]]);
    }
    assert ready == [ready[0]] + ready[1..];
  }

  lemma LeastIsCanonical(g: Graph, versions: seq<IoHash>, ready: seq<nat>, sorted: seq<nat>)
    requires |versions| == g.Size() && CanonicalPrefix(g, versions, sorted)
    requires Increasing(versions, ready) && ready != [] && Elements(ready) == g.ReadyAfter(Elements(sorted))
    ensures CanonicalPrefix(g, versions, sorted + [ready[0]])
  {
    var longer := sorted + [ready[0]];
    forall i | 0 <= i < |longer|
      ensures StrictlyLeast(g, versions, Elements(longer[..i]), longer[i])
    {
      if i < |sorted| {
        assert longer[..i] == sorted[..i];
      } else {
        assert longer[..i] == sorted;
        assert ready[0] in Elements(ready);
        forall r | r in g.ReadyAfter(Elements(sorted)) && r != ready[0]
          ensures Below(versions[ready[0]], versions[r])
        {
          assert r in Elements(ready);
        }
      }
    }
  }

  lemma SortStep(g: Graph, versions: seq<IoHash>, deg: seq<int>, ready: seq<nat>, sorted: seq<nat>, lost: set<nat>,
                 ready': seq<nat>, refused: set<nat>)
    requires g.Valid() && SortState(g, versions, deg, ready, sorted, lost) && ready != [] && ready[0] < g.Size()
    requires Elements(ready[1..]) == Elements(ready) - {ready[0]}
    requires var all := Elements(ready[1..]) + Elements(Release(deg, g.dependents[ready[0]], {}).1);
             Offered(versions, ready', refused, all, all)
    ensures SortState(g, versions, Release(deg, g.dependents[ready[0]], {}).0, ready', sorted + [ready[0]],
                      lost + refused)
  {
    var node, done := ready[0], Elements(sorted);
    var sorted' := sorted + [node];
    assert node in Elements(ready) && node in g.ReadyAfter(done);
    FinishReady(g, deg, done, node);
    assert Elements(sorted') == done + {node};
    if lost == {} {
      LeastIsCanonical(g, versions, ready, sorted);
      if refused != {} {
        ClashBlocks(g, versions, sorted', Elements(ready') + refused);
      }
    }
  }

  lemma SortEnd(g: Graph, versions: seq<IoHash>, deg: seq<int>, sorted: seq<nat>, lost: set<nat>)
    requires g.Valid() && SortState(g, versions, deg, [], sorted, lost)
    ensures if |sorted| == g.Size() then Canonical(g, versions, sorted) else NoOrder(g, versions)
  {
    var done := Elements(sorted);
    DistinctElements(sorted);
    if |sorted| == g.Size() {
      AllDone(done, g.Size());
      assert lost == {};
    } else if lost == {} {
      assert g.ReadyAfter(done) == {};
      var a := MissingNode(done, g.Size());
      NothingReadyIsUnsafe(g, done, a);
      forall order
        ensures !Canonical(g, versions, order)
      {
        if Canonical(g, versions, order) {
          CanonicalIsTopological(g, versions, order);
          TopologicalIsAcyclic(g, order);
        }
      }
    }
  }

  /** Sorting succeeds exactly when a canonical order exists, and then the order is canonical. */
  ghost predicate SortAnswer(g: Graph, versions: seq<IoHash>, result: Option<seq<nat>>)
    requires |versions| == g.Size()
  {
    if result.Some? then Canonical(g, versions, result.value) else NoOrder(g, versions)
  }

  /** The ready set to start from. */
  method Seed(versions: seq<IoHash>, initial: seq<nat>) returns (ready: seq<nat>, ghost lost: set<nat>)
    requires Distinct(initial) && forall i :: 0 <= i < |initial| ==> initial[i] < |versions|
    ensures Offered(versions, ready, lost, Elements(initial), Elements(initial))
  {
    ready, lost := [], {};
    var k := 0;
    while k < |initial|
      invariant 0 <= k <= |initial|
      invariant Offered(versions, ready, lost, Elements([]) + Elements(initial[..k]), Elements([]) + Elements(initial))
    {
      assert initial[..k + 1] == initial[..k] + [initial[k]];
      ready, lost := Offer(versions, ready, initial[k], lost, [], initial[..k], initial);
      k := k + 1;
    }
    assert initial[..k] == initial;
    assert Elements([]) + Elements(initial) == Elements(initial);
  }

  /** `None` stands for the exception that reports an incomplete order. */
  method Sort(g: Graph, versions: seq<IoHash>) returns (result: Option<seq<nat>>)
    requires g.Valid() && |versions| == g.Size()
    ensures SortAnswer(g, versions, result)
  {
    var indegree := InDegrees(g);
    var initial := InitialQueue(g, indegree);
    forall i | 0 <= i < |initial|
      ensures initial[i] < |versions|
    {
      assert initial[i] in Elements(initial) && initial[i] in g.ReadyAfter({});
    }
    var ready, lost := Seed(versions, initial);
    var sorted: seq<nat> := [];
    assert Elements(sorted) == {};
    if lost != {} {
      ClashBlocks(g, versions, sorted, Elements(initial));
    }

    while |ready| > 0
      invariant SortState(g, versions, indegree, ready, sorted, lost)
      decreases g.Size() - |sorted|
    {
      var node := ready[0];
      TakeLeast(g, versions, indegree, ready, sorted, lost);
      ghost var before, counters := ready, indegree;
      ghost var refused;
      indegree, ready, refused := ReleaseSorted(versions, g.dependents[node], indegree, ready[1..]);
      SortStep(g, versions, counters, before, sorted, lost, ready, refused);
      sorted := sorted + [node];
      lost := lost + refused;
    }
    SortEnd(g, versions, indegree, sorted, lost);
    if |sorted| != g.Size() {
      return None;
    }
    result := Some(sorted);
  }
}
