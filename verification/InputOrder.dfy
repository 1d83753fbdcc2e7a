/** Linking and sorting do not depend on the order in which the actions are given. */
module InputOrder {
  import opened Wrappers
  import opened Bytes
  import opened Graphs
  import opened LinkSpec
  import opened SortOrder

  /** The same actions in another order: action `a` of one list is action `rename[a]` of the other. */
  ghost predicate Reordered(rename: seq<nat>, actions: seq<Action>, actions': seq<Action>) {
    && |rename| == |actions| == |actions'|
    && Distinct(rename)
    && forall a :: 0 <= a < |rename| ==> rename[a] < |rename| && actions'[rename[a]] == actions[a]
  }

  // ---------------------------------------------------------------- conflicts

  /** Any two actions that list one path as an output have the same version, prerequisites and directory. */
  ghost predicate ProducersAgree(actions: seq<Action>) {
    forall i: nat, j: nat, path :: Shared(actions, i, j, path) ==>
      && actions[i].version == actions[j].version && actions[i].prerequisites == actions[j].prerequisites
      && actions[i].workingDirectory == actions[j].workingDirectory
  }

  /** Comparing each action with the first producer alone finds out whether all of them agree. */
  lemma NoConflictExactly(actions: seq<Action>)
    ensures NoConflict(map[], actions, |actions|) <==> ProducersAgree(actions)
  {
    if NoConflict(map[], actions, |actions|) {
      forall i: nat, j: nat, path | Shared(actions, i, j, path)
        ensures Agree(actions[i], actions[j])
      {
        AgreesWithProducer(actions, i, path);
        AgreesWithProducer(actions, j, path);
      }
    }
    if ProducersAgree(actions) {
      forall i, path | 0 <= i < |actions| && path in actions[i].produced
        ensures NoConflictAt(map[], actions, i, path)
      {
        ProducerIsFirst(actions, i + 1, path);
        assert Shared(actions, Producer(map[], actions, i + 1, path).value, i, path);
      }
    }
  }

  lemma AgreesWithProducer(actions: seq<Action>, i: nat, path: Path)
    requires NoConflict(map[], actions, |actions|) && i < |actions| && path in actions[i].produced
    ensures var p := Producer(map[], actions, |actions|, path);
            p.Some? && p.value < |actions| && Agree(actions[p.value], actions[i])
  {
    assert NoConflictAt(map[], actions, i, path);
    ProducerSettled(map[], actions, i + 1, |actions|, path);
  }

  /** Whether linking fails does not depend on the input order. */
  lemma ConflictIgnoresInputOrder(rename: seq<nat>, actions: seq<Action>, actions': seq<Action>)
    requires Reordered(rename, actions, actions')
    ensures NoConflict(map[], actions, |actions|) <==> NoConflict(map[], actions', |actions'|)
  {
    NoConflictExactly(actions);
    NoConflictExactly(actions');
    if ProducersAgree(actions) {
      forall i: nat, j: nat, path | Shared(actions', i, j, path)
        ensures Agree(actions'[i], actions'[j])
      {
        var a := Preimage(rename, i);
        var b := Preimage(rename, j);
        assert Shared(actions, a, b, path);
      }
    }
    if ProducersAgree(actions') {
      forall i: nat, j: nat, path | Shared(actions, i, j, path)
        ensures Agree(actions[i], actions[j])
      {
        assert Shared(actions', rename[i], rename[j], path);
      }
    }
  }

  // ---------------------------------------------------------------- edges

  /** No path is the output of two actions. */
  ghost predicate OneProducer(actions: seq<Action>) {
    forall i: nat, j: nat, path :: Shared(actions, i, j, path) ==> i == j
  }

  ghost predicate IsVersions(actions: seq<Action>, versions: seq<IoHash>) {
    |versions| == |actions| && forall a :: 0 <= a < |actions| ==> versions[a] == actions[a].version
  }

  /** What linking a fresh graph leaves in the producer map. */
  ghost predicate IsProducerMap(actions: seq<Action>, producers: map<Path, nat>) {
    forall path :: Lookup(producers, path) == Producer(map[], actions, |actions|, path)
  }

  /** Actions with distinct command versions that link without a conflict share no output. */
  lemma DistinctVersionsShareNothing(actions: seq<Action>, versions: seq<IoHash>)
    requires IsVersions(actions, versions) && DistinctVersions(versions) && NoConflict(map[], actions, |actions|)
    ensures OneProducer(actions)
  {
    NoConflictExactly(actions);
    forall i: nat, j: nat, path | Shared(actions, i, j, path)
      ensures i == j
    {
      assert Agree(actions[i], actions[j]) && versions[i] == versions[j];
    }
  }

  lemma SoleProducer(actions: seq<Action>, producers: map<Path, nat>, p: nat, path: Path)
    requires OneProducer(actions) && IsProducerMap(actions, producers)
    ensures path in producers && producers[path] == p <==> p < |actions| && path in actions[p].produced
  {
    var first := Producer(map[], actions, |actions|, path);
    assert Lookup(producers, path) == first;
    ProducerIsFirst(actions, |actions|, path);
    if p < |actions| && path in actions[p].produced {
      assert Shared(actions, first.value, p, path);
    }
  }

  lemma ProducersBound(actions: seq<Action>, producers: map<Path, nat>)
    requires IsProducerMap(actions, producers)
    ensures forall path :: path in producers ==> producers[path] < |actions|
  {
    forall path | path in producers ensures producers[path] < |actions| {
      assert Lookup(producers, path) == Producer(map[], actions, |actions|, path);
      ProducerIsFirst(actions, |actions|, path);
    }
  }

  lemma {:induction false} ResolveMember(producers: map<Path, nat>, items: seq<Path>, a: nat, p: nat)
    ensures p in Resolve(producers, items, a)
       <==> p != a && exists item :: item in items && item in producers && producers[item] == p
  {
    if items != [] {
      var init, last := items[..|items| - 1], items[|items| - 1];
      ResolveMember(producers, init, a, p);
      assert items == init + [last];
    }
  }

  /** Without shared outputs, `p` is a prerequisite of `a` exactly if it makes one of the items of `a`. */
  lemma LinkedEdge(actions: seq<Action>, producers: map<Path, nat>, a: nat, p: nat)
    requires OneProducer(actions) && IsProducerMap(actions, producers) && a < |actions| && p < |actions|
    ensures p in LinkedGraph(producers, actions).prereqs[a]
       <==> p != a && exists item :: item in actions[a].prerequisites && item in actions[p].produced
  {
    hide Resolve, DependentsOf, IsProducerMap, OneProducer;
    ResolveMember(producers, actions[a].prerequisites, a, p);
    forall item
      ensures item in producers && producers[item] == p <==> item in actions[p].produced
    {
      SoleProducer(actions, producers, p, item);
    }
  }

  // ---------------------------------------------------------------- shared outputs and sorting

  /** No action lists an output of its own as a prerequisite. */
  ghost predicate NoOwnPrerequisites(actions: seq<Action>) {
    forall a, item :: 0 <= a < |actions| && item in actions[a].prerequisites ==> item !in actions[a].produced
  }

  /** What producing an item means for the producer map. */
  lemma MappedProducer(actions: seq<Action>, producers: map<Path, nat>, item: Path)
    requires IsProducerMap(actions, producers) && item in producers
    ensures producers[item] < |actions| && item in actions[producers[item]].produced
  {
    assert Lookup(producers, item) == Producer(map[], actions, |actions|, item);
    ProducerIsFirst(actions, |actions|, item);
  }

  /** Two actions with the same items, none of them an output of either, have the same prerequisites. */
  lemma SameItemsSameEdges(actions: seq<Action>, producers: map<Path, nat>, a: nat, b: nat)
    requires IsProducerMap(actions, producers) && a < |actions| && b < |actions|
    requires actions[a].prerequisites == actions[b].prerequisites && NoOwnPrerequisites(actions)
    ensures Elements(LinkedGraph(producers, actions).prereqs[a]) == Elements(LinkedGraph(producers, actions).prereqs[b])
  {
    hide Resolve, DependentsOf, IsProducerMap;
    var items := actions[a].prerequisites;
    forall item | item in items && item in producers ensures producers[item] != a && producers[item] != b {
      MappedProducer(actions, producers, item);
    }
    forall p: nat ensures p in Resolve(producers, items, a) <==> p in Resolve(producers, items, b) {
      ResolveMember(producers, items, a, p);
      ResolveMember(producers, items, b, p);
    }
  }

  /** Sorting rules shared outputs out: two actions that link although they share an output are twins, and
      with twins there is no canonical order. */
  lemma SortedShareNothing(actions: seq<Action>, producers: map<Path, nat>, versions: seq<IoHash>, order: seq<nat>)
    requires IsProducerMap(actions, producers) && IsVersions(actions, versions)
    requires NoConflict(map[], actions, |actions|) && NoOwnPrerequisites(actions)
    requires Canonical(LinkedGraph(producers, actions), versions, order)
    ensures OneProducer(actions)
  {
    hide IsProducerMap, LinkedGraph, Canonical, NoConflict, NoOwnPrerequisites;
    var g := LinkedGraph(producers, actions);
    NoConflictExactly(actions);
    forall i: nat, j: nat, path | Shared(actions, i, j, path)
      ensures i == j
    {
      if i != j {
        assert Agree(actions[i], actions[j]);
        SameItemsSameEdges(actions, producers, i, j);
        assert Twins(g, versions, i, j);
        TwinsBlock(g, versions, i, j);
      }
    }
  }

  lemma FirstCopyProduces(x: Action, path: Path)
    requires x.produced == [path]
    ensures IsProducerMap([x, x], map[path := 0])
  {
    var actions, producers: map<Path, nat> := [x, x], map[path := 0];
    forall p ensures Lookup(producers, p) == Producer(map[], actions, 2, p) {
      ProducerIsFirst(actions, 2, p);
      assert p in actions[0].produced <==> p == path;
      assert p in actions[1].produced <==> p == path;
    }
  }

  lemma TwoInARow(g: Graph, versions: seq<IoHash>)
    requires g.prereqs == [[], [0]] && |versions| == 2
    ensures Canonical(g, versions, [0, 1])
  {
    assert 0 in g.prereqs[1];
    var order: seq<nat> := [0, 1];
    assert order[..0] == [] && order[..1] == [0];
    assert Elements(order[..0]) == {} && Elements(order[..1]) == {0};
    assert g.ReadyAfter({}) == {0} && g.ReadyAfter({0}) == {1};
    assert StrictlyLeast(g, versions, Elements(order[..0]), order[0]);
    assert StrictlyLeast(g, versions, Elements(order[..1]), order[1]);
  }

  /** With an output of its own among the prerequisites it can be otherwise: two copies of an action that
      makes and lists one path link and sort, the second behind the first. */
  lemma OwnPrerequisiteHidesSharing(x: Action, path: Path)
    requires x.prerequisites == [path] && x.produced == [path]
    ensures var actions, producers := [x, x], map[path := 0 as nat];
            && IsProducerMap(actions, producers) && NoConflict(map[], actions, 2)
            && Canonical(LinkedGraph(producers, actions), [x.version, x.version], [0, 1])
            && !OneProducer(actions)
  {
    var actions, producers := [x, x], map[path := 0 as nat];
    FirstCopyProduces(x, path);
    NoConflictExactly(actions);
    assert Shared(actions, 0, 1, path);
    hide IsProducerMap, NoConflict, OneProducer;
    var g, versions := LinkedGraph(producers, actions), [x.version, x.version];
    ResolveStep(producers, [path], 0, 0);
    ResolveStep(producers, [path], 0, 1);
    assert [path][..1] == [path] && g.prereqs[0] == [] && g.prereqs[1] == [0];
    TwoInARow(g, versions);
  }

  /** Linking the reordered actions yields the same graph under other handles. */
  lemma LinkedRenaming(rename: seq<nat>, actions: seq<Action>, producers: map<Path, nat>, versions: seq<IoHash>,
                       actions': seq<Action>, producers': map<Path, nat>, versions': seq<IoHash>)
    requires Reordered(rename, actions, actions') && OneProducer(actions)
    requires IsProducerMap(actions, producers) && IsVersions(actions, versions)
    requires IsProducerMap(actions', producers') && IsVersions(actions', versions')
    ensures OneProducer(actions')
    ensures Renaming(rename, LinkedGraph(producers, actions), versions, LinkedGraph(producers', actions'), versions')
  {
    hide IsProducerMap, LinkedGraph;
    forall i: nat, j: nat, path | Shared(actions', i, j, path)
      ensures i == j
    {
      var a := Preimage(rename, i);
      var b := Preimage(rename, j);
      assert Shared(actions, a, b, path);
    }
    forall a, p | 0 <= a < |rename| && 0 <= p < |rename|
      ensures p in LinkedGraph(producers, actions).prereqs[a]
              <==> rename[p] in LinkedGraph(producers', actions').prereqs[rename[a]]
    {
      LinkedEdge(actions, producers, a, p);
      LinkedEdge(actions', producers', rename[a], rename[p]);
      assert p != a ==> rename[p] != rename[a];
    }
  }

  /** Sorting ignores the input order. Take actions that share no output, which distinct command versions
      see to, and a canonical order of their linked graph: the same actions linked in another input order
      have a canonical order too, and it lists the same actions one by one. */
  lemma SortIgnoresInputOrder(rename: seq<nat>, actions: seq<Action>, producers: map<Path, nat>, versions: seq<IoHash>,
                              actions': seq<Action>, producers': map<Path, nat>, versions': seq<IoHash>,
                              order: seq<nat>)
    requires Reordered(rename, actions, actions') && OneProducer(actions)
    requires IsProducerMap(actions, producers) && IsVersions(actions, versions)
    requires IsProducerMap(actions', producers') && IsVersions(actions', versions')
    requires Canonical(LinkedGraph(producers, actions), versions, order)
    ensures exists order' :: Canonical(LinkedGraph(producers', actions'), versions', order')
    ensures forall order' :: Canonical(LinkedGraph(producers', actions'), versions', order')
                             ==> SameActions(actions, order, actions', order')
  {
    hide LinkedGraph, IsProducerMap, IsVersions, Canonical;
    var g, h := LinkedGraph(producers, actions), LinkedGraph(producers', actions');
    ProducersBound(actions, producers);
    ProducersBound(actions', producers');
    LinkedGraphValid(producers, actions);
    LinkedGraphValid(producers', actions');
    LinkedRenaming(rename, actions, producers, versions, actions', producers', versions');
    RenamedCanonical(rename, g, versions, order, h, versions');
    forall order' | Canonical(h, versions', order')
      ensures SameActions(actions, order, actions', order')
    {
      CanonicalIgnoresInputOrder(rename, g, versions, order, h, versions', order');
    }
  }

  /** The two lists of handles name the same actions, position by position. */
  ghost predicate SameActions(actions: seq<Action>, order: seq<nat>, actions': seq<Action>, order': seq<nat>) {
    && |order| == |order'|
    && forall i :: 0 <= i < |order| ==>
         order[i] < |actions| && order'[i] < |actions'| && actions[order[i]] == actions'[order'[i]]
  }
}
