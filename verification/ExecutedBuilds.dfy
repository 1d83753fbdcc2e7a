/**
 From linking over execution to the null build: a linked list of actions is a plan, and what an executor
 run lets its actions do to the files and the memory is a build of that plan.
 */
module ExecutedBuilds {
  import opened Wrappers
  import opened Bytes
  import opened Graphs
  import opened Builds
  import opened InputOrder
  import opened SortOrder
  import Execution
  import LinkSpec
  import NullBuilds
  import Schedules
  import Staleness

  // ---------------------------------------------------------------- linked actions are a plan

  /** The plan of a linked list of actions with these action keys. */
  function PlanOf(actions: seq<LinkSpec.Action>, producers: map<Path, nat>, keys: seq<IoHash>): (plan: Plan)
    requires |keys| == |actions|
    ensures plan.graph == LinkSpec.LinkedGraph(producers, actions) && |plan.actions| == |actions|
    ensures forall a :: 0 <= a < |actions| ==>
      plan.actions[a] == Staleness.Action(actions[a].produced, actions[a].prerequisites, keys[a])
  {
    Plan(LinkSpec.LinkedGraph(producers, actions),
         seq(|actions|, a requires 0 <= a < |actions| =>
               Staleness.Action(actions[a].produced, actions[a].prerequisites, keys[a])))
  }

  /** Linking gives every produced prerequisite its edge, so a plan is valid exactly if no output is
      shared and no key is zero. */
  lemma LinkedPlanIsValid(actions: seq<LinkSpec.Action>, producers: map<Path, nat>, keys: seq<IoHash>)
    requires |keys| == |actions| && IsProducerMap(actions, producers)
    ensures PlanOf(actions, producers, keys).Valid()
       <==> OneProducer(actions) && forall a :: 0 <= a < |keys| ==> keys[a] != ZERO_HASH
  {
    hide LinkSpec.LinkedGraph, IsProducerMap, Graph.Valid;
    var plan := PlanOf(actions, producers, keys);
    ProducersBound(actions, producers);
    LinkSpec.LinkedGraphValid(producers, actions);
    assert plan.OneOwner() <==> OneProducer(actions) by {
      assert forall a: nat, b: nat, p :: plan.Owns(a, p) && plan.Owns(b, p) <==> LinkSpec.Shared(actions, a, b, p);
    }
    if OneProducer(actions) {
      forall a: nat, b: nat, p | plan.Lists(a, p) && plan.Owns(b, p) && a != b
        ensures a < plan.graph.Size() && b in plan.graph.prereqs[a]
      {
        LinkedEdge(actions, producers, a, b);
      }
    }
    assert forall a :: 0 <= a < |keys| ==> plan.actions[a].key == keys[a];
  }

  // ---------------------------------------------------------------- executed events are a build

  /** What an event asks of the files, the memory and the action itself, whatever the order of actions. */
  ghost predicate Fitting(plan: Plan, w: World, e: Event) {
    e.action < |plan.actions| && e.action !in w.done && e.action < |plan.graph.prereqs|
    && match e
       case Skipped(a) => a !in w.wrote && !Staleness.Outdated(plan.actions[a], w.fs, w.mem)
       case Wrote(a, files) =>
         && a !in w.wrote
         && (forall p :: p in files ==> plan.Owns(a, p) && files[p] != ZERO_HASH)
         && (forall p :: plan.Owns(a, p) ==> p in files || p in w.fs)
       case Recorded(a, discovered) =>
         && a in w.wrote
         && (discovered.Some? ==> forall h :: h in discovered.value ==> Behind(plan, a, h))
  }

  ghost predicate HasSucceeded(s: Execution.State, a: nat) {
    a in s.results && s.results[a] == Execution.Succeeded
  }

  /** The events of the build happen along the run: event `k` at state `at[k]`, while a worker runs its
      action; an action has reported success only if its run was skipped or recorded before. */
  ghost predicate Along(run: seq<Execution.State>, build: Build, at: seq<nat>) {
    && |run| > 0 && |build.worlds| == |build.events| + 1 && |at| == |build.events|
    && (forall k :: 0 <= k < |at| ==> at[k] < |run| && build.events[k].action in run[at[k]].running)
    && (forall k, b :: 0 <= k < |at| && HasSucceeded(run[at[k]], b) ==> b in build.worlds[k].done)
    && (forall b :: HasSucceeded(run[|run| - 1], b) ==> b in build.worlds[|build.events|].done)
  }

  /** A running action has all its prerequisites' successes behind it. */
  lemma RunningIsSupplied(plan: Plan, oracle: nat -> Execution.Outcome, s: Execution.State, w: World, a: nat)
    requires plan.graph.Valid() && Execution.Inv(plan.graph, oracle, s) && a in s.running
    requires forall b :: HasSucceeded(s, b) ==> b in w.done
    ensures Supplied(plan, w, a)
  {
    forall q | q in plan.graph.prereqs[a] ensures q in w.done {
      assert plan.graph.PathBetween([a, q], a, q);
      Schedules.AncestorsSucceeded(plan.graph, oracle, s, a, q);
      assert HasSucceeded(s, q);
    }
  }

  /** The build is what the actions of an executor run do, event by event. */
  ghost predicate Executes(plan: Plan, order: seq<nat>, workers: nat, oracle: nat -> Execution.Outcome,
                           run: seq<Execution.State>, build: Build, at: seq<nat>) {
    && plan.graph.Valid() && Schedules.IsRun(plan.graph, order, workers, oracle, run)
    && Along(run, build, at) && IsStart(build.worlds[0])
    && forall k :: 0 <= k < |build.events| ==>
         Fitting(plan, build.worlds[k], build.events[k])
         && build.worlds[k + 1] == After(plan, build.worlds[k], build.events[k])
  }

  /** The executor supplies the order: events that fit, carried out along any of its runs, form a build. */
  lemma ExecutedIsBuild(plan: Plan, order: seq<nat>, workers: nat, oracle: nat -> Execution.Outcome,
                        run: seq<Execution.State>, build: Build, at: seq<nat>)
    requires Executes(plan, order, workers, oracle, run, build, at)
    ensures build.Valid(plan)
  {
    hide Execution.Inv, After, Graph.Valid, Schedules.IsRun, Staleness.Outdated;
    forall k | 0 <= k < |build.events|
      ensures IsStep(plan, build.worlds[k], build.events[k], build.worlds[k + 1])
    {
      Schedules.RunInv(plan.graph, order, workers, oracle, run, at[k]);
      RunningIsSupplied(plan, oracle, run[at[k]], build.worlds[k], build.events[k].action);
    }
  }

  /** The null build of linked, executed actions: whatever the schedule, an action whose success the
      executor has recorded is not out of date, if its recording refreshed what it lists, discovered headers
      exist, and the memory was tidy when the build began. */
  lemma ExecutedNullBuild(
    actions: seq<LinkSpec.Action>, producers: map<Path, nat>, keys: seq<IoHash>, plan: Plan,
    order: seq<nat>, workers: nat, oracle: nat -> Execution.Outcome, run: seq<Execution.State>,
    build: Build, at: seq<nat>, a: nat)
    requires IsProducerMap(actions, producers) && OneProducer(actions)
    requires |keys| == |actions| && forall i :: 0 <= i < |keys| ==> keys[i] != ZERO_HASH
    requires plan == PlanOf(actions, producers, keys) && Executes(plan, order, workers, oracle, run, build, at)
    requires NullBuilds.Tidy(plan, build.worlds[0].mem) && NullBuilds.DiscoveredExist(build)
    requires NullBuilds.RecordingsRefresh(plan, build, a)
    requires HasSucceeded(run[|run| - 1], a)
    ensures a < |actions|
    ensures var last := build.worlds[|build.events|];
            !Staleness.Outdated(plan.actions[a], last.fs, last.mem)
  {
    hide Plan.Valid, Staleness.Outdated, IsProducerMap, LinkSpec.LinkedGraph, NullBuilds.Tidy;
    hide Schedules.IsRun, Fitting, After, NullBuilds.RecordingsRefresh;
    LinkedPlanIsValid(actions, producers, keys);
    ExecutedIsBuild(plan, order, workers, oracle, run, build, at);
    NullBuilds.NullBuild(plan, build, a);
  }

  lemma NoFailureNoSkip(g: Graph, oracle: nat -> Execution.Outcome, s: Execution.State, a: nat)
    requires g.Valid() && Execution.Inv(g, oracle, s) && a in s.results
    requires forall b: nat :: oracle(b) == Execution.Success
    ensures HasSucceeded(s, a)
  {
    hide Graph.Valid, Execution.Inv;
    var r := s.results[a];
    assert oracle(a) == Execution.Success && (r.Skipped? ==> oracle(r.because) == Execution.Success);
    Schedules.ResultsDeserved(g, oracle, s, a);
  }

  lemma EverythingSucceeds(g: Graph, order: seq<nat>, workers: nat, oracle: nat -> Execution.Outcome,
                           run: seq<Execution.State>, s: Execution.State, a: nat)
    requires g.Valid() && g.Acyclic() && workers > 0 && Schedules.IsRun(g, order, workers, oracle, run)
    requires s == run[|run| - 1] && Schedules.Stuck(g, workers, oracle, s) && a < g.Size()
    requires forall b: nat :: oracle(b) == Execution.Success
    ensures HasSucceeded(s, a)
  {
    Schedules.RunInv(g, order, workers, oracle, run, |run| - 1);
    assert a in s.results by {
      hide *;
      Schedules.EveryRunCompletes(g, order, workers, oracle, run);
      assert a in s.results.Keys;
    }
    hide *;
    NoFailureNoSkip(g, oracle, s, a);
  }

  /** When the run of an acyclic graph can go no further and no action has failed, nothing is out of date. */
  lemma SuccessfulRunLeavesNothing(
    actions: seq<LinkSpec.Action>, producers: map<Path, nat>, keys: seq<IoHash>, plan: Plan,
    order: seq<nat>, workers: nat, oracle: nat -> Execution.Outcome, run: seq<Execution.State>,
    build: Build, at: seq<nat>)
    requires IsProducerMap(actions, producers) && OneProducer(actions)
    requires |keys| == |actions| && forall i :: 0 <= i < |keys| ==> keys[i] != ZERO_HASH
    requires plan == PlanOf(actions, producers, keys) && Executes(plan, order, workers, oracle, run, build, at)
    requires NullBuilds.Tidy(plan, build.worlds[0].mem) && NullBuilds.DiscoveredExist(build)
    requires forall a: nat :: a < |actions| ==> NullBuilds.RecordingsRefresh(plan, build, a)
    requires plan.graph.Acyclic() && workers > 0 && forall a: nat :: oracle(a) == Execution.Success
    requires Schedules.Stuck(plan.graph, workers, oracle, run[|run| - 1])
    ensures var last := build.worlds[|build.events|];
            forall a :: 0 <= a < |actions| ==> !Staleness.Outdated(plan.actions[a], last.fs, last.mem)
  {
    hide Plan.Valid, Staleness.Outdated, IsProducerMap, LinkSpec.LinkedGraph, NullBuilds.Tidy;
    hide Schedules.Stuck, Schedules.IsRun, NullBuilds.RecordingsRefresh, Graph.Acyclic, Graph.Valid, Fitting, After;
    forall a: nat | a < |actions|
      ensures var last := build.worlds[|build.events|]; !Staleness.Outdated(plan.actions[a], last.fs, last.mem)
    {
      EverythingSucceeds(plan.graph, order, workers, oracle, run, run[|run| - 1], a);
      ExecutedNullBuild(actions, producers, keys, plan, order, workers, oracle, run, build, at, a);
    }
  }

  /** A sorted order is a listing of the actions and shows that there is no cycle. */
  lemma SortedIsListing(g: Graph, versions: seq<IoHash>, order: seq<nat>)
    requires |versions| == g.Size() && Canonical(g, versions, order)
    ensures Schedules.IsListing(g, order) && g.Acyclic()
  {
    CanonicalIsTopological(g, versions, order);
    TopologicalIsAcyclic(g, order);
  }

  /** From the list of actions to the null build: the actions link without a conflict, none lists an output
      of its own, sorting succeeds, the executor starts from the sorted order, and no action fails. Then
      the run ends with nothing out of date. */
  lemma SortedBuildLeavesNothing(
    actions: seq<LinkSpec.Action>, producers: map<Path, nat>, versions: seq<IoHash>, keys: seq<IoHash>, plan: Plan,
    order: seq<nat>, workers: nat, oracle: nat -> Execution.Outcome, run: seq<Execution.State>,
    build: Build, at: seq<nat>)
    requires IsProducerMap(actions, producers) && IsVersions(actions, versions)
    requires LinkSpec.NoConflict(map[], actions, |actions|) && NoOwnPrerequisites(actions)
    requires |keys| == |actions| && forall i :: 0 <= i < |keys| ==> keys[i] != ZERO_HASH
    requires plan == PlanOf(actions, producers, keys) && Canonical(plan.graph, versions, order)
    requires Executes(plan, order, workers, oracle, run, build, at)
    requires NullBuilds.Tidy(plan, build.worlds[0].mem) && NullBuilds.DiscoveredExist(build)
    requires forall a: nat :: a < |actions| ==> NullBuilds.RecordingsRefresh(plan, build, a)
    requires workers > 0 && forall a: nat :: oracle(a) == Execution.Success
    requires Schedules.Stuck(plan.graph, workers, oracle, run[|run| - 1])
    ensures var last := build.worlds[|build.events|];
            forall a :: 0 <= a < |actions| ==> !Staleness.Outdated(plan.actions[a], last.fs, last.mem)
  {
    SortedShareNothing(actions, producers, versions, order);
    SortedIsListing(plan.graph, versions, order);
    hide *;
    SuccessfulRunLeavesNothing(actions, producers, keys, plan, order, workers, oracle, run, build, at);
  }
}
