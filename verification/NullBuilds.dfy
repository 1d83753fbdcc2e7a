/**
 What is out of date after a build: exactly the actions that list a file whose memory was stale when
 the build began and was never refreshed. Null builds, consecutive builds and change detection follow.
 */
module NullBuilds {
  import opened Wrappers
  import opened Bytes
  import opened Staleness
  import opened Builds

  // ---------------------------------------------------------------- exactly what is out of date

  /** No event of the build takes the hash of this file. */
  ghost predicate KeptHash(plan: Plan, build: Build, p: Path) {
    forall j: nat :: j < |build.events| ==> !build.HashedAt(plan, j, p)
  }

  /** The hash from before the build is still there, and is not that of the file. */
  ghost predicate StaleHash(plan: Plan, build: Build, p: Path)
    requires build.Valid(plan)
  {
    KeptHash(plan, build, p) && PrerequisiteChanged(p, build.Last().fs, build.First().mem)
  }

  /** A header of the source's list has kept its hash from before the build, a wrong or missing one. */
  ghost predicate StaleList(plan: Plan, build: Build, p: Path)
    requires build.Valid(plan)
  {
    && p in build.Last().mem.headers
    && exists h :: h in build.Last().mem.headers[p] && KeptHash(plan, build, h)
                   && HeaderChanged(h, build.Last().fs, build.First().mem)
  }

  lemma HashAfterBuild(plan: Plan, build: Build, p: Path)
    requires plan.Valid() && build.Valid(plan)
    ensures KeptHash(plan, build, p) ==> SameEntry(build.First().mem.contents, build.Last().mem.contents, p)
    ensures !KeptHash(plan, build, p) ==> Accurate(plan, build.Last(), p)
  {
    if KeptHash(plan, build, p) {
      UnhashedIsKept(plan, build, |build.events|, p);
    } else {
      var j: nat :| j < |build.events| && build.HashedAt(plan, j, p);
      HashedStaysAccurate(plan, build, j, |build.events|, p);
    }
  }

  lemma ListAfterBuild(plan: Plan, build: Build, p: Path)
    requires plan.Valid() && build.Valid(plan)
    ensures SomeHeaderChanged(p, build.Last().fs, build.Last().mem) <==> StaleList(plan, build, p)
  {
    hide Plan.Valid, IsStep, IsStart, KeptHash;
    var first, last := build.First(), build.Last();
    forall h
      ensures HeaderChanged(h, last.fs, last.mem) <==> KeptHash(plan, build, h) && HeaderChanged(h, last.fs, first.mem)
    {
      HashAfterBuild(plan, build, h);
    }
  }

  /** An action that has succeeded in a build, whatever the memory it started from, is out of date at
      its end exactly if it lists a file that is stale: its hash is one from before the build and wrong, or
      such a hash of a header in its list is wrong or missing. */
  lemma OutdatedAfterBuild(plan: Plan, build: Build, a: nat)
    requires plan.Valid() && build.Valid(plan) && a in build.Last().done
    ensures a < |plan.actions|
    ensures Outdated(plan.actions[a], build.Last().fs, build.Last().mem)
       <==> exists p :: plan.Lists(a, p) && (StaleHash(plan, build, p) || StaleList(plan, build, p))
  {
    hide IsStep, IsStart, StaleList, SomeHeaderChanged, KeptHash;
    var last := build.Last();
    BuildInv(plan, build, |build.events|);
    var action := plan.actions[a];
    forall p | p in action.produces ensures p in last.fs && !WrongKey(p, action.key, last.mem) {
      assert plan.Owns(a, p);
    }
    forall p
      ensures PrerequisiteChanged(p, last.fs, last.mem) <==> StaleHash(plan, build, p)
      ensures SomeHeaderChanged(p, last.fs, last.mem) <==> StaleList(plan, build, p)
    {
      HashAfterBuild(plan, build, p);
      ListAfterBuild(plan, build, p);
    }
    assert forall p :: p in action.prerequisites <==> plan.Lists(a, p);
  }

  /** Every discovered header exists when its dependency file is recorded. */
  ghost predicate DiscoveredExist(build: Build) {
    forall k :: 0 <= k < |build.events| < |build.worlds| ==> DiscoveryExists(build.worlds[k], build.events[k])
  }

  ghost predicate DiscoveryExists(w: World, e: Event) {
    e.Recorded? && e.discovered.Some? ==> forall h :: h in e.discovered.value ==> h in w.fs
  }

  lemma DiscoveredIsHashed(plan: Plan, build: Build, j: nat, h: Path)
    requires build.Valid(plan) && DiscoveredExist(build) && j < |build.events| && build.events[j].Recorded?
    requires build.events[j].discovered.Some? && h in build.events[j].discovered.value
    ensures build.HashedAt(plan, j, h)
  {
    assert DiscoveryExists(build.worlds[j], build.events[j]);
  }

  /** Then a header without a hash of this build is in a list from before the build. */
  lemma KeptHashKeepsList(plan: Plan, build: Build, p: Path, h: Path)
    requires plan.Valid() && build.Valid(plan) && DiscoveredExist(build) && KeptHash(plan, build, h)
    requires p in build.Last().mem.headers && h in build.Last().mem.headers[p]
    ensures forall j: nat :: j < |build.events| ==> !build.RelistedAt(plan, j, p)
    ensures SameEntry(build.First().mem.headers, build.Last().mem.headers, p)
  {
    hide Plan.Valid, IsStep, IsStart;
    ListAtEvent(plan, build, |build.events|, p);
    if exists j: nat :: j < |build.events| && build.RelistedAt(plan, j, p) {
      var j: nat :| j < |build.events| && ListedBy(plan, build, j, p, build.Last().mem.headers[p]);
      DiscoveredIsHashed(plan, build, j, h);
      assert false;
    }
  }

  /** A build that starts without hashes and header lists leaves nothing out of date. */
  lemma FreshBuild(plan: Plan, build: Build, a: nat)
    requires plan.Valid() && build.Valid(plan) && a in build.Last().done && DiscoveredExist(build)
    requires build.First().mem.contents == map[] && build.First().mem.headers == map[]
    ensures a < |plan.actions| && !Outdated(plan.actions[a], build.Last().fs, build.Last().mem)
  {
    hide Outdated, Plan.Valid, IsStep, IsStart, KeptHash;
    OutdatedAfterBuild(plan, build, a);
    forall p ensures !StaleList(plan, build, p) {
      if StaleList(plan, build, p) {
        var h :| h in build.Last().mem.headers[p] && KeptHash(plan, build, h);
        KeptHashKeepsList(plan, build, p, h);
      }
    }
  }

  // ---------------------------------------------------------------- null builds

  /** After the recording of `a`, the header list of this source holds no changed header. */
  ghost predicate ListRefreshed(plan: Plan, w: World, a: nat, discovered: Option<seq<Path>>, p: Path) {
    if Relisted(plan, a, discovered, p) then AllRefreshed(plan, w, a, discovered, discovered.value)
    else p in w.mem.headers ==> AllRefreshed(plan, w, a, discovered, w.mem.headers[p])
  }

  ghost predicate AllRefreshed(plan: Plan, w: World, a: nat, discovered: Option<seq<Path>>, headers: seq<Path>) {
    forall h :: h in headers ==> Hashed(plan, w, a, discovered, h) || !HeaderChanged(h, w.fs, w.mem)
  }

  /** The recording of `a` deals with everything it lists: a wrong hash is taken again, and so is that of
      each changed header in a list, the discovered one where it replaces the old. */
  ghost predicate Refreshes(plan: Plan, w: World, a: nat, discovered: Option<seq<Path>>) {
    forall p :: plan.Lists(a, p) ==>
      && (Hashed(plan, w, a, discovered, p) || !PrerequisiteChanged(p, w.fs, w.mem))
      && ListRefreshed(plan, w, a, discovered, p)
  }

  /** That is exactly what it takes for the action to be up to date when it has just succeeded. */
  lemma RefreshesExactly(plan: Plan, first: World, w: World, a: nat, discovered: Option<seq<Path>>)
    requires plan.Valid() && Inv(plan, first, w) && a < |plan.actions| && Possible(plan, w, Recorded(a, discovered))
    ensures Outdated(plan.actions[a], w.fs, After(plan, w, Recorded(a, discovered)).mem)
       <==> !Refreshes(plan, w, a, discovered)
  {
    hide Staleness.RecordedMemory, SomeHeaderChanged, ListRefreshed;
    var mem := After(plan, w, Recorded(a, discovered)).mem;
    var action := plan.actions[a];
    forall p | p in action.produces ensures p in w.fs && !WrongKey(p, action.key, mem) {
      assert plan.Owns(a, p);
      RecordedEntry(plan, w, a, discovered, p);
    }
    forall p
      ensures PrerequisiteChanged(p, w.fs, mem)
              <==> !Hashed(plan, w, a, discovered, p) && PrerequisiteChanged(p, w.fs, w.mem)
      ensures SomeHeaderChanged(p, w.fs, mem) <==> !ListRefreshed(plan, w, a, discovered, p)
    {
      RecordedEntry(plan, w, a, discovered, p);
      RefreshedListExactly(plan, w, a, discovered, p);
    }
    assert forall p :: p in action.prerequisites <==> plan.Lists(a, p);
  }

  lemma RefreshedListExactly(plan: Plan, w: World, a: nat, discovered: Option<seq<Path>>, p: Path)
    requires NonZero(w.fs) && a < |plan.actions| && Possible(plan, w, Recorded(a, discovered))
    ensures SomeHeaderChanged(p, w.fs, After(plan, w, Recorded(a, discovered)).mem)
       <==> !ListRefreshed(plan, w, a, discovered, p)
  {
    hide Staleness.RecordedMemory;
    var mem := After(plan, w, Recorded(a, discovered)).mem;
    RecordedEntry(plan, w, a, discovered, p);
    forall h
      ensures HeaderChanged(h, w.fs, mem) <==> !Hashed(plan, w, a, discovered, h) && HeaderChanged(h, w.fs, w.mem)
    {
      RecordedEntry(plan, w, a, discovered, h);
    }
  }

  /** Every recorded header is raw, or made by an ancestor of each action that lists the source. */
  ghost predicate Tidy(plan: Plan, mem: Memory) {
    forall a: nat, s :: plan.Lists(a, s) && s in mem.headers ==> ListBehind(plan, a, mem.headers[s])
  }

  ghost predicate ListBehind(plan: Plan, a: nat, headers: seq<Path>) {
    forall h :: h in headers ==> Behind(plan, a, h)
  }

  lemma ListedIsBehind(plan: Plan, a: nat, p: Path)
    requires plan.Valid() && plan.Lists(a, p)
    ensures Behind(plan, a, p)
  {
    if !plan.IsRaw(p) {
      var b: nat :| plan.Owns(b, p);
      if b != a {
        assert plan.graph.PathBetween([a, b], a, b);
      }
    }
  }

  /** The event by which an action came to be done. */
  lemma {:induction false} DoneBy(plan: Plan, build: Build, n: nat, a: nat) returns (k: nat)
    requires build.Valid(plan) && n < |build.worlds| && a in build.worlds[n].done
    ensures k < n && build.events[k].action == a && !build.events[k].Wrote?
    decreases n
  {
    hide Possible, Staleness.RecordedMemory;
    assert n > 0;
    assert IsStep(plan, build.worlds[n - 1], build.events[n - 1], build.worlds[n]);
    if a in build.worlds[n - 1].done {
      k := DoneBy(plan, build, n - 1, a);
    } else {
      k := n - 1;
    }
  }

  /** A hash that is right when an action succeeds stays right if the file is behind the action. */
  lemma RightWhenDone(plan: Plan, build: Build, k: nat, p: Path)
    requires plan.Valid() && build.Valid(plan) && k < |build.events| && !build.events[k].Wrote?
    requires Behind(plan, build.events[k].action, p) && !build.HashedAt(plan, k, p)
    requires var w := build.worlds[k]; p in w.fs && Stored(w.mem.contents, p) == w.fs[p]
    ensures Accurate(plan, build.Last(), p)
  {
    hide Staleness.RecordedMemory, Outdated, Plan.Valid, Behind;
    var w, e, w' := build.worlds[k], build.events[k], build.worlds[k + 1];
    assert IsStep(plan, w, e, w');
    BuildInv(plan, build, k);
    BehindIsSettled(plan, w, e.action, p);
    if e.Recorded? {
      RecordedEntry(plan, w, e.action, e.discovered, p);
    }
    assert Accurate(plan, w', p);
    StaysAccurate(plan, build, k + 1, |build.events|, p);
  }

  /** Null build: an action that has succeeded is not out of date, now or at any later time of the build,
      whatever the order the actions run in, if its recording refreshed what it lists, discovered headers
      exist, and the memory was tidy when the build began. */
  lemma NullBuild(plan: Plan, build: Build, a: nat)
    requires plan.Valid() && build.Valid(plan) && Tidy(plan, build.First().mem) && a in build.Last().done
    requires RecordingsRefresh(plan, build, a) && DiscoveredExist(build)
    ensures a < |plan.actions| && !Outdated(plan.actions[a], build.Last().fs, build.Last().mem)
  {
    hide Outdated, StaleHash, StaleList;
    OutdatedAfterBuild(plan, build, a);
    forall p | plan.Lists(a, p) ensures !StaleHash(plan, build, p) && !StaleList(plan, build, p) {
      NoStaleHash(plan, build, a, p);
      NoStaleList(plan, build, a, p);
    }
  }

  /** Each recording of `a` in the build, of which there is at most one, refreshes what `a` lists. */
  ghost predicate RecordingsRefresh(plan: Plan, build: Build, a: nat) {
    forall k :: 0 <= k < |build.events| < |build.worlds| && build.events[k].Recorded? && build.events[k].action == a
      ==> Refreshes(plan, build.worlds[k], a, build.events[k].discovered)
  }

  lemma NoStaleHash(plan: Plan, build: Build, a: nat, p: Path)
    requires plan.Valid() && build.Valid(plan) && a in build.Last().done
    requires RecordingsRefresh(plan, build, a) && plan.Lists(a, p)
    ensures !StaleHash(plan, build, p)
  {
    hide Plan.Valid, Staleness.RecordedMemory, ListRefreshed, SomeHeaderChanged;
    if StaleHash(plan, build, p) {
      var k := DoneBy(plan, build, |build.events|, a);
      var w, e := build.worlds[k], build.events[k];
      assert IsStep(plan, w, e, build.worlds[k + 1]);
      UnhashedIsKept(plan, build, k, p);
      HashAfterBuild(plan, build, p);
      assert !build.HashedAt(plan, k, p);
      assert !PrerequisiteChanged(p, w.fs, w.mem);
      ListedIsBehind(plan, a, p);
      RightWhenDone(plan, build, k, p);
      assert false;
    }
  }

  lemma NoStaleList(plan: Plan, build: Build, a: nat, p: Path)
    requires plan.Valid() && build.Valid(plan) && Tidy(plan, build.First().mem) && a in build.Last().done
    requires RecordingsRefresh(plan, build, a) && DiscoveredExist(build) && plan.Lists(a, p)
    ensures !StaleList(plan, build, p)
  {
    hide Plan.Valid, Staleness.RecordedMemory, Behind;
    if StaleList(plan, build, p) {
      var h :| h in build.Last().mem.headers[p] && KeptHash(plan, build, h)
               && HeaderChanged(h, build.Last().fs, build.First().mem);
      KeptHashKeepsList(plan, build, p, h);
      var k := DoneBy(plan, build, |build.events|, a);
      var w, e := build.worlds[k], build.events[k];
      assert IsStep(plan, w, e, build.worlds[k + 1]);
      UnhashedIsKept(plan, build, k, h);
      ListAtEvent(plan, build, k, p);
      HashAfterBuild(plan, build, h);
      assert !build.HashedAt(plan, k, h) && !build.RelistedAt(plan, k, p);
      if e.Skipped? {
        assert !SomeHeaderChanged(p, w.fs, w.mem);
      } else {
        assert ListRefreshed(plan, w, a, e.discovered, p);
      }
      assert !HeaderChanged(h, w.fs, w.mem);
      assert ListBehind(plan, a, build.First().mem.headers[p]);
      RightWhenDone(plan, build, k, h);
      assert false;
    }
  }

  /** When the recording of an action is sure to refresh, told from the memory the build began with: each
      file it lists that had a hash is a raw file that exists or a discovered one, and each that had a
      header list is a source whose list it replaces. */
  lemma SteadyActionRefreshes(plan: Plan, build: Build, k: nat)
    requires plan.Valid() && build.Valid(plan) && DiscoveredExist(build)
    requires k < |build.events| && build.events[k].Recorded?
    requires forall p :: plan.Lists(build.events[k].action, p) ==> SteadyEntry(plan, build.First(), build.events[k], p)
    ensures Refreshes(plan, build.worlds[k], build.events[k].action, build.events[k].discovered)
  {
    hide Plan.Valid, Staleness.RecordedMemory;
    var w, a, discovered := build.worlds[k], build.events[k].action, build.events[k].discovered;
    forall p | plan.Lists(a, p)
      ensures Hashed(plan, w, a, discovered, p) || !PrerequisiteChanged(p, w.fs, w.mem)
      ensures ListRefreshed(plan, w, a, discovered, p)
    {
      assert SteadyEntry(plan, build.First(), build.events[k], p);
      SteadyHash(plan, build, k, p);
      SteadyList(plan, build, k, p);
    }
  }

  ghost predicate SteadyEntry(plan: Plan, first: World, e: Event, p: Path)
    requires e.Recorded?
  {
    && (Stored(first.mem.contents, p) != ZERO_HASH ==>
          (plan.IsRaw(p) && p in first.fs) || (e.discovered.Some? && p in e.discovered.value))
    && (p in first.mem.headers ==> plan.IsRaw(p) && e.discovered.Some?)
  }

  lemma SteadyHash(plan: Plan, build: Build, k: nat, p: Path)
    requires plan.Valid() && build.Valid(plan) && DiscoveredExist(build)
    requires k < |build.events| && build.events[k].Recorded?
    requires plan.Lists(build.events[k].action, p) && SteadyEntry(plan, build.First(), build.events[k], p)
    ensures var w, e := build.worlds[k], build.events[k];
            Hashed(plan, w, e.action, e.discovered, p) || !PrerequisiteChanged(p, w.fs, w.mem)
  {
    hide Plan.Valid, Staleness.RecordedMemory;
    assert IsStep(plan, build.worlds[k], build.events[k], build.worlds[k + 1]);
    BuildInv(plan, build, k);
    if j: nat :| j < k && build.HashedAt(plan, j, p) {
      HashedStaysAccurate(plan, build, j, k, p);
    } else {
      UnhashedIsKept(plan, build, k, p);
    }
  }

  lemma SteadyList(plan: Plan, build: Build, k: nat, p: Path)
    requires plan.Valid() && build.Valid(plan) && DiscoveredExist(build)
    requires k < |build.events| && build.events[k].Recorded?
    requires plan.Lists(build.events[k].action, p) && SteadyEntry(plan, build.First(), build.events[k], p)
    ensures ListRefreshed(plan, build.worlds[k], build.events[k].action, build.events[k].discovered, p)
  {
    hide Plan.Valid, Staleness.RecordedMemory;
    var w, e := build.worlds[k], build.events[k];
    ListAtEvent(plan, build, k, p);
    if Relisted(plan, e.action, e.discovered, p) {
    } else if exists j: nat :: j < k && build.RelistedAt(plan, j, p) {
      var j: nat :| j < k && ListedBy(plan, build, j, p, w.mem.headers[p]);
      forall h | h in w.mem.headers[p] ensures !HeaderChanged(h, w.fs, w.mem) {
        DiscoveredIsHashed(plan, build, j, h);
        HashedStaysAccurate(plan, build, j, k, h);
      }
    }
  }

  // ---------------------------------------------------------------- consecutive builds

  /** The headers discovered by `a` are behind every action that lists one of its sources. */
  ghost predicate SharesHeaders(plan: Plan, a: nat, discovered: Option<seq<Path>>) {
    forall b: nat, s :: Relisted(plan, a, discovered, s) && plan.Lists(b, s) ==> ListBehind(plan, b, discovered.value)
  }

  /** A recording keeps the memory tidy exactly under that condition. */
  lemma TidyAfterRecord(plan: Plan, w: World, a: nat, discovered: Option<seq<Path>>)
    requires a < |plan.actions| && Tidy(plan, w.mem)
    ensures Tidy(plan, After(plan, w, Recorded(a, discovered)).mem) <==> SharesHeaders(plan, a, discovered)
  {
    hide Staleness.RecordedMemory, Behind;
    var mem := After(plan, w, Recorded(a, discovered)).mem;
    forall b: nat, s | plan.Lists(b, s)
      ensures (s in mem.headers ==> ListBehind(plan, b, mem.headers[s]))
              <==> (Relisted(plan, a, discovered, s) ==> ListBehind(plan, b, discovered.value))
    {
      RecordedEntry(plan, w, a, discovered, s);
    }
  }

  ghost predicate AllShare(plan: Plan, build: Build) {
    forall k :: 0 <= k < |build.events| && build.events[k].Recorded? ==>
      SharesHeaders(plan, build.events[k].action, build.events[k].discovered)
  }

  lemma {:induction false} TidyAfterBuild(plan: Plan, build: Build, k: nat)
    requires build.Valid(plan) && Tidy(plan, build.First().mem) && AllShare(plan, build) && k < |build.worlds|
    ensures Tidy(plan, build.worlds[k].mem)
    decreases k
  {
    hide Staleness.RecordedMemory, Tidy, SharesHeaders, Possible;
    if k > 0 {
      TidyAfterBuild(plan, build, k - 1);
      var w, e := build.worlds[k - 1], build.events[k - 1];
      assert IsStep(plan, w, e, build.worlds[k]);
      if e.Recorded? {
        TidyAfterRecord(plan, w, e.action, e.discovered);
      }
    }
  }

  /** The same files made from the same files; the commands may differ. */
  ghost predicate SameShape(plan: Plan, plan': Plan) {
    && plan.graph == plan'.graph && |plan.actions| == |plan'.actions|
    && forall a :: 0 <= a < |plan.actions| ==>
         && plan.actions[a].produces == plan'.actions[a].produces
         && plan.actions[a].prerequisites == plan'.actions[a].prerequisites
  }

  lemma TidyForBoth(plan: Plan, plan': Plan, mem: Memory)
    requires SameShape(plan, plan') && Tidy(plan, mem)
    ensures Tidy(plan', mem)
  {
    assert forall b: nat, p :: plan.Owns(b, p) <==> plan'.Owns(b, p);
    assert forall p :: plan.IsRaw(p) ==> plan'.IsRaw(p);
    forall a: nat, s | plan'.Lists(a, s) && s in mem.headers
      ensures ListBehind(plan', a, mem.headers[s])
    {
      assert ListBehind(plan, a, mem.headers[s]);
    }
  }

  /** Builds one after the other, each over the memory the one before has left, with any edits of the
      files and of the commands in between. */
  ghost predicate IsHistory(plans: seq<Plan>, builds: seq<Build>) {
    && |plans| == |builds| > 0
    && (forall i :: 0 <= i < |builds| ==>
          plans[i].Valid() && builds[i].Valid(plans[i]))
    && (forall i :: 0 < i < |builds| ==>
          SameShape(plans[i - 1], plans[i]) && builds[i].First().mem == builds[i - 1].Last().mem)
  }

  /** All discovered headers are behind all that list the source, in every build. */
  ghost predicate SharesThroughout(plans: seq<Plan>, builds: seq<Build>)
    requires |plans| == |builds|
  {
    forall i :: 0 <= i < |builds| ==> AllShare(plans[i], builds[i])
  }

  lemma {:induction false} TidyThroughout(plans: seq<Plan>, builds: seq<Build>, i: nat)
    requires IsHistory(plans, builds) && SharesThroughout(plans, builds)
    requires Tidy(plans[0], builds[0].First().mem) && i < |builds|
    ensures Tidy(plans[i], builds[i].First().mem)
    decreases i
  {
    hide Tidy, AllShare, SameShape, Plan.Valid;
    if i > 0 {
      TidyThroughout(plans, builds, i - 1);
      TidyAfterBuild(plans[i - 1], builds[i - 1], |builds[i - 1].events|);
      TidyForBoth(plans[i - 1], plans[i], builds[i].First().mem);
    }
  }

  /** The null build holds after every build of a history that began with a tidy memory. */
  lemma EveryBuildIsNull(plans: seq<Plan>, builds: seq<Build>, i: nat, a: nat)
    requires IsHistory(plans, builds) && SharesThroughout(plans, builds)
    requires Tidy(plans[0], builds[0].First().mem) && i < |builds|
    requires a in builds[i].Last().done && RecordingsRefresh(plans[i], builds[i], a) && DiscoveredExist(builds[i])
    ensures a < |plans[i].actions| && !Outdated(plans[i].actions[a], builds[i].Last().fs, builds[i].Last().mem)
  {
    hide Tidy, Outdated, RecordingsRefresh;
    TidyThroughout(plans, builds, i);
    NullBuild(plans[i], builds[i], a);
  }

  // ---------------------------------------------------------------- change detection

  /** The staleness test of `a` compares this file with a recorded hash. */
  ghost predicate Tracked(a: Action, mem: Memory, p: Path) {
    || (p in a.prerequisites && Stored(mem.contents, p) != ZERO_HASH)
    || exists s :: s in a.prerequisites && s in mem.headers && p in mem.headers[s]
  }

  /** An action that is up to date on one file system is out of date on another exactly if one of its
      outputs is missing there or one of the files it tracks is missing or different. */
  lemma OutdatedExactly(a: Action, mem: Memory, fs: Files, fs': Files)
    requires !Outdated(a, fs, mem)
    ensures forall p :: Tracked(a, mem, p) ==> p in fs
    ensures Outdated(a, fs', mem)
       <==> || (exists p :: p in a.produces && p !in fs')
            || (exists p :: Tracked(a, mem, p) && (p !in fs' || fs'[p] != fs[p]))
  {
    forall p | Tracked(a, mem, p)
      ensures p in fs && Stored(mem.contents, p) == fs[p] && fs[p] != ZERO_HASH
    {
      TrackedIsRight(a, mem, fs, p);
    }
    if p :| Tracked(a, mem, p) && (p !in fs' || fs'[p] != fs[p]) {
      TrackedChange(a, mem, p, fs');
    }
    if p :| p in a.prerequisites && PrerequisiteChanged(p, fs', mem) {
      assert Tracked(a, mem, p);
    }
    if s :| s in a.prerequisites && SomeHeaderChanged(s, fs', mem) {
      var h :| h in mem.headers[s] && HeaderChanged(h, fs', mem);
      assert Tracked(a, mem, h);
    }
  }

  lemma TrackedIsRight(a: Action, mem: Memory, fs: Files, p: Path)
    requires !Outdated(a, fs, mem) && Tracked(a, mem, p)
    ensures p in fs && Stored(mem.contents, p) == fs[p] && fs[p] != ZERO_HASH
  {
    if p in a.prerequisites && Stored(mem.contents, p) != ZERO_HASH {
      assert !PrerequisiteChanged(p, fs, mem);
    } else {
      var s :| s in a.prerequisites && s in mem.headers && p in mem.headers[s];
      assert !SomeHeaderChanged(s, fs, mem);
    }
  }

  lemma TrackedChange(a: Action, mem: Memory, p: Path, fs: Files)
    requires Tracked(a, mem, p) && (p !in fs || fs[p] != Stored(mem.contents, p))
    ensures Outdated(a, fs, mem)
  {
    if p in a.prerequisites && Stored(mem.contents, p) != ZERO_HASH {
      assert PrerequisiteChanged(p, fs, mem);
    } else {
      var s :| s in a.prerequisites && s in mem.headers && p in mem.headers[s];
      assert HeaderChanged(p, fs, mem);
      assert SomeHeaderChanged(s, fs, mem);
    }
  }

  /** Change detection: once an action has run in a build, editing or deleting a raw prerequisite of it
      makes every action that lists the file out of date, whatever else changes and whatever memory the
      build began with. */
  lemma EditedSourceIsSeen(plan: Plan, build: Build, k: nat, x: Path, b: nat, fs: Files)
    requires plan.Valid() && build.Valid(plan) && k < |build.events| && build.events[k].Recorded?
    requires plan.Lists(build.events[k].action, x) && plan.IsRaw(x) && x in build.First().fs
    requires plan.Lists(b, x) && (x !in fs || fs[x] != build.First().fs[x])
    ensures Outdated(plan.actions[b], fs, build.Last().mem)
  {
    hide Outdated, Plan.Valid, IsStep, IsStart;
    RawFileIsKept(plan, build, k, x);
    RawFileIsKept(plan, build, |build.events|, x);
    assert build.HashedAt(plan, k, x);
    HashedStaysAccurate(plan, build, k, |build.events|, x);
    TrackedChange(plan.actions[b], build.Last().mem, x, fs);
  }

  /** If an output of `a` has a recorded key, then `x` has a recorded hash. */
  ghost predicate KeyMeansHash(a: Action, mem: Memory, x: Path) {
    (exists p :: p in a.produces && Stored(mem.keys, p) != ZERO_HASH) ==> Stored(mem.contents, x) != ZERO_HASH
  }

  /** A key of `a` is only ever recorded together with the hash of its source `x`, and no entry is removed. */
  lemma KeyMeansHashStep(plan: Plan, w: World, e: Event, w': World, a: nat, x: Path)
    requires plan.Valid() && IsStep(plan, w, e, w') && NonZero(w.fs)
    requires plan.Lists(a, x) && plan.IsRaw(x) && x in w.fs && KeyMeansHash(plan.actions[a], w.mem, x)
    ensures KeyMeansHash(plan.actions[a], w'.mem, x)
  {
    hide Staleness.RecordedMemory, Outdated;
    if e.Recorded? {
      RecordedEntry(plan, w, e.action, e.discovered, x);
      if e.action != a {
        forall p | p in plan.actions[a].produces ensures Stored(w'.mem.keys, p) == Stored(w.mem.keys, p) {
          assert plan.Owns(a, p);
          RecordedEntry(plan, w, e.action, e.discovered, p);
        }
      }
    }
  }

  lemma {:induction false} KeyMeansHashInBuild(plan: Plan, build: Build, k: nat, a: nat, x: Path)
    requires plan.Valid() && build.Valid(plan) && k < |build.worlds|
    requires plan.Lists(a, x) && plan.IsRaw(x) && x in build.First().fs
    requires KeyMeansHash(plan.actions[a], build.First().mem, x)
    ensures KeyMeansHash(plan.actions[a], build.worlds[k].mem, x)
    decreases k
  {
    hide KeyMeansHash, Plan.Valid, After, Possible, OrderInv, DoneInv;
    if k > 0 {
      KeyMeansHashInBuild(plan, build, k - 1, a, x);
      BuildInv(plan, build, k - 1);
      RawFileIsKept(plan, build, k - 1, x);
      KeyMeansHashStep(plan, build.worlds[k - 1], build.events[k - 1], build.worlds[k], a, x);
    }
  }

  /** `a` lists the raw file `x`, which is there when each of the first `n + 1` builds begins. */
  ghost predicate LastingSource(plans: seq<Plan>, builds: seq<Build>, n: nat, a: nat, x: Path)
    requires IsHistory(plans, builds) && n < |builds|
  {
    plans[n].Lists(a, x) && plans[n].IsRaw(x) && forall i :: 0 <= i <= n ==> x in builds[i].First().fs
  }

  lemma ShapeKeepsSource(plan: Plan, plan': Plan, a: nat, x: Path)
    requires SameShape(plan, plan') && plan'.Lists(a, x) && plan'.IsRaw(x)
    ensures plan.Lists(a, x) && plan.IsRaw(x)
    ensures forall mem :: KeyMeansHash(plan.actions[a], mem, x) <==> KeyMeansHash(plan'.actions[a], mem, x)
  {
    assert forall b: nat, p :: plan.Owns(b, p) <==> plan'.Owns(b, p);
  }

  lemma {:induction false} KeyMeansHashThroughout(plans: seq<Plan>, builds: seq<Build>, n: nat, a: nat, x: Path)
    requires IsHistory(plans, builds) && n < |builds| && LastingSource(plans, builds, n, a, x)
    requires builds[0].First().mem.keys == map[]
    ensures KeyMeansHash(plans[n].actions[a], builds[n].First().mem, x)
    decreases n
  {
    if n > 0 {
      hide KeyMeansHash, Plan.Valid, SameShape, Build.Valid;
      ShapeKeepsSource(plans[n - 1], plans[n], a, x);
      KeyMeansHashThroughout(plans, builds, n - 1, a, x);
      KeyMeansHashInBuild(plans[n - 1], builds[n - 1], |builds[n - 1].events|, a, x);
    }
  }

  /** Change detection over a history: an action with an output is done in the last of several builds,
      recorded or skipped, and one of its raw prerequisites was there from the first build on, which began
      without action keys. Then editing or deleting that file makes every action that lists it out of date. */
  lemma EditedSourceIsSeenLater(plans: seq<Plan>, builds: seq<Build>, n: nat, a: nat, x: Path, b: nat, fs: Files)
    requires IsHistory(plans, builds) && n < |builds| && LastingSource(plans, builds, n, a, x)
    requires builds[0].First().mem.keys == map[]
    requires a in builds[n].Last().done && plans[n].actions[a].produces != []
    requires plans[n].Lists(b, x) && (x !in fs || fs[x] != builds[n].First().fs[x])
    ensures Outdated(plans[n].actions[b], fs, builds[n].Last().mem)
  {
    hide Outdated, IsStep, SameShape, Plan.Valid, KeyMeansHash;
    var plan, build := plans[n], builds[n];
    var k := DoneBy(plan, build, |build.events|, a);
    if build.events[k].Recorded? {
      EditedSourceIsSeen(plan, build, k, x, b, fs);
    } else {
      KeyMeansHashThroughout(plans, builds, n, a, x);
      KeyMeansHashInBuild(plan, build, k, a, x);
      SkippedHasHash(plan, build, k, x);
      StaysAccurate(plan, build, k, |build.events|, x);
      RawFileIsKept(plan, build, |build.events|, x);
      TrackedChange(plan.actions[b], build.Last().mem, x, fs);
    }
  }

  /** The action that is skipped has its key recorded and so, under the invariant, the hash of its source. */
  lemma SkippedHasHash(plan: Plan, build: Build, k: nat, x: Path)
    requires build.Valid(plan) && k < |build.events| && build.events[k].Skipped?
    requires plan.Lists(build.events[k].action, x) && plan.IsRaw(x)
    requires plan.actions[build.events[k].action].produces != []
    requires KeyMeansHash(plan.actions[build.events[k].action], build.worlds[k].mem, x)
    ensures Accurate(plan, build.worlds[k], x)
  {
    var w, action := build.worlds[k], plan.actions[build.events[k].action];
    assert IsStep(plan, w, build.events[k], build.worlds[k + 1]);
    assert !WrongKey(action.produces[0], action.key, w.mem) && !PrerequisiteChanged(x, w.fs, w.mem);
  }

  /** Editing or deleting a recorded header makes every action out of date whose prerequisites have it in
      their recorded list, if the build took the hash of the header or left the action up to date. */
  lemma EditedHeaderIsSeen(plan: Plan, build: Build, s: Path, h: Path, b: nat, fs: Files)
    requires plan.Valid() && build.Valid(plan) && plan.Lists(b, s)
    requires s in build.Last().mem.headers && h in build.Last().mem.headers[s]
    requires !KeptHash(plan, build, h) || !Outdated(plan.actions[b], build.Last().fs, build.Last().mem)
    requires h in fs ==> h !in build.Last().fs || fs[h] != build.Last().fs[h]
    ensures Outdated(plan.actions[b], fs, build.Last().mem)
  {
    hide Outdated, KeptHash;
    HashAfterBuild(plan, build, h);
    assert Tracked(plan.actions[b], build.Last().mem, h);
    if KeptHash(plan, build, h) {
      TrackedIsRight(plan.actions[b], build.Last().mem, build.Last().fs, h);
    }
    TrackedChange(plan.actions[b], build.Last().mem, h, fs);
  }
}
