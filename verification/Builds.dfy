/**
 Whole builds over a file system and a memory: any interleaving of actions that write, record and skip,
 and what becomes of the recorded hashes and header lists on the way.
 */
module Builds {
  import opened Wrappers
  import opened Bytes
  import opened Graphs
  import opened Staleness

  // ---------------------------------------------------------------- the build

  /** The actions of a build over its graph. */
  datatype Plan = Plan(graph: Graph, actions: seq<Action>) {

    ghost predicate Owns(b: nat, p: Path) {
      b < |actions| && p in actions[b].produces
    }

    ghost predicate Lists(a: nat, p: Path) {
      a < |actions| && p in actions[a].prerequisites
    }

    ghost predicate IsRaw(p: Path) {
      forall b: nat :: !Owns(b, p)
    }

    /** All produced paths, as the executor collects them. */
    ghost function Produced(): set<Path> {
      set b, p | 0 <= b < |actions| && p in actions[b].produces :: p
    }

    ghost predicate OneOwner() {
      forall a: nat, b: nat, p :: Owns(a, p) && Owns(b, p) ==> a == b
    }

    ghost predicate Linked() {
      forall a: nat, b: nat, p :: Lists(a, p) && Owns(b, p) && a != b ==> a < graph.Size() && b in graph.prereqs[a]
    }

    /** No file has two producers, every produced prerequisite has its edge, and no action key is zero. */
    ghost predicate Valid() {
      && graph.Valid() && |actions| == graph.Size()
      && OneOwner() && Linked()
      && (forall a :: 0 <= a < |actions| ==> actions[a].key != ZERO_HASH)
    }
  }

  lemma ProducedIs(plan: Plan, p: Path)
    ensures p in plan.Produced() <==> !plan.IsRaw(p)
  {
    if !plan.IsRaw(p) {
      var b: nat :| plan.Owns(b, p);
    }
    if p in plan.Produced() {
      var b :| 0 <= b < |plan.actions| && p in plan.actions[b].produces;
      assert plan.Owns(b, p);
    }
  }

  /** The files, the memory, and the actions that have written their outputs or are done. */
  datatype World = World(fs: Files, mem: Memory, wrote: set<nat>, done: set<nat>)

  datatype Event =
    | Wrote(action: nat, files: Files)
    | Recorded(action: nat, discovered: Option<seq<Path>>)
    | Skipped(action: nat)

  /** All prerequisites of `a` have succeeded. */
  ghost predicate Supplied(plan: Plan, w: World, a: nat) {
    a < |plan.graph.prereqs| && forall q :: q in plan.graph.prereqs[a] ==> q in w.done
  }

  ghost predicate MayStart(plan: Plan, w: World, a: nat) {
    a < |plan.actions| && a !in w.wrote && a !in w.done && Supplied(plan, w, a)
  }

  /** Raw, or made by `a` itself or one of its ancestors. */
  ghost predicate Behind(plan: Plan, a: nat, h: Path) {
    plan.IsRaw(h) || exists b: nat :: plan.Owns(b, h) && (b == a || plan.graph.ProperAncestor(b, a))
  }

  ghost predicate Possible(plan: Plan, w: World, e: Event) {
    match e
    case Skipped(a) => MayStart(plan, w, a) && !Outdated(plan.actions[a], w.fs, w.mem)
    case Wrote(a, files) =>
      && MayStart(plan, w, a)
      && (forall p :: p in files ==> plan.Owns(a, p) && files[p] != ZERO_HASH)
      && (forall p :: plan.Owns(a, p) ==> p in files || p in w.fs)
    case Recorded(a, discovered) =>
      && a in w.wrote && a !in w.done
      && (discovered.Some? ==> forall h :: h in discovered.value ==> Behind(plan, a, h))
  }

  ghost function After(plan: Plan, w: World, e: Event): World
    requires e.action < |plan.actions|
  {
    match e
    case Skipped(a) => w.(done := w.done + {a})
    case Wrote(a, files) => w.(fs := w.fs + files, wrote := w.wrote + {a})
    case Recorded(a, discovered) =>
      w.(mem := Staleness.RecordedMemory(w.mem, plan.actions[a], plan.Produced(), discovered, w.fs),
         done := w.done + {a})
  }

  ghost predicate NonZero(fs: Files) {
    forall p :: p in fs ==> fs[p] != ZERO_HASH
  }

  /** Nothing has run yet. What the memory says is left open. */
  ghost predicate IsStart(w: World) {
    w.wrote == {} && w.done == {} && NonZero(w.fs)
  }

  // ---------------------------------------------------------------- the invariant

  /** No event still to come can change this file. */
  ghost predicate Settled(plan: Plan, w: World, p: Path) {
    forall b: nat :: plan.Owns(b, p) ==> b in w.done
  }

  /** The recorded hash is that of the file, which will stay as it is. */
  ghost predicate Accurate(plan: Plan, w: World, p: Path) {
    Settled(plan, w, p) && p in w.fs && Stored(w.mem.contents, p) == w.fs[p] && w.fs[p] != ZERO_HASH
  }

  ghost predicate OutputsRecorded(plan: Plan, w: World, a: nat) {
    forall p :: plan.Owns(a, p) ==> p in w.fs && Stored(w.mem.keys, p) == plan.actions[a].key
  }

  ghost predicate SameEntry<V>(m: map<Path, V>, n: map<Path, V>, p: Path) {
    (p in m <==> p in n) && (p in m ==> m[p] == n[p])
  }

  ghost predicate FilesInv(plan: Plan, first: World, w: World) {
    && NonZero(w.fs)
    && (forall p :: plan.IsRaw(p) ==> SameEntry(first.fs, w.fs, p))
    && (forall a: nat, p :: a in w.wrote && plan.Owns(a, p) ==> p in w.fs)
  }

  ghost predicate OrderInv(plan: Plan, w: World) {
    forall a :: a in w.done || a in w.wrote ==> a < |plan.actions| && Supplied(plan, w, a)
  }

  ghost predicate DoneInv(plan: Plan, w: World) {
    forall a :: a in w.done ==> OutputsRecorded(plan, w, a)
  }

  ghost predicate Inv(plan: Plan, first: World, w: World) {
    FilesInv(plan, first, w) && OrderInv(plan, w) && DoneInv(plan, w)
  }

  // ---------------------------------------------------------------- ancestors are done

  lemma {:induction false} AncestorsDone(plan: Plan, w: World, a: nat, path: seq<nat>)
    requires plan.Valid() && OrderInv(plan, w) && Supplied(plan, w, a)
    requires plan.graph.IsPath(path) && path[0] == a && |path| >= 2
    ensures path[|path| - 1] in w.done
    decreases |path|
  {
    assert path[0 + 1] in plan.graph.prereqs[path[0]];
    if |path| > 2 {
      forall i | 0 <= i < |path[1..]| - 1
        ensures path[1..][i + 1] in plan.graph.prereqs[path[1..][i]]
      {
        assert path[(i + 1) + 1] in plan.graph.prereqs[path[i + 1]];
      }
      AncestorsDone(plan, w, path[1], path[1..]);
    }
  }

  /** What is behind a supplied action is settled once the action itself is done. */
  lemma BehindIsSettled(plan: Plan, w: World, a: nat, h: Path)
    requires plan.Valid() && OrderInv(plan, w) && Supplied(plan, w, a) && Behind(plan, a, h)
    ensures forall b: nat :: plan.Owns(b, h) ==> b in w.done || b == a
  {
    if !plan.IsRaw(h) {
      var b: nat :| plan.Owns(b, h) && (b == a || plan.graph.ProperAncestor(b, a));
      if b != a {
        var path :| plan.graph.PathBetween(path, a, b) && |path| >= 2;
        AncestorsDone(plan, w, a, path);
      }
    }
  }

  // ---------------------------------------------------------------- one event

  /** Skipping changes neither files nor memory; the test it passed has looked at the outputs. */
  lemma SkipInv(plan: Plan, first: World, w: World, a: nat)
    requires plan.Valid() && Inv(plan, first, w) && Possible(plan, w, Skipped(a))
    ensures Inv(plan, first, After(plan, w, Skipped(a)))
    ensures forall p :: Accurate(plan, w, p) ==> Accurate(plan, After(plan, w, Skipped(a)), p)
  {
    var action := plan.actions[a];
    forall p | plan.Owns(a, p) ensures p in w.fs && Stored(w.mem.keys, p) == action.key {
      assert !WrongKey(p, action.key, w.mem);
    }
  }

  lemma WriteInv(plan: Plan, first: World, w: World, a: nat, files: Files)
    requires plan.Valid() && Inv(plan, first, w) && Possible(plan, w, Wrote(a, files))
    ensures Inv(plan, first, After(plan, w, Wrote(a, files)))
    ensures forall p :: Accurate(plan, w, p) ==> Accurate(plan, After(plan, w, Wrote(a, files)), p)
  {
    var w' := After(plan, w, Wrote(a, files));
    forall p | Settled(plan, w, p) ensures SameEntry(w.fs, w'.fs, p) && Settled(plan, w', p) {
      assert p in files ==> plan.Owns(a, p);
    }
  }

  /** The recording of `a` takes the hash of this file. */
  ghost predicate Hashed(plan: Plan, w: World, a: nat, discovered: Option<seq<Path>>, p: Path) {
    p in w.fs && ((plan.Lists(a, p) && plan.IsRaw(p)) || (discovered.Some? && p in discovered.value))
  }

  /** The recording of `a` replaces the header list of this source. */
  ghost predicate Relisted(plan: Plan, a: nat, discovered: Option<seq<Path>>, p: Path) {
    plan.Lists(a, p) && plan.IsRaw(p) && discovered.Some?
  }

  /** What a recording does to the entries of one path. */
  lemma RecordedEntry(plan: Plan, w: World, a: nat, discovered: Option<seq<Path>>, p: Path)
    requires a < |plan.actions|
    ensures var mem := After(plan, w, Recorded(a, discovered)).mem;
            && (if Hashed(plan, w, a, discovered, p) then Stored(mem.contents, p) == w.fs[p]
                else SameEntry(w.mem.contents, mem.contents, p))
            && (if plan.Owns(a, p) then Stored(mem.keys, p) == plan.actions[a].key
                else SameEntry(w.mem.keys, mem.keys, p))
            && (if Relisted(plan, a, discovered, p)
                then p in mem.headers && Staleness.ListsHeaders(mem.headers[p], discovered.value)
                else SameEntry(w.mem.headers, mem.headers, p))
  {
    hide Precedes, Below;
    ProducedIs(plan, p);
    HeaderEntriesLists(Raw(plan.actions[a].prerequisites, plan.Produced()),
                       if discovered.Some? then discovered.value else []);
  }

  lemma HashedIsAccurate(plan: Plan, w: World, a: nat, discovered: Option<seq<Path>>, p: Path)
    requires plan.Valid() && OrderInv(plan, w) && NonZero(w.fs) && Possible(plan, w, Recorded(a, discovered))
    requires Hashed(plan, w, a, discovered, p)
    ensures Accurate(plan, After(plan, w, Recorded(a, discovered)), p)
  {
    hide Staleness.RecordedMemory;
    RecordedEntry(plan, w, a, discovered, p);
    if !plan.IsRaw(p) {
      BehindIsSettled(plan, w, a, p);
    }
  }

  lemma OutputsAfterRecord(plan: Plan, w: World, a: nat, discovered: Option<seq<Path>>, b: nat)
    requires plan.Valid() && a < |plan.actions| && b < |plan.actions|
    requires b == a || OutputsRecorded(plan, w, b)
    requires forall p :: plan.Owns(a, p) ==> p in w.fs
    ensures OutputsRecorded(plan, After(plan, w, Recorded(a, discovered)), b)
  {
    hide Staleness.RecordedMemory;
    forall p | plan.Owns(b, p)
      ensures p in w.fs && Stored(After(plan, w, Recorded(a, discovered)).mem.keys, p) == plan.actions[b].key
    {
      RecordedEntry(plan, w, a, discovered, p);
    }
  }

  lemma AccurateAfterRecord(plan: Plan, w: World, a: nat, discovered: Option<seq<Path>>, p: Path)
    requires a < |plan.actions| && Accurate(plan, w, p)
    ensures Accurate(plan, After(plan, w, Recorded(a, discovered)), p)
  {
    hide Staleness.RecordedMemory;
    RecordedEntry(plan, w, a, discovered, p);
  }

  lemma RecordInv(plan: Plan, first: World, w: World, a: nat, discovered: Option<seq<Path>>)
    requires plan.Valid() && Inv(plan, first, w) && Possible(plan, w, Recorded(a, discovered))
    ensures Inv(plan, first, After(plan, w, Recorded(a, discovered)))
    ensures forall p :: Accurate(plan, w, p) ==> Accurate(plan, After(plan, w, Recorded(a, discovered)), p)
  {
    hide Staleness.RecordedMemory, OutputsRecorded, Accurate, Plan.Valid, Behind;
    var w' := After(plan, w, Recorded(a, discovered));
    forall p | Accurate(plan, w, p) ensures Accurate(plan, w', p) {
      AccurateAfterRecord(plan, w, a, discovered, p);
    }
    forall b | b in w'.done ensures OutputsRecorded(plan, w', b) {
      OutputsAfterRecord(plan, w, a, discovered, b);
    }
  }

  lemma StepInv(plan: Plan, first: World, w: World, e: Event)
    requires plan.Valid() && Inv(plan, first, w) && e.action < |plan.actions| && Possible(plan, w, e)
    ensures Inv(plan, first, After(plan, w, e))
    ensures forall p :: Accurate(plan, w, p) ==> Accurate(plan, After(plan, w, e), p)
  {
    hide Inv, After, Accurate;
    match e {
      case Skipped(a) => SkipInv(plan, first, w, a);
      case Wrote(a, files) => WriteInv(plan, first, w, a, files);
      case Recorded(a, discovered) => RecordInv(plan, first, w, a, discovered);
    }
  }

  // ---------------------------------------------------------------- whole builds

  /** A build over any memory, one event at a time, in any order the prerequisites allow. */
  datatype Build = Build(worlds: seq<World>, events: seq<Event>) {

    ghost predicate Valid(plan: Plan) {
      && |worlds| == |events| + 1
      && IsStart(worlds[0])
      && forall i :: 0 <= i < |events| ==> IsStep(plan, worlds[i], events[i], worlds[i + 1])
    }

    function First(): World
      requires |worlds| > 0
    {
      worlds[0]
    }

    function Last(): World
      requires |worlds| > 0
    {
      worlds[|worlds| - 1]
    }

    /** Event `k` takes the hash of this file. */
    ghost predicate HashedAt(plan: Plan, k: nat, p: Path) {
      && k < |events| && k < |worlds| && events[k].Recorded?
      && Hashed(plan, worlds[k], events[k].action, events[k].discovered, p)
    }

    /** Event `k` replaces the header list of this source. */
    ghost predicate RelistedAt(plan: Plan, k: nat, p: Path) {
      k < |events| && events[k].Recorded? && Relisted(plan, events[k].action, events[k].discovered, p)
    }
  }

  ghost predicate IsStep(plan: Plan, w: World, e: Event, w': World) {
    e.action < |plan.actions| && Possible(plan, w, e) && w' == After(plan, w, e)
  }

  lemma {:induction false} BuildInv(plan: Plan, build: Build, k: nat)
    requires plan.Valid() && build.Valid(plan) && k < |build.worlds|
    ensures Inv(plan, build.First(), build.worlds[k])
    decreases k
  {
    hide After, Possible;
    if k > 0 {
      BuildInv(plan, build, k - 1);
      assert IsStep(plan, build.worlds[k - 1], build.events[k - 1], build.worlds[k]);
      StepInv(plan, build.First(), build.worlds[k - 1], build.events[k - 1]);
    }
  }

  lemma {:induction false} StaysAccurate(plan: Plan, build: Build, j: nat, k: nat, p: Path)
    requires plan.Valid() && build.Valid(plan) && j <= k < |build.worlds| && Accurate(plan, build.worlds[j], p)
    ensures Accurate(plan, build.worlds[k], p)
    decreases k - j
  {
    hide Inv, Accurate, After, Possible;
    if j < k {
      BuildInv(plan, build, j);
      assert IsStep(plan, build.worlds[j], build.events[j], build.worlds[j + 1]);
      StepInv(plan, build.First(), build.worlds[j], build.events[j]);
      StaysAccurate(plan, build, j + 1, k, p);
    }
  }

  /** No event changes a raw file. */
  lemma RawFileIsKept(plan: Plan, build: Build, k: nat, p: Path)
    requires plan.Valid() && build.Valid(plan) && k < |build.worlds| && plan.IsRaw(p)
    ensures SameEntry(build.First().fs, build.worlds[k].fs, p)
  {
    BuildInv(plan, build, k);
  }

  /** A hash that an event takes is right, and right for the rest of the build. */
  lemma HashedStaysAccurate(plan: Plan, build: Build, j: nat, k: nat, p: Path)
    requires plan.Valid() && build.Valid(plan) && j < k < |build.worlds| && build.HashedAt(plan, j, p)
    ensures Accurate(plan, build.worlds[k], p)
  {
    hide Accurate, After;
    BuildInv(plan, build, j);
    assert IsStep(plan, build.worlds[j], build.events[j], build.worlds[j + 1]);
    HashedIsAccurate(plan, build.worlds[j], build.events[j].action, build.events[j].discovered, p);
    StaysAccurate(plan, build, j + 1, k, p);
  }

  lemma {:induction false} UnhashedIsKept(plan: Plan, build: Build, k: nat, p: Path)
    requires plan.Valid() && build.Valid(plan) && k < |build.worlds|
    requires forall j: nat :: j < k ==> !build.HashedAt(plan, j, p)
    ensures SameEntry(build.First().mem.contents, build.worlds[k].mem.contents, p)
    decreases k
  {
    hide Staleness.RecordedMemory, Plan.Valid;
    if k > 0 {
      UnhashedIsKept(plan, build, k - 1, p);
      var w, e := build.worlds[k - 1], build.events[k - 1];
      assert IsStep(plan, w, e, build.worlds[k]);
      if e.Recorded? {
        assert !build.HashedAt(plan, k - 1, p);
        RecordedEntry(plan, w, e.action, e.discovered, p);
      }
    }
  }

  /** A header list that the build has recorded is the one some event has discovered. */
  ghost predicate ListedBy(plan: Plan, build: Build, j: nat, p: Path, list: seq<Path>) {
    build.RelistedAt(plan, j, p) && forall h :: h in list <==> h in build.events[j].discovered.value
  }

  /** A header list is the one the build started with until an event replaces it. */
  lemma {:induction false} ListAtEvent(plan: Plan, build: Build, k: nat, p: Path)
    requires plan.Valid() && build.Valid(plan) && k < |build.worlds|
    ensures (forall j: nat :: j < k ==> !build.RelistedAt(plan, j, p))
            ==> SameEntry(build.First().mem.headers, build.worlds[k].mem.headers, p)
    ensures (exists j: nat :: j < k && build.RelistedAt(plan, j, p))
            ==> p in build.worlds[k].mem.headers
                && exists j: nat :: j < k && ListedBy(plan, build, j, p, build.worlds[k].mem.headers[p])
    decreases k
  {
    hide Staleness.RecordedMemory, Plan.Valid, Possible;
    if k > 0 {
      ListAtEvent(plan, build, k - 1, p);
      var w, e := build.worlds[k - 1], build.events[k - 1];
      assert IsStep(plan, w, e, build.worlds[k]);
      if e.Recorded? {
        RecordedEntry(plan, w, e.action, e.discovered, p);
      }
      if build.RelistedAt(plan, k - 1, p) {
        assert ListedBy(plan, build, k - 1, p, build.worlds[k].mem.headers[p]);
      } else {
        assert SameEntry(w.mem.headers, build.worlds[k].mem.headers, p);
      }
    }
  }
}
