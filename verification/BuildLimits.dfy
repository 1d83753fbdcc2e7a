/** Where the staleness test falls short of a clean build. */
module BuildLimits {
  import opened Wrappers
  import opened Bytes
  import opened Staleness
  import opened Builds
  import opened NullBuilds

  /** What the memory becomes when `a` is recorded over these files. */
  ghost function Recording(
    plan: Plan, mem: Memory, a: nat, discovered: Option<seq<Path>>, fs: Files): Memory
    requires a < |plan.actions|
  {
    RecordedMemory(mem, plan.actions[a], plan.Produced(), discovered, fs)
  }

  /** The content-hash map is keyed by path alone: after an edit, the first consumer to run again
      records the new hash, and the other consumers of the file are taken to be up to date. */
  lemma SecondConsumerIsMissed(plan: Plan, mem: Memory, a: nat, b: nat, x: Path,
                               discovered: Option<seq<Path>>, fs: Files, edited: IoHash)
    requires plan.Valid() && NonZero(fs) && plan.Lists(a, x) && plan.Lists(b, x) && a != b && plan.IsRaw(x)
    requires !Outdated(plan.actions[b], fs, mem) && Stored(mem.contents, x) != ZERO_HASH
    requires edited != ZERO_HASH && (x in fs ==> edited != fs[x])
    requires discovered.Some? ==> forall h :: h in discovered.value ==> h in fs
    ensures Outdated(plan.actions[b], fs[x := edited], mem)
    ensures !Outdated(plan.actions[b], fs[x := edited], Recording(plan, mem, a, discovered, fs[x := edited]))
  {
    hide Staleness.RecordedMemory, Outdated;
    TrackedIsRight(plan.actions[b], mem, fs, x);
    TrackedChange(plan.actions[b], mem, x, fs[x := edited]);
    MissedAfterRecording(plan, mem, a, b, x, discovered, fs, edited);
  }

  lemma MissedAfterRecording(plan: Plan, mem: Memory, a: nat, b: nat, x: Path,
                             discovered: Option<seq<Path>>, fs: Files, edited: IoHash)
    requires plan.Valid() && NonZero(fs) && plan.Lists(a, x) && plan.Lists(b, x) && a != b && plan.IsRaw(x)
    requires !Outdated(plan.actions[b], fs, mem) && edited != ZERO_HASH
    requires discovered.Some? ==> forall h :: h in discovered.value ==> h in fs
    ensures !Outdated(plan.actions[b], fs[x := edited], Recording(plan, mem, a, discovered, fs[x := edited]))
  {
    hide Staleness.RecordedMemory;
    var fs', action := fs[x := edited], plan.actions[b];
    var mem' := Recording(plan, mem, a, discovered, fs');
    var w := World(fs', mem, {}, {});
    forall p | p in action.produces ensures !WrongKey(p, action.key, mem') {
      assert plan.Owns(b, p) && !WrongKey(p, action.key, mem);
      RecordedEntry(plan, w, a, discovered, p);
    }
    forall p | !PrerequisiteChanged(p, fs, mem) ensures !PrerequisiteChanged(p, fs', mem') {
      RecordedEntry(plan, w, a, discovered, p);
    }
    forall s | !SomeHeaderChanged(s, fs, mem) ensures !SomeHeaderChanged(s, fs', mem') {
      RecordedEntry(plan, w, a, discovered, s);
      if s in mem'.headers {
        forall h | h in mem'.headers[s] ensures !HeaderChanged(h, fs', mem') {
          RecordedEntry(plan, w, a, discovered, h);
        }
      }
    }
  }

  /** A produced prerequisite with a content hash from the time when it was a source: no success ever
      refreshes the hash, so the action is out of date after every one of them. */
  lemma StaleHashOfProductPersists(plan: Plan, mem: Memory, a: nat, x: Path, discovered: Option<seq<Path>>, fs: Files)
    requires plan.Lists(a, x) && !plan.IsRaw(x) && (discovered.Some? ==> x !in discovered.value)
    requires PrerequisiteChanged(x, fs, mem)
    ensures Outdated(plan.actions[a], fs, Recording(plan, mem, a, discovered, fs))
  {
    hide Staleness.RecordedMemory;
    RecordedEntry(plan, World(fs, mem, {}, {}), a, discovered, x);
    assert PrerequisiteChanged(x, fs, Recording(plan, mem, a, discovered, fs));
    assert x in plan.actions[a].prerequisites;
  }

  /** A listed source that had a hash and no longer exists: its entry is never removed, so the action is
      out of date after every success. */
  lemma HashOfDeletedSourcePersists(plan: Plan, mem: Memory, a: nat, x: Path, discovered: Option<seq<Path>>, fs: Files)
    requires plan.Lists(a, x) && x !in fs && Stored(mem.contents, x) != ZERO_HASH
    ensures Outdated(plan.actions[a], fs, Recording(plan, mem, a, discovered, fs))
  {
    hide Staleness.RecordedMemory;
    RecordedEntry(plan, World(fs, mem, {}, {}), a, discovered, x);
    assert PrerequisiteChanged(x, fs, Recording(plan, mem, a, discovered, fs));
    assert x in plan.actions[a].prerequisites;
  }

  /** A source with a header list keeps it when the action no longer emits a dependency file; a header
      of the list that is gone then keeps the action out of date. */
  lemma OrphanedHeaderListPersists(plan: Plan, mem: Memory, a: nat, s: Path, h: Path, fs: Files)
    requires plan.Lists(a, s) && s in mem.headers && h in mem.headers[s] && h !in fs
    ensures Outdated(plan.actions[a], fs, Recording(plan, mem, a, None, fs))
  {
    hide Staleness.RecordedMemory;
    var mem' := Recording(plan, mem, a, None, fs);
    RecordedEntry(plan, World(fs, mem, {}, {}), a, None, s);
    assert HeaderChanged(h, fs, mem');
    assert s in plan.actions[a].prerequisites && SomeHeaderChanged(s, fs, mem');
  }

  /** A discovered header that does not exist gets no hash, and keeps the action out of date. */
  lemma MissingHeaderPersists(plan: Plan, mem: Memory, a: nat, s: Path, h: Path, discovered: seq<Path>, fs: Files)
    requires plan.Lists(a, s) && plan.IsRaw(s) && h in discovered && h !in fs
    ensures Outdated(plan.actions[a], fs, Recording(plan, mem, a, Some(discovered), fs))
  {
    hide Staleness.RecordedMemory;
    var mem' := Recording(plan, mem, a, Some(discovered), fs);
    RecordedEntry(plan, World(fs, mem, {}, {}), a, Some(discovered), s);
    assert HeaderChanged(h, fs, mem');
    assert s in plan.actions[a].prerequisites && SomeHeaderChanged(s, fs, mem');
  }

  /** A header that another action makes without being an ancestor of `b`: `b` can be taken to be up to
      date before the header is made again, and is out of date when it has been, although it is done. */
  lemma UntidyHeaderIsMissed(plan: Plan, w: World, b: nat, s: Path, h: Path, q: nat, files: Files)
    requires plan.Valid() && Possible(plan, w, Skipped(b))
    requires plan.Lists(b, s) && s in w.mem.headers && h in w.mem.headers[s] && plan.Owns(q, h)
    requires Possible(plan, After(plan, w, Skipped(b)), Wrote(q, files))
    requires h in files && h in w.fs && files[h] != w.fs[h]
    ensures var w' := After(plan, After(plan, w, Skipped(b)), Wrote(q, files));
            b in w'.done && Outdated(plan.actions[b], w'.fs, w'.mem)
  {
    hide Outdated;
    assert Tracked(plan.actions[b], w.mem, h);
    TrackedIsRight(plan.actions[b], w.mem, w.fs, h);
    TrackedChange(plan.actions[b], w.mem, h, w.fs + files);
  }

  /** An action without outputs over a memory that knows none of its prerequisites is up to date, whatever
      the files: it is skipped without ever having been recorded, and no edit of a source is seen. */
  lemma NothingProducedIsNeverRun(a: Action, mem: Memory, fs: Files)
    requires a.produces == []
    requires forall p :: p in a.prerequisites ==> Stored(mem.contents, p) == ZERO_HASH && p !in mem.headers
    ensures !Outdated(a, fs, mem)
  {
  }

  /** A file without a recorded hash that no listed source includes is not looked at: its edits go
      unseen instead of forcing a rebuild. */
  lemma UnhashedSourceIsNotSeen(a: Action, mem: Memory, x: Path, fs: Files, edited: IoHash)
    requires x !in a.produces && x in fs && Stored(mem.contents, x) == ZERO_HASH
    requires forall s :: s in a.prerequisites && s in mem.headers ==> x !in mem.headers[s]
    ensures Outdated(a, fs[x := edited], mem) <==> Outdated(a, fs, mem)
  {
    var fs' := fs[x := edited];
    forall s | s in a.prerequisites ensures SomeHeaderChanged(s, fs', mem) <==> SomeHeaderChanged(s, fs, mem) {
      if s in mem.headers {
        forall h | h in mem.headers[s] ensures HeaderChanged(h, fs', mem) <==> HeaderChanged(h, fs, mem) {
        }
      }
    }
    assert forall p :: PrerequisiteChanged(p, fs', mem) <==> PrerequisiteChanged(p, fs, mem);
  }
}
